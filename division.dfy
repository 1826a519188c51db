/**
 * `divmod_polynomial` (polynomial.py:204-243): long division of polynomials with
 * exact rational coefficients, its specification, and the uniqueness of quotient and
 * remainder that the greatest common divisor relies on.
 */
module Division {
  import opened Results
  import opened Polynomials
  import opened Products

  // ---------------------------------------------------------------------------
  // Products with differences
  // ---------------------------------------------------------------------------

  /** Multiplication distributes over subtraction on the left. */
  lemma ProductSubLeft(a: Polynomial, b: Polynomial, q: Polynomial)
    ensures Product(Sub(a, b), q) == Sub(Product(a, q), Product(b, q))
  {
    Ext(Sub(a, b), Sum(a, Scale(b, -1.0)));
    ProductSumLeft(a, Scale(b, -1.0), q);
    ProductScaleLeft(b, -1.0, q);
    Ext(Sum(Product(a, q), Scale(Product(b, q), -1.0)), Sub(Product(a, q), Product(b, q)));
  }

  /** The degree of a difference is at most the larger degree. */
  lemma SubDegreeBound(a: Polynomial, b: Polynomial, n: int)
    requires Degree(a) <= n && Degree(b) <= n
    ensures Degree(Sub(a, b)) <= n
  {
    if n >= -1 {
      forall e: nat | e >= n + 1
        ensures Coef(Sub(a, b), e) == 0.0
      {
      }
      DegreeBelow(Sub(a, b), n + 1);
    }
  }

  /** A monomial with a non-zero coefficient has its exponent as degree. */
  lemma MonoDegree(k: nat, c: real)
    requires c != 0.0
    ensures Mono(k, c) != map[] && Degree(Mono(k, c)) == k && Lead(Mono(k, c)) == c
  {
    DegreeIs(Mono(k, c), k);
  }

  // ---------------------------------------------------------------------------
  // One step of long division
  // ---------------------------------------------------------------------------

  /** The quotient term of one step: the remainder's lead divided by the divisor's, at the exponent difference. */
  function QuotientTerm(r: Polynomial, d: Polynomial): (t: Polynomial)
    requires r != map[] && d != map[] && Degree(r) >= Degree(d)
    ensures t != map[] && Degree(t) == Degree(r) - Degree(d) && Lead(t) == Lead(r) / Lead(d)
  {
    MonoDegree(Degree(r) - Degree(d), Lead(r) / Lead(d));
    Mono(Degree(r) - Degree(d), Lead(r) / Lead(d))
  }

  /** The quotient term from the two leading terms, as `divmod` computes it. */
  lemma QuotientTermOfLeads(r: Polynomial, d: Polynomial)
    requires r != map[] && d != map[] && Degree(r) >= Degree(d)
    ensures LeadingTerm(r).0.value >= LeadingTerm(d).0.value
    ensures QuotientTerm(r, d)
      == Mono(LeadingTerm(r).0.value - LeadingTerm(d).0.value, LeadingTerm(r).1 / LeadingTerm(d).1)
  {
  }

  /** Subtracting QuotientTerm(r, d) * d cancels the remainder's leading term: its degree drops. */
  lemma StepDegree(r: Polynomial, d: Polynomial)
    requires r != map[] && d != map[] && Degree(r) >= Degree(d)
    ensures Degree(Sub(r, Product(QuotientTerm(r, d), d))) < Degree(r)
  {
    var t := QuotientTerm(r, d);
    ProductDegree(t, d);
    var s := Product(t, d);
    assert Degree(s) == Degree(r);
    assert Lead(s) == Lead(r) / Lead(d) * Lead(d) == Lead(r);
    forall e: nat | e >= Degree(r)
      ensures Coef(Sub(r, s), e) == 0.0
    {
    }
    DegreeBelow(Sub(r, s), Degree(r));
  }

  /**
   * The loop of `divmod_polynomial` as a recursion: while the remainder is non-zero and
   * of degree at least the divisor's, move one term into the quotient.
   */
  ghost function LongDivision(q: Polynomial, r: Polynomial, d: Polynomial): (res: (Polynomial, Polynomial))
    requires d != map[]
    decreases Size(r)
  {
    if r != map[] && Degree(r) >= Degree(d) then
      var t := QuotientTerm(r, d);
      StepDegree(r, d);
      LongDivision(Sum(q, t), Sub(r, Product(t, d)), d)
    else
      (q, r)
  }

  /** Unfolding one step of long division. */
  lemma LongDivisionStep(q: Polynomial, r: Polynomial, d: Polynomial)
    requires r != map[] && d != map[] && Degree(r) >= Degree(d)
    ensures Size(Sub(r, Product(QuotientTerm(r, d), d))) < Size(r)
    ensures LongDivision(q, r, d)
         == LongDivision(Sum(q, QuotientTerm(r, d)), Sub(r, Product(QuotientTerm(r, d), d)), d)
  {
    StepDegree(r, d);
  }

  /** One step keeps q * d + r unchanged. */
  lemma StepKeepsValue(q: Polynomial, r: Polynomial, t: Polynomial, d: Polynomial)
    ensures Sum(Product(Sum(q, t), d), Sub(r, Product(t, d))) == Sum(Product(q, d), r)
  {
    ProductSumLeft(q, t, d);
    Ext(Sum(Product(Sum(q, t), d), Sub(r, Product(t, d))), Sum(Product(q, d), r));
  }

  /** The remainder of a division is zero or of lower degree than the divisor. */
  ghost predicate Reduced(r: Polynomial, d: Polynomial) {
    r == map[] || Degree(r) < Degree(d)
  }

  /** Long division keeps q * d + r, and stops at a reduced remainder. */
  lemma {:induction false} LongDivisionCorrect(q: Polynomial, r: Polynomial, d: Polynomial)
    requires d != map[]
    ensures Sum(Product(LongDivision(q, r, d).0, d), LongDivision(q, r, d).1) == Sum(Product(q, d), r)
    ensures Reduced(LongDivision(q, r, d).1, d)
    decreases Size(r)
  {
    if r != map[] && Degree(r) >= Degree(d) {
      var t := QuotientTerm(r, d);
      StepDegree(r, d);
      LongDivisionCorrect(Sum(q, t), Sub(r, Product(t, d)), d);
      StepKeepsValue(q, r, t, d);
    }
  }

  // ---------------------------------------------------------------------------
  // Specification of divmod_polynomial and uniqueness
  // ---------------------------------------------------------------------------

  /**
   * `divmod_polynomial` (polynomial.py:204-243): dividing by zero gives (0, 0) for a
   * zero dividend and ValueError otherwise; else long division from quotient 0.
   */
  ghost function Divmod(p: Polynomial, d: Polynomial): Result<(Polynomial, Polynomial)> {
    if d == map[] then
      if p == map[] then Ok((Zero, Zero)) else Err(ValueError)
    else
      Ok(LongDivision(map[], p, d))
  }

  /** q * d + r == p with a reduced remainder: what divmod promises. */
  ghost predicate IsDivision(p: Polynomial, d: Polynomial, q: Polynomial, r: Polynomial) {
    Sum(Product(q, d), r) == p && Reduced(r, d)
  }

  /** Division by a non-zero divisor succeeds, and its result is a division of p by d. */
  lemma DivmodCorrect(p: Polynomial, d: Polynomial)
    requires d != map[]
    ensures Divmod(p, d).Ok?
    ensures IsDivision(p, d, Divmod(p, d).value.0, Divmod(p, d).value.1)
  {
    LongDivisionCorrect(map[], p, d);
    ProductZero(d);
    SumZero(p);
  }

  /** Dividing by the zero polynomial: 0 / 0 gives (0, 0), anything else raises ValueError. */
  lemma DivmodByZero(p: Polynomial)
    ensures Divmod(p, map[]) == (if p == map[] then Ok((Zero, Zero)) else Err(ValueError))
  {
  }

  /** Quotient and remainder are unique: two divisions of the same p by d agree. */
  lemma DivisionUnique(p: Polynomial, d: Polynomial, q1: Polynomial, r1: Polynomial, q2: Polynomial, r2: Polynomial)
    requires d != map[]
    requires IsDivision(p, d, q1, r1) && IsDivision(p, d, q2, r2)
    ensures q1 == q2 && r1 == r2
  {
    // (q1 - q2) * d == r2 - r1
    ProductSubLeft(q1, q2, d);
    Ext(Product(Sub(q1, q2), d), Sub(r2, r1));
    SubDegreeBound(r2, r1, Degree(d) - 1);
    if Sub(q1, q2) != map[] {
      ProductDegree(Sub(q1, q2), d);
      assert false;
    }
    SubZeroIff(q1, q2);
    ProductZero(d);
    SubZeroIff(r2, r1);
  }

  /** Divmod's result is exactly the division of p by d: both directions. */
  lemma DivmodIff(p: Polynomial, d: Polynomial, q: Polynomial, r: Polynomial)
    requires d != map[]
    ensures Divmod(p, d) == Ok((q, r)) <==> IsDivision(p, d, q, r)
  {
    DivmodCorrect(p, d);
    if IsDivision(p, d, q, r) {
      DivisionUnique(p, d, q, r, Divmod(p, d).value.0, Divmod(p, d).value.1);
    }
  }

  /** A multiple of d divides exactly: the quotient is the factor and the remainder zero. */
  lemma DivmodOfMultiple(k: Polynomial, d: Polynomial)
    requires d != map[]
    ensures Divmod(Product(k, d), d) == Ok((k, Zero))
  {
    SumZero(Product(k, d));
    DivmodIff(Product(k, d), d, k, map[]);
  }

  /** A dividend of lower degree than the divisor is its own remainder. */
  lemma DivmodSmall(p: Polynomial, d: Polynomial)
    requires d != map[] && Degree(p) < Degree(d)
    ensures Divmod(p, d) == Ok((Zero, p))
  {
    ProductZero(d);
    SumZero(p);
    DivmodIff(p, d, map[], p);
  }

  /** The quotient of p by d has degree Degree(p) - Degree(d) when that is not negative. */
  lemma DivmodQuotientDegree(p: Polynomial, d: Polynomial)
    requires d != map[] && Degree(p) >= Degree(d)
    ensures Divmod(p, d).Ok? && Degree(Divmod(p, d).value.0) == Degree(p) - Degree(d)
  {
    DivmodCorrect(p, d);
    var (q, r) := Divmod(p, d).value;
    if q == map[] {
      ProductZero(d);
      SumZero(r);
      assert false;
    }
    ProductDegree(q, d);
    SumDominated(r, Product(q, d));
    SumComm(r, Product(q, d));
  }

  // ---------------------------------------------------------------------------
  // divmod_polynomial
  // ---------------------------------------------------------------------------

  /**
   * `divmod_polynomial` (polynomial.py:204-243). The source's checks for a zero divisor
   * lead (220-221), a zero remainder lead (226-227) and a negative exponent difference
   * (232-233) can never fire; they are asserted away here.
   */
  method DivmodPolynomial(p: Polynomial, d: Polynomial) returns (res: Result<(Polynomial, Polynomial)>)
    ensures res == Divmod(p, d)
    ensures d != map[] ==> res.Ok? && IsDivision(p, d, res.value.0, res.value.1)
  {
    if d == map[] {
      if p == map[] {
        return Ok((Zero, Zero));
      } else {
        return Err(ValueError);
      }
    }
    var quotient: Polynomial := map[];
    var remainder := p;
    var (divisorExp, divisorCoeff) := LeadingTerm(d);
    assert divisorCoeff != 0.0;
    while Degree(remainder) >= Degree(d) && remainder != map[]
      invariant LongDivision(quotient, remainder, d) == LongDivision(map[], p, d)
      decreases Size(remainder)
    {
      var (remainderExp, remainderCoeff) := LeadingTerm(remainder);
      assert remainderCoeff != 0.0;
      var termCoeff := remainderCoeff / divisorCoeff;
      var termExp := remainderExp.value - divisorExp.value;
      assert termExp >= 0;
      var current := Mono(termExp, termCoeff);
      QuotientTermOfLeads(remainder, d);
      LongDivisionStep(quotient, remainder, d);
      quotient := Add(quotient, current);
      var toSubtract := Mul(current, d);
      remainder := Subtract(remainder, toSubtract);
    }
    res := Ok((quotient, remainder));
    DivmodCorrect(p, d);
  }
}
