/**
 * The `Polynomial` class of polynomial_parser/polynomial.py: a univariate polynomial
 * stored as a map from exponent to non-zero exact rational coefficient.
 *
 * This module holds the representation, construction, degree and leading term, and the
 * additive operations. Each operation has a ghost specification function characterised
 * by its coefficients (Sum, Neg, Sub, Scale) and, where the source builds a new term
 * dictionary, a method that builds it the same way and is proved to return that value.
 */
module Polynomials {
  import opened Results

  // ---------------------------------------------------------------------------
  // Representation
  // ---------------------------------------------------------------------------

  /** The coefficient at exponent e; absent exponents read as zero. */
  function Coef(m: map<nat, real>, e: nat): real {
    if e in m then m[e] else 0.0
  }

  predicate NoZeroCoefficient(m: map<nat, real>) {
    forall e | e in m :: m[e] != 0.0
  }

  /** A `terms` dictionary after construction: the zero polynomial is the empty map. */
  type Polynomial = p: map<nat, real> | NoZeroCoefficient(p) witness map[]

  /** `Polynomial()`: the zero polynomial, with no terms. */
  const Zero: Polynomial := map[]

  /** Two polynomials are equal exactly when all their coefficients agree. */
  lemma Ext(p: Polynomial, q: Polynomial)
    requires forall e: nat :: Coef(p, e) == Coef(q, e)
    ensures p == q
  {
    forall e | e in p
      ensures e in q && p[e] == q[e]
    {
      assert Coef(p, e) == Coef(q, e);
    }
    forall e | e in q
      ensures e in p
    {
      assert Coef(p, e) == Coef(q, e);
    }
    assert p.Keys == q.Keys;
  }

  // ---------------------------------------------------------------------------
  // Construction (polynomial.py:6-29)
  // ---------------------------------------------------------------------------

  /** The polynomial a `terms` dictionary denotes: zero entries are dropped, the rest kept. */
  function Clean(terms: map<nat, real>): (p: Polynomial)
    ensures forall e: nat {:trigger Coef(p, e)} :: Coef(p, e) == Coef(terms, e)
    ensures p.Keys <= terms.Keys
  {
    map e | e in terms && terms[e] != 0.0 :: terms[e]
  }

  /** `_clean_terms` (polynomial.py:25-29): delete every entry whose coefficient is zero. */
  method CleanTerms(terms: map<nat, real>) returns (p: Polynomial)
    ensures p == Clean(terms)
    ensures p.Keys == set e | e in terms && terms[e] != 0.0
    ensures forall e | e in p :: p[e] == terms[e]
  {
    var m := terms;
    var rest := terms.Keys;
    while rest != {}
      invariant rest <= m.Keys <= terms.Keys
      invariant forall e | e in m :: m[e] == terms[e]
      invariant forall e | e in terms && e !in m :: terms[e] == 0.0
      invariant forall e | e in m && e !in rest :: m[e] != 0.0
      decreases rest
    {
      var e :| e in rest;
      if m[e] == 0.0 {
        m := m - {e};
      }
      rest := rest - {e};
    }
    p := m;
    Ext(p, Clean(terms));
  }

  /**
   * `__init__` (polynomial.py:6-23): copy the non-zero entries one by one, then clean.
   * Exponents are already natural numbers and coefficients already exact, so the
   * conversions of lines 16-17 always succeed.
   */
  method New(terms: map<nat, real>) returns (p: Polynomial)
    ensures p == Clean(terms)
    ensures p == map[] <==> forall e | e in terms :: terms[e] == 0.0
  {
    var m: map<nat, real> := map[];
    var rest := terms.Keys;
    while rest != {}
      invariant rest <= terms.Keys
      invariant NoZeroCoefficient(m)
      invariant forall e: nat :: Coef(m, e) == if e in rest then 0.0 else Coef(terms, e)
      decreases rest
    {
      var e :| e in rest;
      if terms[e] != 0.0 {
        m := m[e := terms[e]];
      }
      rest := rest - {e};
    }
    p := CleanTerms(m);
    Ext(p, Clean(terms));
    if p == map[] {
      forall e | e in terms
        ensures terms[e] == 0.0
      {
        assert Coef(p, e) == Coef(terms, e);
      }
    }
  }

  // ---------------------------------------------------------------------------
  // Degree and leading term (polynomial.py:31-54)
  // ---------------------------------------------------------------------------

  lemma MaxExists(s: set<nat>)
    requires s != {}
    ensures exists m :: m in s && forall e | e in s :: e <= m
  {
    var x :| x in s;
    if s != {x} {
      MaxExists(s - {x});
      var m :| m in s - {x} && forall e | e in s - {x} :: e <= m;
      assert forall e | e in s :: e == x || e in s - {x};
      if x > m {
        assert forall e | e in s :: e <= x;
      } else {
        assert forall e | e in s :: e <= m;
      }
    } else {
      assert forall e | e in s :: e <= x;
    }
  }

  /** `max(self.terms.keys())` */
  function MaxKey(p: Polynomial): (m: nat)
    requires p != map[]
    ensures m in p && forall e | e in p :: e <= m
  {
    MaxExists(p.Keys);
    var m :| m in p.Keys && forall e | e in p.Keys :: e <= m; m
  }

  /** `degree()` (polynomial.py:39-42): the largest exponent, or -1 for the zero polynomial. */
  function Degree(p: Polynomial): (d: int)
    ensures d >= -1
    ensures d == -1 <==> p == map[]
    ensures d >= 0 ==> d in p && Coef(p, d) != 0.0
    ensures forall e: nat :: e > d ==> Coef(p, e) == 0.0
  {
    if p == map[] then -1 else MaxKey(p)
  }

  /** The number of coefficient slots up to the degree; the measure of every recursion on p. */
  function Size(p: Polynomial): nat {
    Degree(p) + 1
  }

  /** The leading coefficient; zero for the zero polynomial. */
  function Lead(p: Polynomial): (c: real)
    ensures p == map[] <==> c == 0.0
    ensures p != map[] ==> c == Coef(p, Degree(p))
  {
    if p == map[] then 0.0 else p[MaxKey(p)]
  }

  /** `_leading_term()` (polynomial.py:31-37): `(None, 0)` for zero, else the top term. */
  function LeadingTerm(p: Polynomial): (t: (Option<nat>, real))
    ensures p == map[] ==> t == (None, 0.0)
    ensures p != map[] ==> t.0 == Some(Degree(p)) && t.1 == Lead(p) && t.1 != 0.0
  {
    if p == map[] then (None, 0.0) else (Some(MaxKey(p)), p[MaxKey(p)])
  }

  /** `is_zero()` (polynomial.py:44-46) */
  function IsZero(p: Polynomial): (b: bool)
    ensures b <==> forall e: nat :: Coef(p, e) == 0.0
  {
    if p == map[] then true else assert Coef(p, MaxKey(p)) != 0.0; false
  }

  /** `is_constant()` (polynomial.py:48-54): zero, or of degree 0. */
  function IsConstant(p: Polynomial): (b: bool)
    ensures b <==> forall e: nat :: e > 0 ==> Coef(p, e) == 0.0
    ensures b <==> Degree(p) <= 0
  {
    if IsZero(p) then true
    else
      assert Degree(p) > 0 ==> Coef(p, Degree(p)) != 0.0;
      Degree(p) == 0
  }

  /** A coefficient at n that is non-zero with nothing above it fixes the degree. */
  lemma DegreeIs(p: Polynomial, n: nat)
    requires Coef(p, n) != 0.0
    requires forall e: nat :: e > n ==> Coef(p, e) == 0.0
    ensures Degree(p) == n && Lead(p) == Coef(p, n)
  {
    assert n in p;
    var m := MaxKey(p);
    assert Coef(p, m) != 0.0;
  }

  /** Zero coefficients from n upward put the degree below n. */
  lemma DegreeBelow(p: Polynomial, n: nat)
    requires forall e: nat :: e >= n ==> Coef(p, e) == 0.0
    ensures Degree(p) < n
  {
    if p != map[] {
      assert Coef(p, Degree(p)) != 0.0;
    }
  }

  // ---------------------------------------------------------------------------
  // Building blocks
  // ---------------------------------------------------------------------------

  /** `Polynomial({0: c})` */
  function Const(c: real): (p: Polynomial)
    ensures forall e: nat :: Coef(p, e) == if e == 0 then c else 0.0
  {
    if c == 0.0 then map[] else map[0 := c]
  }

  /** `Polynomial({k: c})` */
  function Mono(k: nat, c: real): (p: Polynomial)
    ensures forall e: nat :: Coef(p, e) == if e == k then c else 0.0
  {
    if c == 0.0 then map[] else map[k := c]
  }

  /** The constant polynomial 1, `Polynomial({0: Fraction(1)})`. */
  function One(): (p: Polynomial)
    ensures forall e: nat :: Coef(p, e) == if e == 0 then 1.0 else 0.0
    ensures Degree(p) == 0 && Lead(p) == 1.0
  {
    DegreeIs(map[0 := 1.0], 0);
    map[0 := 1.0]
  }

  /** Multiplication by x: every exponent raised by one. */
  ghost function Shift(p: Polynomial): (r: Polynomial)
    ensures forall e: nat {:trigger Coef(r, e)} :: Coef(r, e) == if e == 0 then 0.0 else Coef(p, e - 1)
  {
    var keys := set k | k in p :: k + 1;
    var m: Polynomial := map e | e in keys :: p[e - 1];
    assert forall e: nat :: Coef(m, e) == if e == 0 then 0.0 else Coef(p, e - 1) by {
      forall e: nat
        ensures Coef(m, e) == if e == 0 then 0.0 else Coef(p, e - 1)
      {
        if e > 0 && e - 1 in p {
          assert e in keys;
        }
      }
    }
    var r: Polynomial :| forall e: nat :: Coef(r, e) == if e == 0 then 0.0 else Coef(p, e - 1);
    r
  }

  /** (p - p(0)) / x: every exponent lowered by one, the constant term dropped. */
  ghost function Down(p: Polynomial): (r: Polynomial)
    ensures forall e: nat {:trigger Coef(r, e)} :: Coef(r, e) == Coef(p, e + 1)
  {
    var keys := set k | k in p && k > 0 :: k - 1;
    var m: Polynomial := map e | e in keys :: p[e + 1];
    assert forall e: nat :: Coef(m, e) == Coef(p, e + 1) by {
      forall e: nat
        ensures Coef(m, e) == Coef(p, e + 1)
      {
        if e + 1 in p {
          assert e in keys;
        }
      }
    }
    var r: Polynomial :| forall e: nat :: Coef(r, e) == Coef(p, e + 1);
    r
  }

  // ---------------------------------------------------------------------------
  // Addition, negation, subtraction, scaling (polynomial.py:123-157)
  // ---------------------------------------------------------------------------

  /**
   * The value of `p + q`: the polynomial whose coefficient at every exponent is the sum of
   * the two; the comprehension is the witness that it exists.
   */
  ghost function Sum(p: Polynomial, q: Polynomial): (r: Polynomial)
    ensures forall e: nat {:trigger Coef(r, e)} :: Coef(r, e) == Coef(p, e) + Coef(q, e)
  {
    var m: Polynomial := map e | e in p.Keys + q.Keys && Coef(p, e) + Coef(q, e) != 0.0 :: Coef(p, e) + Coef(q, e);
    assert forall e: nat :: Coef(m, e) == Coef(p, e) + Coef(q, e);
    var r: Polynomial :| forall e: nat :: Coef(r, e) == Coef(p, e) + Coef(q, e);
    r
  }

  /** The value of `-p` (polynomial.py:138-139): every coefficient negated. */
  ghost function Neg(p: Polynomial): (r: Polynomial)
    ensures forall e: nat {:trigger Coef(r, e)} :: Coef(r, e) == -Coef(p, e)
  {
    var m: Polynomial := map e | e in p :: -p[e];
    assert forall e: nat :: Coef(m, e) == -Coef(p, e);
    var r: Polynomial :| forall e: nat :: Coef(r, e) == -Coef(p, e);
    r
  }

  /** The value of `p - q` (polynomial.py:141-146): `p + (-q)`. */
  ghost function Sub(p: Polynomial, q: Polynomial): (r: Polynomial)
    ensures forall e: nat {:trigger Coef(r, e)} :: Coef(r, e) == Coef(p, e) - Coef(q, e)
  {
    Sum(p, Neg(q))
  }

  /** The value of `p * c` for a scalar c (polynomial.py:155-157): every coefficient times c. */
  ghost function Scale(p: Polynomial, c: real): (r: Polynomial)
    ensures forall e: nat {:trigger Coef(r, e)} :: Coef(r, e) == Coef(p, e) * c
  {
    var m: Polynomial := map e | e in p && p[e] * c != 0.0 :: p[e] * c;
    assert forall e: nat :: Coef(m, e) == Coef(p, e) * c;
    var r: Polynomial :| forall e: nat :: Coef(r, e) == Coef(p, e) * c;
    r
  }

  /** `__add__` (polynomial.py:123-133): copy p's terms, then add q's term by term. */
  method Add(p: Polynomial, q: Polynomial) returns (r: Polynomial)
    ensures r == Sum(p, q)
  {
    var resultTerms: map<nat, real> := p;
    var rest := q.Keys;
    while rest != {}
      invariant rest <= q.Keys
      invariant forall e: nat :: Coef(resultTerms, e) == Coef(p, e) + (if e in rest then 0.0 else Coef(q, e))
      decreases rest
    {
      var e :| e in rest;
      resultTerms := resultTerms[e := Coef(resultTerms, e) + q[e]];
      rest := rest - {e};
    }
    r := New(resultTerms);
    Ext(r, Sum(p, q));
  }

  /** `__neg__` (polynomial.py:138-139) */
  method Negate(p: Polynomial) returns (r: Polynomial)
    ensures r == Neg(p)
  {
    r := New(map e | e in p :: -p[e]);
    Ext(r, Neg(p));
  }

  /** `__sub__` (polynomial.py:141-146) */
  method Subtract(p: Polynomial, q: Polynomial) returns (r: Polynomial)
    ensures r == Sub(p, q)
  {
    var n := Negate(q);
    r := Add(p, n);
  }

  /** `__mul__` by an int or Fraction (polynomial.py:155-157) */
  method ScalarMul(p: Polynomial, c: real) returns (r: Polynomial)
    ensures r == Scale(p, c)
  {
    r := New(map e | e in p :: p[e] * c);
    Ext(r, Scale(p, c));
  }

  // ---------------------------------------------------------------------------
  // Laws of addition and scaling
  // ---------------------------------------------------------------------------

  lemma SumComm(p: Polynomial, q: Polynomial)
    ensures Sum(p, q) == Sum(q, p)
  {
    Ext(Sum(p, q), Sum(q, p));
  }

  lemma SumAssoc(p: Polynomial, q: Polynomial, r: Polynomial)
    ensures Sum(Sum(p, q), r) == Sum(p, Sum(q, r))
  {
    Ext(Sum(Sum(p, q), r), Sum(p, Sum(q, r)));
  }

  /** The zero polynomial is neutral for `+`. */
  lemma SumZero(p: Polynomial)
    ensures Sum(p, map[]) == p && Sum(map[], p) == p
  {
    Ext(Sum(p, map[]), p);
    Ext(Sum(map[], p), p);
  }

  /** `p + (-p)` is the zero polynomial (polynomial.py:138-146). */
  lemma SumNeg(p: Polynomial)
    ensures Sum(p, Neg(p)) == map[]
    ensures Sub(p, p) == map[]
  {
    Ext(Sum(p, Neg(p)), map[]);
  }

  /** Subtracting gives zero exactly for equal polynomials. */
  lemma SubZeroIff(p: Polynomial, q: Polynomial)
    ensures Sub(p, q) == map[] <==> p == q
  {
    if Sub(p, q) == map[] {
      forall e: nat
        ensures Coef(p, e) == Coef(q, e)
      {
        assert Coef(Sub(p, q), e) == 0.0;
      }
      Ext(p, q);
    } else if p == q {
      SumNeg(p);
    }
  }

  /** `p - q + q == p` */
  lemma SubAddBack(p: Polynomial, q: Polynomial)
    ensures Sum(Sub(p, q), q) == p
  {
    Ext(Sum(Sub(p, q), q), p);
  }

  lemma ScaleOne(p: Polynomial)
    ensures Scale(p, 1.0) == p
  {
    Ext(Scale(p, 1.0), p);
  }

  lemma ScaleZero(p: Polynomial)
    ensures Scale(p, 0.0) == map[]
  {
    Ext(Scale(p, 0.0), map[]);
  }

  lemma ScaleOfZero(c: real)
    ensures Scale(map[], c) == map[]
  {
    Ext(Scale(map[], c), map[]);
  }

  lemma ScaleScaleAt(p: Polynomial, a: real, b: real, e: nat)
    ensures Coef(Scale(Scale(p, a), b), e) == Coef(Scale(p, a * b), e)
  {
    assert (Coef(p, e) * a) * b == Coef(p, e) * (a * b);
  }

  lemma ScaleScale(p: Polynomial, a: real, b: real)
    ensures Scale(Scale(p, a), b) == Scale(p, a * b)
  {
    forall e: nat
      ensures Coef(Scale(Scale(p, a), b), e) == Coef(Scale(p, a * b), e)
    {
      ScaleScaleAt(p, a, b, e);
    }
    Ext(Scale(Scale(p, a), b), Scale(p, a * b));
  }

  /** Negation is scaling by -1, `p * -1` in the source (fractional_polynomial.py:61-62). */
  lemma NegIsScale(p: Polynomial)
    ensures Neg(p) == Scale(p, -1.0)
  {
    Ext(Neg(p), Scale(p, -1.0));
  }

  lemma NegNeg(p: Polynomial)
    ensures Neg(Neg(p)) == p
  {
    Ext(Neg(Neg(p)), p);
  }

  lemma ScaleSumAt(p: Polynomial, q: Polynomial, c: real, e: nat)
    ensures Coef(Scale(Sum(p, q), c), e) == Coef(Sum(Scale(p, c), Scale(q, c)), e)
  {
    assert (Coef(p, e) + Coef(q, e)) * c == Coef(p, e) * c + Coef(q, e) * c;
  }

  lemma ScaleSum(p: Polynomial, q: Polynomial, c: real)
    ensures Scale(Sum(p, q), c) == Sum(Scale(p, c), Scale(q, c))
  {
    forall e: nat
      ensures Coef(Scale(Sum(p, q), c), e) == Coef(Sum(Scale(p, c), Scale(q, c)), e)
    {
      ScaleSumAt(p, q, c, e);
    }
    Ext(Scale(Sum(p, q), c), Sum(Scale(p, c), Scale(q, c)));
  }

  /** Scaling by a non-zero scalar keeps the exponents and the degree, and scales the lead. */
  lemma ScaleNonZero(p: Polynomial, c: real)
    requires c != 0.0
    ensures Scale(p, c).Keys == p.Keys
    ensures Degree(Scale(p, c)) == Degree(p)
    ensures Lead(Scale(p, c)) == Lead(p) * c
    ensures Scale(p, c) == map[] <==> p == map[]
  {
    var s := Scale(p, c);
    forall e: nat
      ensures e in s <==> e in p
    {
      assert Coef(s, e) == Coef(p, e) * c;
    }
    if p != map[] {
      DegreeIs(s, Degree(p));
    } else {
      Ext(s, map[]);
    }
  }

  /** Scaling by 1/c undoes scaling by c. */
  lemma ScaleInverse(p: Polynomial, c: real)
    requires c != 0.0
    ensures Scale(Scale(p, c), 1.0 / c) == p
  {
    var k := 1.0 / c;
    ScaleScale(p, c, k);
    assert c * k == 1.0;
    assert Scale(p, c * k) == Scale(p, 1.0);
    ScaleOne(p);
  }

  // ---------------------------------------------------------------------------
  // Shift and Down: the decomposition behind every inductive proof
  // ---------------------------------------------------------------------------

  lemma ShiftZero()
    ensures Shift(map[]) == map[]
  {
    Ext(Shift(map[]), map[]);
  }

  lemma DownZero()
    ensures Down(map[]) == map[]
  {
    Ext(Down(map[]), map[]);
  }

  lemma DownShift(p: Polynomial)
    ensures Down(Shift(p)) == p
  {
    Ext(Down(Shift(p)), p);
  }

  lemma DownConst(c: real)
    ensures Down(Const(c)) == map[]
  {
    Ext(Down(Const(c)), map[]);
  }

  lemma DownSmaller(p: Polynomial)
    requires p != map[]
    ensures Size(Down(p)) < Size(p)
  {
    var d := Down(p);
    if d != map[] {
      assert Coef(d, Degree(d)) != 0.0;
      assert Coef(p, Degree(d) + 1) != 0.0;
    }
  }

  lemma SizeDown(p: Polynomial)
    ensures Size(Down(p)) <= Size(p)
  {
    if p != map[] {
      DownSmaller(p);
    } else {
      DownZero();
    }
  }

  /** p == p(0) + x * Down(p) */
  lemma Decompose(p: Polynomial)
    ensures p == Sum(Const(Coef(p, 0)), Shift(Down(p)))
  {
    Ext(p, Sum(Const(Coef(p, 0)), Shift(Down(p))));
  }

  lemma DownSumAt(p: Polynomial, q: Polynomial, e: nat)
    ensures Coef(Down(Sum(p, q)), e) == Coef(Sum(Down(p), Down(q)), e)
  {
    assert Coef(Down(Sum(p, q)), e) == Coef(Sum(p, q), e + 1);
  }

  lemma DownSum(p: Polynomial, q: Polynomial)
    ensures Down(Sum(p, q)) == Sum(Down(p), Down(q))
  {
    forall e: nat
      ensures Coef(Down(Sum(p, q)), e) == Coef(Sum(Down(p), Down(q)), e)
    {
      DownSumAt(p, q, e);
    }
    Ext(Down(Sum(p, q)), Sum(Down(p), Down(q)));
  }

  lemma DownScaleAt(p: Polynomial, c: real, e: nat)
    ensures Coef(Down(Scale(p, c)), e) == Coef(Scale(Down(p), c), e)
  {
    assert Coef(Down(Scale(p, c)), e) == Coef(Scale(p, c), e + 1);
  }

  lemma DownScale(p: Polynomial, c: real)
    ensures Down(Scale(p, c)) == Scale(Down(p), c)
  {
    forall e: nat
      ensures Coef(Down(Scale(p, c)), e) == Coef(Scale(Down(p), c), e)
    {
      DownScaleAt(p, c, e);
    }
    Ext(Down(Scale(p, c)), Scale(Down(p), c));
  }

  lemma ShiftSumAt(p: Polynomial, q: Polynomial, e: nat)
    ensures Coef(Shift(Sum(p, q)), e) == Coef(Sum(Shift(p), Shift(q)), e)
  {
    if e > 0 {
      assert Coef(Shift(Sum(p, q)), e) == Coef(Sum(p, q), e - 1);
    }
  }

  lemma ShiftSum(p: Polynomial, q: Polynomial)
    ensures Shift(Sum(p, q)) == Sum(Shift(p), Shift(q))
  {
    forall e: nat
      ensures Coef(Shift(Sum(p, q)), e) == Coef(Sum(Shift(p), Shift(q)), e)
    {
      ShiftSumAt(p, q, e);
    }
    Ext(Shift(Sum(p, q)), Sum(Shift(p), Shift(q)));
  }

  lemma ShiftScaleAt(p: Polynomial, c: real, e: nat)
    ensures Coef(Shift(Scale(p, c)), e) == Coef(Scale(Shift(p), c), e)
  {
    if e > 0 {
      assert Coef(Shift(Scale(p, c)), e) == Coef(Scale(p, c), e - 1);
    }
  }

  lemma ShiftScale(p: Polynomial, c: real)
    ensures Shift(Scale(p, c)) == Scale(Shift(p), c)
  {
    forall e: nat
      ensures Coef(Shift(Scale(p, c)), e) == Coef(Scale(Shift(p), c), e)
    {
      ShiftScaleAt(p, c, e);
    }
    Ext(Shift(Scale(p, c)), Scale(Shift(p), c));
  }

  /** Once p has degree at least one, Down(p) has degree one less and the same leading coefficient. */
  lemma DownDegree(p: Polynomial)
    requires p != map[]
    ensures Degree(p) == 0 <==> Down(p) == map[]
    ensures Degree(p) >= 1 ==> Degree(Down(p)) == Degree(p) - 1 && Lead(Down(p)) == Lead(p)
  {
    var d := Down(p);
    if Degree(p) >= 1 {
      DegreeIs(d, Degree(p) - 1);
    } else {
      Ext(d, map[]);
    }
  }

  lemma ShiftDegree(p: Polynomial)
    requires p != map[]
    ensures Degree(Shift(p)) == Degree(p) + 1 && Lead(Shift(p)) == Lead(p)
  {
    DegreeIs(Shift(p), Degree(p) + 1);
  }

  /** A sum whose second part strictly dominates in degree has that part's degree and lead. */
  lemma SumDominated(a: Polynomial, b: Polynomial)
    requires b != map[] && Degree(a) < Degree(b)
    ensures Degree(Sum(a, b)) == Degree(b) && Lead(Sum(a, b)) == Lead(b)
  {
    DegreeIs(Sum(a, b), Degree(b));
  }

  /** The degree of a sum is at most the larger degree. */
  lemma SumDegreeBound(a: Polynomial, b: Polynomial, n: int)
    requires Degree(a) <= n && Degree(b) <= n
    ensures Degree(Sum(a, b)) <= n
  {
    if n >= -1 {
      forall e: nat | e >= n + 1
        ensures Coef(Sum(a, b), e) == 0.0
      {
      }
      DegreeBelow(Sum(a, b), n + 1);
    }
  }
}
