/**
 * `FractionalPolynomial.__str__` (fractional_polynomial.py:73-125): a fraction is
 * written as its numerator when the denominator is 1, as "(n) / (d)" when it is
 * proper, and otherwise in mixed form "q + (r) / (d)" or "q - (|r|) / (d)" from the
 * long division of the numerator by the denominator.
 */
module FractionalRendering {
  import opened Results
  import opened Polynomials
  import opened Products
  import opened Division
  import opened Rendering
  import opened Fractional

  /** The text written for a zero denominator (fractional_polynomial.py:79-80): "divisor cannot be zero". */
  const ZeroDenominatorText: string := "\U{9664}\U{6570}\U{4e0d}\U{80fd}\U{4e3a}\U{96f6}"

  /** `denominator.is_constant() and denominator.terms.get(0) == 1` (line 85). */
  predicate IsOne(d: Polynomial) {
    IsConstant(d) && Coef(d, 0) == 1.0
  }

  lemma IsOneIff(d: Polynomial)
    ensures IsOne(d) <==> d == One()
  {
    if IsOne(d) {
      Ext(d, One());
    }
  }

  /** "(n) / (d)", the fraction form of lines 91 and 125. */
  function FractionForm(fmt: real -> string, n: Polynomial, d: Polynomial): string {
    "(" + Render(fmt, n) + ") / (" + Render(fmt, d) + ")"
  }

  /** The mixed form "q + (r) / (d)", or "q - (-r) / (d)" for a remainder with a negative lead (lines 97-118). */
  ghost function MixedForm(fmt: real -> string, q: Polynomial, r: Polynomial, d: Polynomial): string {
    if IsZero(r) then Render(fmt, q)
    else if Lead(r) < 0.0 then Render(fmt, q) + " - " + FractionForm(fmt, Product(r, Const(-1.0)), d)
    else Render(fmt, q) + " + " + FractionForm(fmt, r, d)
  }

  /** The text of a fraction (lines 73-125). */
  ghost function FracText(fmt: real -> string, f: FractionalPolynomial): string {
    var n := f.numerator;
    var d := f.denominator;
    if IsZero(d) then ZeroDenominatorText
    else if IsOne(d) then Render(fmt, n)
    else if Degree(n) < Degree(d) then FractionForm(fmt, n, d)
    else
      DivmodCorrect(n, d);
      var (q, r) := Divmod(n, d).value;
      MixedForm(fmt, q, r, d)
  }

  // ---------------------------------------------------------------------------
  // What the text shows
  // ---------------------------------------------------------------------------

  /** A fraction over 1, such as every polynomial lifted into a fraction, is written as the polynomial. */
  lemma FracTextOverOne(fmt: real -> string, n: Polynomial)
    ensures FracText(fmt, FractionalPolynomial(n, One())) == Render(fmt, n)
  {
    IsOneIff(One());
  }

  /**
   * An improper fraction whose denominator divides its numerator is written as the
   * exact quotient: the q with q * d == n.
   */
  lemma FracTextExact(fmt: real -> string, n: Polynomial, d: Polynomial, q: Polynomial)
    requires d != Zero && !IsOne(d) && Degree(n) >= Degree(d)
    requires Product(q, d) == n
    ensures FracText(fmt, FractionalPolynomial(n, d)) == Render(fmt, q)
  {
    DivmodOfMultiple(q, d);
  }

  /**
   * An improper fraction with a non-zero remainder is written "q ± (s) / (d)" where
   * n == q * d ± s: q and the remainder are the unique ones of long division, and the
   * numerator s shown is the remainder with its sign moved out, so it never starts with '-'.
   */
  lemma FracTextMixed(fmt: real -> string, n: Polynomial, d: Polynomial, q: Polynomial, r: Polynomial)
    requires ValidFormatter(fmt)
    requires d != Zero && !IsOne(d) && Degree(n) >= Degree(d)
    requires IsDivision(n, d, q, r) && r != Zero
    ensures Lead(r) < 0.0 ==>
      && FracText(fmt, FractionalPolynomial(n, d)) == Render(fmt, q) + " - " + FractionForm(fmt, Neg(r), d)
      && Render(fmt, Neg(r))[0] != '-'
      && Sub(Product(q, d), Neg(r)) == n
    ensures Lead(r) > 0.0 ==>
      && FracText(fmt, FractionalPolynomial(n, d)) == Render(fmt, q) + " + " + FractionForm(fmt, r, d)
      && Render(fmt, r)[0] != '-'
      && Sum(Product(q, d), r) == n
  {
    DivmodIff(n, d, q, r);
    ProductConstRight(r, -1.0);
    NegIsScale(r);
    RenderSign(fmt, r);
    if Lead(r) < 0.0 {
      ScaleNonZero(r, -1.0);
      assert Lead(Neg(r)) == -Lead(r);
      RenderSign(fmt, Neg(r));
      Ext(Sub(Product(q, d), Neg(r)), n);
    }
  }

  /** A proper fraction is written as "(n) / (d)". */
  lemma FracTextProper(fmt: real -> string, n: Polynomial, d: Polynomial)
    requires d != Zero && !IsOne(d) && Degree(n) < Degree(d)
    ensures FracText(fmt, FractionalPolynomial(n, d)) == FractionForm(fmt, n, d)
  {
  }

  // ---------------------------------------------------------------------------
  // __str__
  // ---------------------------------------------------------------------------

  /**
   * `FractionalPolynomial.__str__` (fractional_polynomial.py:73-125). The division never
   * fails for a non-zero denominator, so the fallback of lines 121-125 is not reached,
   * and the remainder is non-zero where its lead is read (lines 106-110).
   */
  method FracToString(fmt: real -> string, f: FractionalPolynomial) returns (s: string)
    ensures s == FracText(fmt, f)
  {
    var numerator := f.numerator;
    var denominator := f.denominator;
    if IsZero(denominator) {
      return ZeroDenominatorText;
    }
    if IsConstant(denominator) && Coef(denominator, 0) == 1.0 {
      s := ToString(fmt, numerator);
      return;
    }
    if Degree(numerator) < Degree(denominator) {
      var n := ToString(fmt, numerator);
      var d := ToString(fmt, denominator);
      return "(" + n + ") / (" + d + ")";
    }
    var res := DivmodPolynomial(numerator, denominator);
    assert res.Ok?;
    var (quotient, remainder) := res.value;
    if IsZero(remainder) {
      s := ToString(fmt, quotient);
      return;
    }
    var quotientStr := ToString(fmt, quotient);
    var highestDegree := MaxKey(remainder);
    var leadingCoefficient := remainder[highestDegree];
    var denominatorStr := ToString(fmt, denominator);
    if leadingCoefficient < 0.0 {
      var absRemainder := Products.Mul(remainder, Const(-1.0));
      var absStr := ToString(fmt, absRemainder);
      s := quotientStr + " - " + ("(" + absStr + ") / (" + denominatorStr + ")");
    } else {
      var remainderStr := ToString(fmt, remainder);
      s := quotientStr + " + " + ("(" + remainderStr + ") / (" + denominatorStr + ")");
    }
  }
}
