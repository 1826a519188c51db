/**
 * `FractionalPolynomial` (fractional_polynomial.py): a numerator and a denominator
 * polynomial, normalised at construction, and the four cross-multiplication operators.
 */
module Fractional {
  import opened Results
  import opened Polynomials
  import opened Products
  import opened Division
  import opened PolynomialMath

  /** A stored fraction: the two fields of a constructed `FractionalPolynomial`. */
  datatype FractionalPolynomial = FractionalPolynomial(numerator: Polynomial, denominator: Polynomial)

  // ---------------------------------------------------------------------------
  // Equality of values: n1 / d1 == n2 / d2 as rational functions
  // ---------------------------------------------------------------------------

  /** n1 / d1 and n2 / d2 denote the same rational function: n1 * d2 == n2 * d1. */
  ghost predicate SameValue(n1: Polynomial, d1: Polynomial, n2: Polynomial, d2: Polynomial) {
    Product(n1, d2) == Product(n2, d1)
  }

  /** A non-zero factor can be cancelled from both sides of a product equation. */
  lemma ProductCancel(a: Polynomial, b: Polynomial, c: Polynomial)
    requires c != Zero && Product(a, c) == Product(b, c)
    ensures a == b
  {
    ProductSubLeft(a, b, c);
    SubZeroIff(Product(a, c), Product(b, c));
    ProductZeroIff(Sub(a, b), c);
    SubZeroIff(a, b);
  }

  /** Regrouping (a * b) * c as (a * c) * b. */
  lemma ProductSwapRight(a: Polynomial, b: Polynomial, c: Polynomial)
    ensures Product(Product(a, b), c) == Product(Product(a, c), b)
  {
    ProductAssoc(a, b, c);
    ProductComm(b, c);
    ProductAssoc(a, c, b);
  }

  lemma SameValueSymm(n1: Polynomial, d1: Polynomial, n2: Polynomial, d2: Polynomial)
    requires SameValue(n1, d1, n2, d2)
    ensures SameValue(n2, d2, n1, d1)
  {
  }

  /** Equality of values is transitive through a fraction with a non-zero denominator. */
  lemma SameValueTrans(n1: Polynomial, d1: Polynomial, n2: Polynomial, d2: Polynomial, n3: Polynomial, d3: Polynomial)
    requires d2 != Zero
    requires SameValue(n1, d1, n2, d2) && SameValue(n2, d2, n3, d3)
    ensures SameValue(n1, d1, n3, d3)
  {
    // (n1 * d3) * d2 == (n1 * d2) * d3 == (n2 * d1) * d3 == (n2 * d3) * d1 == (n3 * d2) * d1 == (n3 * d1) * d2
    ProductSwapRight(n1, d3, d2);
    ProductSwapRight(n2, d1, d3);
    ProductSwapRight(n3, d2, d1);
    ProductCancel(Product(n1, d3), Product(n3, d1), d2);
  }

  /** Dividing numerator and denominator by a common factor keeps the value. */
  lemma SameValueCancel(kn: Polynomial, kd: Polynomial, g: Polynomial)
    ensures SameValue(kn, kd, Product(kn, g), Product(kd, g))
  {
    ProductAssoc(kn, kd, g);
    ProductSwapRight(kn, g, kd);
  }

  /** Scaling numerator and denominator by the same constant keeps the value. */
  lemma SameValueScale(a: Polynomial, b: Polynomial, s: real)
    ensures SameValue(Scale(a, s), Scale(b, s), a, b)
  {
    ProductScaleLeft(a, s, b);
    ProductScaleRight(a, b, s);
  }

  /** Folding a constant denominator c into the numerator keeps the value. */
  lemma SameValueFold(a: Polynomial, c: real)
    requires c != 0.0
    ensures SameValue(Scale(a, 1.0 / c), One(), a, Const(c))
  {
    var k := 1.0 / c;
    ProductConstRight(Scale(a, k), c);
    ScaleScale(a, k, c);
    assert k * c == 1.0;
    assert Scale(a, k * c) == Scale(a, 1.0);
    ScaleOne(a);
    ProductOne(a);
  }

  /** A non-zero polynomial of degree 0 is the constant of its leading coefficient. */
  lemma ConstantIsConst(d: Polynomial)
    requires d != Zero && IsConstant(d)
    ensures d == Const(Lead(d)) && Lead(d) != 0.0
  {
    Ext(d, Const(Lead(d)));
  }

  // ---------------------------------------------------------------------------
  // _simplify (fractional_polynomial.py:30-71)
  // ---------------------------------------------------------------------------

  /**
   * Lines 41-57: unless the gcd is the constant 1, divide both parts by it. A non-zero
   * gcd divides both exactly, so the try/except and the remainder warning never act.
   */
  ghost function Reduce(n: Polynomial, d: Polynomial): (Polynomial, Polynomial)
    requires n != Zero
  {
    var g := Gcd(n, d);
    if !(IsConstant(g) && Coef(g, 0) == 1.0) then
      GcdMonic(n, d);
      (Divmod(n, g).value.0, Divmod(d, g).value.0)
    else
      (n, d)
  }

  /**
   * Lines 59-71: a denominator with a negative lead is negated together with the
   * numerator; otherwise (the `elif`) a constant denominator other than 1 is divided
   * into the numerator and replaced by 1.
   */
  ghost function FixSign(n: Polynomial, d: Polynomial): FractionalPolynomial {
    if d != Zero then
      if Lead(d) < 0.0 then FractionalPolynomial(Scale(n, -1.0), Scale(d, -1.0))
      else if IsConstant(d) && Lead(d) != 1.0 then FractionalPolynomial(Scale(n, 1.0 / Lead(d)), One())
      else FractionalPolynomial(n, d)
    else
      FractionalPolynomial(n, d)
  }

  /** `_simplify`: a zero numerator gives 0 / 1; otherwise reduce, then fix the sign. */
  ghost function Simplify(n: Polynomial, d: Polynomial): FractionalPolynomial {
    if IsZero(n) then FractionalPolynomial(Zero, One())
    else
      var (n1, d1) := Reduce(n, d);
      FixSign(n1, d1)
  }

  /** `FractionalPolynomial(n, d)` (lines 8-28): a zero denominator is a ValueError. */
  ghost function Make(n: Polynomial, d: Polynomial): Result<FractionalPolynomial> {
    if IsZero(d) then Err(ValueError) else Ok(Simplify(n, d))
  }

  /** The normal form every constructed fraction is in. */
  ghost predicate Normal(f: FractionalPolynomial) {
    && f.denominator != Zero
    && Lead(f.denominator) > 0.0
    && Gcd(f.numerator, f.denominator) == One()
    && (f.numerator == Zero ==> f.denominator == One())
  }

  /** The reduced pair: the gcd times each part gives back the input. */
  lemma ReduceFactors(n: Polynomial, d: Polynomial)
    requires n != Zero
    ensures Product(Reduce(n, d).0, Gcd(n, d)) == n
    ensures Product(Reduce(n, d).1, Gcd(n, d)) == d
    ensures Gcd(n, d) != Zero
  {
    var g := Gcd(n, d);
    GcdMonic(n, d);
    if !(IsConstant(g) && Coef(g, 0) == 1.0) {
      GcdDividesExactly(n, d);
      DivmodCorrect(n, g);
      DivmodCorrect(d, g);
      SumZero(Product(Reduce(n, d).0, g));
      SumZero(Product(Reduce(n, d).1, g));
    } else {
      MonicConstantIsOne(g);
      ProductOne(n);
      ProductOne(d);
    }
  }

  /** A common divisor h of the reduced parts, times the gcd, divides both inputs. */
  lemma DividesTimes(h: Polynomial, k: Polynomial, g: Polynomial)
    requires Divides(h, k)
    ensures Divides(Product(h, g), Product(k, g))
  {
    var m :| Product(m, h) == k;
    ProductAssoc(m, h, g);
    assert Product(m, Product(h, g)) == Product(k, g);
  }

  /** After dividing by the gcd, the parts have gcd 1. */
  lemma ReduceCoprime(n: Polynomial, d: Polynomial)
    requires n != Zero
    ensures Gcd(Reduce(n, d).0, Reduce(n, d).1) == One()
  {
    var g := Gcd(n, d);
    var (kn, kd) := Reduce(n, d);
    ReduceFactors(n, d);
    var h := Gcd(kn, kd);
    ProductZero(g);
    GcdMonic(kn, kd);
    GcdDivides(kn, kd);
    DividesTimes(h, kn, g);
    DividesTimes(h, kd, g);
    GcdGreatest(n, d, Product(h, g));
    DividesDegree(Product(h, g), g);
    ProductDegree(h, g);
    MonicConstantIsOne(h);
  }

  /** Scaling the parts by non-zero constants keeps the gcd. */
  lemma GcdScale(a: Polynomial, b: Polynomial, s: real, t: real)
    requires s != 0.0 && t != 0.0
    ensures Gcd(Scale(a, s), Scale(b, t)) == Gcd(a, b)
  {
    var g1 := Gcd(Scale(a, s), Scale(b, t));
    var g2 := Gcd(a, b);
    ScaleNonZero(a, s);
    ScaleNonZero(b, t);
    GcdMonic(Scale(a, s), Scale(b, t));
    GcdMonic(a, b);
    if g2 != Zero {
      ScaleAssociate(a, s);
      ScaleAssociate(b, t);
      GcdDivides(a, b);
      GcdDivides(Scale(a, s), Scale(b, t));
      DividesTrans(g2, a, Scale(a, s));
      DividesTrans(g2, b, Scale(b, t));
      DividesTrans(g1, Scale(a, s), a);
      DividesTrans(g1, Scale(b, t), b);
      GcdGreatest(Scale(a, s), Scale(b, t), g2);
      GcdGreatest(a, b, g1);
      MonicAssociatesEqual(g1, g2);
    }
  }

  /** Dividing by the gcd leaves both parts non-zero. */
  lemma ReduceNonZero(n: Polynomial, d: Polynomial)
    requires n != Zero && d != Zero
    ensures Reduce(n, d).0 != Zero && Reduce(n, d).1 != Zero
  {
    ReduceFactors(n, d);
    ProductZero(Gcd(n, d));
  }

  /** Construction preserves the value: stored n' * d == n * stored d'. */
  lemma SimplifyValue(n: Polynomial, d: Polynomial)
    requires d != Zero
    ensures SameValue(Simplify(n, d).numerator, Simplify(n, d).denominator, n, d)
  {
    if n == Zero {
      ProductZero(d);
      ProductZero(One());
    } else {
      var (n1, d1) := Reduce(n, d);
      ReduceFactors(n, d);
      ReduceNonZero(n, d);
      SameValueCancel(n1, d1, Gcd(n, d));
      var f := FixSign(n1, d1);
      if Lead(d1) < 0.0 {
        SameValueScale(n1, d1, -1.0);
      } else if IsConstant(d1) && Lead(d1) != 1.0 {
        ConstantIsConst(d1);
        SameValueFold(n1, Lead(d1));
      } else {
        ProductComm(n1, d1);
      }
      SameValueTrans(f.numerator, f.denominator, n1, d1, n, d);
    }
  }

  /** The sign step keeps a coprime pair coprime and makes the denominator's lead positive. */
  lemma FixSignNormal(n1: Polynomial, d1: Polynomial)
    requires n1 != Zero && d1 != Zero && Gcd(n1, d1) == One()
    ensures Normal(FixSign(n1, d1))
  {
    if Lead(d1) < 0.0 {
      ScaleNonZero(n1, -1.0);
      ScaleNonZero(d1, -1.0);
      GcdScale(n1, d1, -1.0, -1.0);
    } else if IsConstant(d1) && Lead(d1) != 1.0 {
      ScaleNonZero(n1, 1.0 / Lead(d1));
      GcdOfConstant(Scale(n1, 1.0 / Lead(d1)), One());
    }
  }

  /** Construction yields the normal form: positive denominator lead, gcd 1, and 0 / 1 for zero. */
  lemma SimplifyNormal(n: Polynomial, d: Polynomial)
    requires d != Zero
    ensures Normal(Simplify(n, d))
  {
    if n == Zero {
      GcdOfConstant(One(), Zero);
      GcdComm(One(), Zero);
    } else {
      ReduceNonZero(n, d);
      ReduceCoprime(n, d);
      FixSignNormal(Reduce(n, d).0, Reduce(n, d).1);
    }
  }

  /** A zero numerator normalises to 0 / 1. */
  lemma SimplifyZero(d: Polynomial)
    ensures Simplify(Zero, d) == FractionalPolynomial(Zero, One())
  {
  }

  /** By a non-zero constant denominator the reduction step does nothing. */
  lemma ReduceByConstant(n: Polynomial, d: Polynomial)
    requires n != Zero && d != Zero && IsConstant(d)
    ensures Reduce(n, d) == (n, d)
  {
    GcdOfConstant(n, d);
  }

  /** A positive constant denominator c is folded into the numerator: n / c over 1. */
  lemma SimplifyPositiveConstant(n: Polynomial, d: Polynomial)
    requires d != Zero && IsConstant(d) && Lead(d) > 0.0
    ensures Simplify(n, d) == FractionalPolynomial(Scale(n, 1.0 / Lead(d)), One())
  {
    if n == Zero {
      ScaleOfZero(1.0 / Lead(d));
    } else {
      ReduceByConstant(n, d);
      if Lead(d) == 1.0 {
        ConstantIsConst(d);
        ScaleOne(n);
        Ext(d, One());
      }
    }
  }

  /**
   * A negative constant denominator is only negated, because of the `elif` at line 65:
   * n / c with c < 0 is stored as (-n) / (-c), not folded.
   */
  lemma SimplifyNegativeConstant(n: Polynomial, d: Polynomial)
    requires n != Zero && d != Zero && IsConstant(d) && Lead(d) < 0.0
    ensures Simplify(n, d) == FractionalPolynomial(Scale(n, -1.0), Scale(d, -1.0))
  {
    ReduceByConstant(n, d);
  }

  /** The constant c as a polynomial: non-zero, constant, with lead c. */
  lemma ConstFacts(c: real)
    requires c != 0.0
    ensures Const(c) != Zero && IsConstant(Const(c)) && Lead(Const(c)) == c
  {
    DegreeIs(Const(c), 0);
  }

  /** x / -2 is stored as (-x) / 2. */
  lemma SimplifyMinusTwo()
    ensures Simplify(Mono(1, 1.0), Const(-2.0)) == FractionalPolynomial(Mono(1, -1.0), Const(2.0))
  {
    var x := Mono(1, 1.0);
    assert Coef(x, 1) == 1.0;
    ConstFacts(-2.0);
    SimplifyNegativeConstant(x, Const(-2.0));
    Ext(Scale(x, -1.0), Mono(1, -1.0));
    Ext(Scale(Const(-2.0), -1.0), Const(2.0));
  }

  /** (-x) / 2 is stored as (-1/2 x) / 1. */
  lemma SimplifyOverTwo()
    ensures Simplify(Mono(1, -1.0), Const(2.0)) == FractionalPolynomial(Mono(1, -0.5), One())
  {
    ConstFacts(2.0);
    SimplifyPositiveConstant(Mono(1, -1.0), Const(2.0));
    assert 1.0 / Lead(Const(2.0)) == 0.5;
    Ext(Scale(Mono(1, -1.0), 0.5), Mono(1, -0.5));
  }

  /** Consequently normalisation is not idempotent: x / -2 becomes (-x) / 2, which becomes (-1/2 x) / 1. */
  lemma SimplifyNotIdempotent()
    ensures Simplify(Mono(1, 1.0), Const(-2.0)) == FractionalPolynomial(Mono(1, -1.0), Const(2.0))
    ensures Simplify(Mono(1, -1.0), Const(2.0)) == FractionalPolynomial(Mono(1, -0.5), One())
    ensures Simplify(Mono(1, -1.0), Const(2.0)) != FractionalPolynomial(Mono(1, -1.0), Const(2.0))
  {
    SimplifyMinusTwo();
    SimplifyOverTwo();
    assert Coef(One(), 0) != Coef(Const(2.0), 0);
  }

  // ---------------------------------------------------------------------------
  // Construction as the source performs it
  // ---------------------------------------------------------------------------

  /** Lines 41-57 of `_simplify`: divide both parts by their gcd unless it is the constant 1. */
  method ReduceParts(numerator: Polynomial, denominator: Polynomial) returns (num: Polynomial, den: Polynomial)
    requires numerator != Zero
    ensures (num, den) == Reduce(numerator, denominator)
  {
    num := numerator;
    den := denominator;
    var gcd := PolynomialGcd(num, den);
    if !(IsConstant(gcd) && Coef(gcd, 0) == 1.0) {
      GcdMonic(num, den);
      var dividedNum := DivmodPolynomial(num, gcd);
      var dividedDen := DivmodPolynomial(den, gcd);
      num := dividedNum.value.0;
      den := dividedDen.value.0;
    }
  }

  /** Lines 59-71 of `_simplify`: make the denominator's lead positive, or fold a constant one. */
  method FixSignParts(numerator: Polynomial, denominator: Polynomial) returns (f: FractionalPolynomial)
    ensures f == FixSign(numerator, denominator)
  {
    var num := numerator;
    var den := denominator;
    if den != Zero {
      var (_, leadingCoeff) := LeadingTerm(den);
      if leadingCoeff < 0.0 {
        num := ScalarMul(num, -1.0);
        den := ScalarMul(den, -1.0);
      } else if IsConstant(den) && leadingCoeff != 1.0 {
        var constantFactor := leadingCoeff;
        var folded := Polynomials.New(map e | e in num :: num[e] / constantFactor);
        Ext(folded, Scale(num, 1.0 / constantFactor));
        num := folded;
        den := One();
      }
    }
    f := FractionalPolynomial(num, den);
  }

  /** `_simplify` (lines 30-71) */
  method SimplifyParts(numerator: Polynomial, denominator: Polynomial) returns (f: FractionalPolynomial)
    ensures f == Simplify(numerator, denominator)
  {
    if IsZero(numerator) {
      return FractionalPolynomial(Zero, One());
    }
    var num, den := ReduceParts(numerator, denominator);
    f := FixSignParts(num, den);
  }

  /**
   * `FractionalPolynomial(numerator, denominator)`: `__init__` (lines 8-28) rejects a zero
   * denominator, then `_simplify` normalises.
   */
  method New(numerator: Polynomial, denominator: Polynomial) returns (r: Result<FractionalPolynomial>)
    ensures r == Make(numerator, denominator)
    ensures r.Err? <==> denominator == Zero
    ensures r.Ok? ==> Normal(r.value)
    ensures r.Ok? ==> SameValue(r.value.numerator, r.value.denominator, numerator, denominator)
  {
    if IsZero(denominator) {
      return Err(ValueError);
    }
    SimplifyNormal(numerator, denominator);
    SimplifyValue(numerator, denominator);
    var f := SimplifyParts(numerator, denominator);
    r := Ok(f);
  }

  // ---------------------------------------------------------------------------
  // Arithmetic (fractional_polynomial.py:130-204)
  // ---------------------------------------------------------------------------

  /** `_to_polynomial` then `FractionalPolynomial(p, Polynomial({0: 1}))`: a polynomial over 1. */
  ghost function Lift(p: Polynomial): Result<FractionalPolynomial> {
    Make(p, One())
  }

  /** `__add__`: (an * bd + bn * ad) / (ad * bd). */
  ghost function FracAdd(a: FractionalPolynomial, b: FractionalPolynomial): Result<FractionalPolynomial> {
    Make(Sum(Product(a.numerator, b.denominator), Product(b.numerator, a.denominator)),
         Product(a.denominator, b.denominator))
  }

  /** `__sub__`: (an * bd - bn * ad) / (ad * bd). */
  ghost function FracSub(a: FractionalPolynomial, b: FractionalPolynomial): Result<FractionalPolynomial> {
    Make(Sub(Product(a.numerator, b.denominator), Product(b.numerator, a.denominator)),
         Product(a.denominator, b.denominator))
  }

  /** `__mul__`: (an * bn) / (ad * bd). */
  ghost function FracMul(a: FractionalPolynomial, b: FractionalPolynomial): Result<FractionalPolynomial> {
    Make(Product(a.numerator, b.numerator), Product(a.denominator, b.denominator))
  }

  /** `__truediv__`: a zero divisor numerator is a ValueError; else (an * bd) / (ad * bn). */
  ghost function FracDiv(a: FractionalPolynomial, b: FractionalPolynomial): Result<FractionalPolynomial> {
    if b.numerator == Zero then Err(ValueError)
    else Make(Product(a.numerator, b.denominator), Product(a.denominator, b.numerator))
  }

  /** A polynomial lifts to itself over 1. */
  lemma LiftIsOverOne(p: Polynomial)
    ensures Lift(p) == Ok(FractionalPolynomial(p, One()))
  {
    if p != Zero {
      ReduceByConstant(p, One());
    }
  }

  /** On normal operands the four operators succeed (division: iff the divisor is non-zero) and give normal results. */
  lemma OperatorsTotal(a: FractionalPolynomial, b: FractionalPolynomial)
    requires Normal(a) && Normal(b)
    ensures FracAdd(a, b).Ok? && Normal(FracAdd(a, b).value)
    ensures FracSub(a, b).Ok? && Normal(FracSub(a, b).value)
    ensures FracMul(a, b).Ok? && Normal(FracMul(a, b).value)
    ensures FracDiv(a, b).Ok? <==> b.numerator != Zero
    ensures FracDiv(a, b).Ok? ==> Normal(FracDiv(a, b).value)
  {
    var dd := Product(a.denominator, b.denominator);
    ProductZeroIff(a.denominator, b.denominator);
    SimplifyNormal(Sum(Product(a.numerator, b.denominator), Product(b.numerator, a.denominator)), dd);
    SimplifyNormal(Sub(Product(a.numerator, b.denominator), Product(b.numerator, a.denominator)), dd);
    SimplifyNormal(Product(a.numerator, b.numerator), dd);
    if b.numerator != Zero {
      ProductZeroIff(a.denominator, b.numerator);
      SimplifyNormal(Product(a.numerator, b.denominator), Product(a.denominator, b.numerator));
    }
  }

  /** Addition and multiplication do not depend on the order of the operands. */
  lemma AddMulComm(a: FractionalPolynomial, b: FractionalPolynomial)
    ensures FracAdd(a, b) == FracAdd(b, a)
    ensures FracMul(a, b) == FracMul(b, a)
  {
    SumComm(Product(a.numerator, b.denominator), Product(b.numerator, a.denominator));
    ProductComm(a.denominator, b.denominator);
    ProductComm(a.numerator, b.numerator);
  }

  /** The sum of two fractions has the value an/ad + bn/bd. */
  lemma AddValue(a: FractionalPolynomial, b: FractionalPolynomial)
    requires a.denominator != Zero && b.denominator != Zero
    ensures FracAdd(a, b).Ok?
    ensures SameValue(FracAdd(a, b).value.numerator, FracAdd(a, b).value.denominator,
                      Sum(Product(a.numerator, b.denominator), Product(b.numerator, a.denominator)),
                      Product(a.denominator, b.denominator))
  {
    ProductZeroIff(a.denominator, b.denominator);
    SimplifyValue(Sum(Product(a.numerator, b.denominator), Product(b.numerator, a.denominator)),
                  Product(a.denominator, b.denominator));
  }

  /** The product of two fractions has the value (an * bn) / (ad * bd). */
  lemma MulValue(a: FractionalPolynomial, b: FractionalPolynomial)
    requires a.denominator != Zero && b.denominator != Zero
    ensures FracMul(a, b).Ok?
    ensures SameValue(FracMul(a, b).value.numerator, FracMul(a, b).value.denominator,
                      Product(a.numerator, b.numerator), Product(a.denominator, b.denominator))
  {
    ProductZeroIff(a.denominator, b.denominator);
    SimplifyValue(Product(a.numerator, b.numerator), Product(a.denominator, b.denominator));
  }

  // ---------------------------------------------------------------------------
  // The operators respect equal values
  // ---------------------------------------------------------------------------

  /** Regrouping (a * b) * (c * d) as (a * c) * (b * d). */
  lemma ProductSwapMiddle(a: Polynomial, b: Polynomial, c: Polynomial, d: Polynomial)
    ensures Product(Product(a, b), Product(c, d)) == Product(Product(a, c), Product(b, d))
  {
    ProductAssoc(a, b, Product(c, d));
    ProductAssoc(b, c, d);
    ProductComm(b, c);
    ProductAssoc(c, b, d);
    ProductAssoc(a, c, Product(b, d));
  }

  /** With a ~ l and b ~ r, the cross terms agree: (an * bd) * (ld * rd) == (ln * rd) * (ad * bd). */
  lemma CrossTerms(an: Polynomial, ad: Polynomial, bn: Polynomial, bd: Polynomial,
                   ln: Polynomial, ld: Polynomial, rn: Polynomial, rd: Polynomial)
    requires SameValue(an, ad, ln, ld) && SameValue(bn, bd, rn, rd)
    ensures Product(Product(an, bd), Product(ld, rd)) == Product(Product(ln, rd), Product(ad, bd))
    ensures Product(Product(bn, ad), Product(ld, rd)) == Product(Product(rn, ld), Product(ad, bd))
  {
    ProductSwapMiddle(an, bd, ld, rd);
    ProductSwapMiddle(ln, rd, ad, bd);
    ProductComm(rd, bd);
    ProductComm(ld, rd);
    ProductSwapMiddle(bn, ad, rd, ld);
    ProductComm(bd, ad);
    ProductSwapMiddle(rn, ld, bd, ad);
    ProductComm(ad, ld);
  }

  /** Cross-multiplied sums of equal values have equal values. */
  lemma SumRespectsValue(an: Polynomial, ad: Polynomial, bn: Polynomial, bd: Polynomial,
                         ln: Polynomial, ld: Polynomial, rn: Polynomial, rd: Polynomial)
    requires SameValue(an, ad, ln, ld) && SameValue(bn, bd, rn, rd)
    ensures SameValue(Sum(Product(an, bd), Product(bn, ad)), Product(ad, bd),
                      Sum(Product(ln, rd), Product(rn, ld)), Product(ld, rd))
  {
    CrossTerms(an, ad, bn, bd, ln, ld, rn, rd);
    ProductSumLeft(Product(an, bd), Product(bn, ad), Product(ld, rd));
    ProductSumLeft(Product(ln, rd), Product(rn, ld), Product(ad, bd));
  }

  /** Cross-multiplied differences of equal values have equal values. */
  lemma SubRespectsValue(an: Polynomial, ad: Polynomial, bn: Polynomial, bd: Polynomial,
                         ln: Polynomial, ld: Polynomial, rn: Polynomial, rd: Polynomial)
    requires SameValue(an, ad, ln, ld) && SameValue(bn, bd, rn, rd)
    ensures SameValue(Sub(Product(an, bd), Product(bn, ad)), Product(ad, bd),
                      Sub(Product(ln, rd), Product(rn, ld)), Product(ld, rd))
  {
    CrossTerms(an, ad, bn, bd, ln, ld, rn, rd);
    ProductSubLeft(Product(an, bd), Product(bn, ad), Product(ld, rd));
    ProductSubLeft(Product(ln, rd), Product(rn, ld), Product(ad, bd));
  }

  /** Products of equal values have equal values. */
  lemma MulRespectsValue(an: Polynomial, ad: Polynomial, bn: Polynomial, bd: Polynomial,
                         ln: Polynomial, ld: Polynomial, rn: Polynomial, rd: Polynomial)
    requires SameValue(an, ad, ln, ld) && SameValue(bn, bd, rn, rd)
    ensures SameValue(Product(an, bn), Product(ad, bd), Product(ln, rn), Product(ld, rd))
  {
    ProductSwapMiddle(an, bn, ld, rd);
    ProductSwapMiddle(ln, rn, ad, bd);
  }

  /** Quotients of equal values have equal values. */
  lemma DivRespectsValue(an: Polynomial, ad: Polynomial, bn: Polynomial, bd: Polynomial,
                         ln: Polynomial, ld: Polynomial, rn: Polynomial, rd: Polynomial)
    requires SameValue(an, ad, ln, ld) && SameValue(bn, bd, rn, rd)
    ensures SameValue(Product(an, bd), Product(ad, bn), Product(ln, rd), Product(ld, rn))
  {
    ProductSwapMiddle(an, bd, ld, rn);
    ProductSwapMiddle(ln, rd, ad, bn);
    ProductComm(rd, bn);
    ProductComm(bd, rn);
  }

  /** Negated numerators of equal values have equal values. */
  lemma NegRespectsValue(an: Polynomial, ad: Polynomial, ln: Polynomial, ld: Polynomial)
    requires SameValue(an, ad, ln, ld)
    ensures SameValue(Neg(an), ad, Neg(ln), ld)
  {
    NegIsScale(an);
    NegIsScale(ln);
    ProductScaleLeft(an, -1.0, ld);
    ProductScaleLeft(ln, -1.0, ad);
  }

  // ---------------------------------------------------------------------------
  // The operators as the source computes them
  // ---------------------------------------------------------------------------

  /** `__add__` */
  method Plus(a: FractionalPolynomial, b: FractionalPolynomial) returns (r: Result<FractionalPolynomial>)
    ensures r == FracAdd(a, b)
  {
    var left := Products.Mul(a.numerator, b.denominator);
    var right := Products.Mul(b.numerator, a.denominator);
    var newNumerator := Polynomials.Add(left, right);
    var newDenominator := Products.Mul(a.denominator, b.denominator);
    r := New(newNumerator, newDenominator);
  }

  /** `__sub__` */
  method Minus(a: FractionalPolynomial, b: FractionalPolynomial) returns (r: Result<FractionalPolynomial>)
    ensures r == FracSub(a, b)
  {
    var left := Products.Mul(a.numerator, b.denominator);
    var right := Products.Mul(b.numerator, a.denominator);
    var newNumerator := Subtract(left, right);
    var newDenominator := Products.Mul(a.denominator, b.denominator);
    r := New(newNumerator, newDenominator);
  }

  /** `__mul__` */
  method Times(a: FractionalPolynomial, b: FractionalPolynomial) returns (r: Result<FractionalPolynomial>)
    ensures r == FracMul(a, b)
  {
    var newNumerator := Products.Mul(a.numerator, b.numerator);
    var newDenominator := Products.Mul(a.denominator, b.denominator);
    r := New(newNumerator, newDenominator);
  }

  /** `__truediv__` */
  method Divide(a: FractionalPolynomial, b: FractionalPolynomial) returns (r: Result<FractionalPolynomial>)
    ensures r == FracDiv(a, b)
  {
    if b.numerator == Zero {
      return Err(ValueError);
    }
    var newNumerator := Products.Mul(a.numerator, b.denominator);
    var newDenominator := Products.Mul(a.denominator, b.numerator);
    r := New(newNumerator, newDenominator);
  }
}
