/**
 * `polynomial_gcd` (polynomial_math.py:6-35): Euclid's algorithm on polynomials over the
 * rationals, followed by scaling the result to leading coefficient 1.
 */
module PolynomialMath {
  import opened Results
  import opened Polynomials
  import opened Products
  import opened Division

  // ---------------------------------------------------------------------------
  // Divisibility
  // ---------------------------------------------------------------------------

  /** g divides a: a is g times some polynomial. */
  ghost predicate Divides(g: Polynomial, a: Polynomial) {
    exists k: Polynomial :: Product(k, g) == a
  }

  lemma DividesRefl(a: Polynomial)
    ensures Divides(a, a)
  {
    ProductOne(a);
    assert Product(One(), a) == a;
  }

  lemma DividesZero(c: Polynomial)
    ensures Divides(c, Zero)
  {
    ProductZero(c);
    assert Product(Zero, c) == Zero;
  }

  /** Only the zero polynomial is a multiple of zero. */
  lemma ZeroDivides(a: Polynomial)
    requires Divides(Zero, a)
    ensures a == Zero
  {
    var k :| Product(k, Zero) == a;
    ProductZero(k);
  }

  lemma DividesTrans(a: Polynomial, b: Polynomial, c: Polynomial)
    requires Divides(a, b) && Divides(b, c)
    ensures Divides(a, c)
  {
    var k1 :| Product(k1, a) == b;
    var k2 :| Product(k2, b) == c;
    ProductAssoc(k2, k1, a);
    assert Product(Product(k2, k1), a) == c;
  }

  /** A common divisor of x and y divides q * x + y and y - q * x. */
  lemma DividesCombination(c: Polynomial, x: Polynomial, y: Polynomial, q: Polynomial)
    requires Divides(c, x) && Divides(c, y)
    ensures Divides(c, Sum(Product(q, x), y))
    ensures Divides(c, Sub(y, Product(q, x)))
  {
    var kx :| Product(kx, c) == x;
    var ky :| Product(ky, c) == y;
    ProductAssoc(q, kx, c);
    ProductSumLeft(Product(q, kx), ky, c);
    assert Product(Sum(Product(q, kx), ky), c) == Sum(Product(q, x), y);
    ProductSubLeft(ky, Product(q, kx), c);
    assert Product(Sub(ky, Product(q, kx)), c) == Sub(y, Product(q, x));
  }

  /** A divisor of a non-zero polynomial is non-zero and of no larger degree. */
  lemma DividesDegree(g: Polynomial, a: Polynomial)
    requires Divides(g, a) && a != Zero
    ensures g != Zero && Degree(g) <= Degree(a)
  {
    var k :| Product(k, g) == a;
    ProductZero(k);
    ProductZero(g);
    ProductDegree(k, g);
  }

  /** From q * d + r == p, the remainder is p - q * d. */
  lemma RemainderIsDifference(p: Polynomial, x: Polynomial, r: Polynomial)
    requires Sum(x, r) == p
    ensures Sub(p, x) == r
  {
    Ext(Sub(p, x), r);
  }

  // ---------------------------------------------------------------------------
  // Euclid's algorithm and monic normalisation
  // ---------------------------------------------------------------------------

  /** The remainder of a by a non-zero b, as divmod computes it. */
  ghost function Remainder(a: Polynomial, b: Polynomial): (r: Polynomial)
    requires b != Zero
    ensures Size(r) < Size(b)
    ensures Sum(Product(Divmod(a, b).value.0, b), r) == a
  {
    DivmodCorrect(a, b);
    Divmod(a, b).value.1
  }

  /** The loop `while b.terms: a, b = b, a mod b` (polynomial_math.py:17-24); a when it stops. */
  ghost function Euclid(a: Polynomial, b: Polynomial): Polynomial
    decreases Size(b)
  {
    if b == Zero then a else Euclid(b, Remainder(a, b))
  }

  /** Lines 28-33: a non-zero g whose leading coefficient is not 1 is divided by it. */
  ghost function Monic(g: Polynomial): Polynomial {
    if g != Zero && Lead(g) != 0.0 && Lead(g) != 1.0 then Scale(g, 1.0 / Lead(g)) else g
  }

  /** `polynomial_gcd(a, b)` */
  ghost function Gcd(a: Polynomial, b: Polynomial): Polynomial {
    Monic(Euclid(a, b))
  }

  /** The Euclidean result divides both inputs. */
  lemma {:induction false} EuclidDivides(a: Polynomial, b: Polynomial)
    ensures Divides(Euclid(a, b), a) && Divides(Euclid(a, b), b)
    decreases Size(b)
  {
    if b == Zero {
      DividesRefl(a);
      DividesZero(a);
    } else {
      var r := Remainder(a, b);
      EuclidDivides(b, r);
      DividesCombination(Euclid(a, b), b, r, Divmod(a, b).value.0);
    }
  }

  /** Every common divisor of the inputs divides the Euclidean result. */
  lemma {:induction false} EuclidGreatest(a: Polynomial, b: Polynomial, c: Polynomial)
    requires Divides(c, a) && Divides(c, b)
    ensures Divides(c, Euclid(a, b))
    decreases Size(b)
  {
    if b != Zero {
      var q := Divmod(a, b).value.0;
      var r := Remainder(a, b);
      DividesCombination(c, b, a, q);
      RemainderIsDifference(a, Product(q, b), r);
      EuclidGreatest(b, r, c);
    }
  }

  /** Euclid's result is zero exactly when both inputs are. */
  lemma EuclidZeroIff(a: Polynomial, b: Polynomial)
    ensures Euclid(a, b) == Zero <==> a == Zero && b == Zero
  {
    EuclidDivides(a, b);
    if Euclid(a, b) == Zero {
      ZeroDivides(a);
      ZeroDivides(b);
    }
  }

  /** Scaling by a non-zero c gives an associate: each divides the other. */
  lemma ScaleAssociate(g: Polynomial, c: real)
    requires c != 0.0
    ensures Divides(g, Scale(g, c)) && Divides(Scale(g, c), g)
  {
    var m := Scale(g, c);
    ProductConstLeft(c, g);
    assert Product(Const(c), g) == m;
    ProductConstLeft(1.0 / c, m);
    ScaleInverse(g, c);
    assert Product(Const(1.0 / c), m) == g;
  }

  /** A non-zero g and Monic(g) are associates. */
  lemma MonicAssociate(g: Polynomial)
    requires g != Zero
    ensures Divides(g, Monic(g)) && Divides(Monic(g), g)
  {
    if Lead(g) != 1.0 {
      ScaleAssociate(g, 1.0 / Lead(g));
    } else {
      DividesRefl(g);
    }
  }

  /** Monic(g) of a non-zero g has leading coefficient 1 and the same degree. */
  lemma MonicLead(g: Polynomial)
    requires g != Zero
    ensures Monic(g) != Zero && Lead(Monic(g)) == 1.0 && Degree(Monic(g)) == Degree(g)
  {
    if Lead(g) != 1.0 {
      ScaleNonZero(g, 1.0 / Lead(g));
    }
  }

  /** A constant with leading coefficient 1 is the constant 1. */
  lemma MonicConstantIsOne(k: Polynomial)
    requires k != Zero && Degree(k) == 0 && Lead(k) == 1.0
    ensures k == One()
  {
    Ext(k, One());
  }

  /** Two monic polynomials that divide each other are equal. */
  lemma MonicAssociatesEqual(g1: Polynomial, g2: Polynomial)
    requires g1 != Zero && g2 != Zero && Lead(g1) == 1.0 && Lead(g2) == 1.0
    requires Divides(g1, g2) && Divides(g2, g1)
    ensures g1 == g2
  {
    var k1 :| Product(k1, g1) == g2;
    var k2 :| Product(k2, g2) == g1;
    ProductZero(g1);
    ProductZero(g2);
    ProductDegree(k1, g1);
    ProductDegree(k2, g2);
    MonicConstantIsOne(k1);
    ProductOne(g1);
  }

  // ---------------------------------------------------------------------------
  // Properties of the greatest common divisor
  // ---------------------------------------------------------------------------

  /** The result is zero exactly for two zero inputs; otherwise its leading coefficient is 1. */
  lemma GcdMonic(a: Polynomial, b: Polynomial)
    ensures Gcd(a, b) == Zero <==> a == Zero && b == Zero
    ensures Gcd(a, b) != Zero ==> Lead(Gcd(a, b)) == 1.0
  {
    EuclidZeroIff(a, b);
    if Euclid(a, b) != Zero {
      MonicLead(Euclid(a, b));
    }
  }

  /** gcd(p, 0) is p made monic, and gcd(0, 0) is the zero polynomial. */
  lemma GcdWithZero(p: Polynomial)
    ensures Gcd(p, Zero) == Monic(p)
    ensures Gcd(Zero, Zero) == Zero
  {
  }

  /** The result divides both inputs. */
  lemma GcdDivides(a: Polynomial, b: Polynomial)
    ensures Divides(Gcd(a, b), a) && Divides(Gcd(a, b), b)
  {
    var g := Euclid(a, b);
    EuclidDivides(a, b);
    if g != Zero {
      MonicAssociate(g);
      DividesTrans(Gcd(a, b), g, a);
      DividesTrans(Gcd(a, b), g, b);
    }
  }

  /** Every common divisor of the inputs divides the result. */
  lemma GcdGreatest(a: Polynomial, b: Polynomial, c: Polynomial)
    requires Divides(c, a) && Divides(c, b)
    ensures Divides(c, Gcd(a, b))
  {
    var g := Euclid(a, b);
    EuclidGreatest(a, b, c);
    if g != Zero {
      MonicAssociate(g);
      DividesTrans(c, g, Gcd(a, b));
    }
  }

  /** Dividing either input by a non-zero result leaves remainder zero. */
  lemma GcdDividesExactly(a: Polynomial, b: Polynomial)
    requires Gcd(a, b) != Zero
    ensures Divmod(a, Gcd(a, b)).Ok? && Divmod(a, Gcd(a, b)).value.1 == Zero
    ensures Divmod(b, Gcd(a, b)).Ok? && Divmod(b, Gcd(a, b)).value.1 == Zero
  {
    var g := Gcd(a, b);
    GcdDivides(a, b);
    var ka :| Product(ka, g) == a;
    var kb :| Product(kb, g) == b;
    DivmodOfMultiple(ka, g);
    DivmodOfMultiple(kb, g);
  }

  /** If either input is a non-zero constant, the result is the constant 1. */
  lemma GcdOfConstant(a: Polynomial, b: Polynomial)
    requires (a != Zero && Degree(a) == 0) || (b != Zero && Degree(b) == 0)
    ensures Gcd(a, b) == One()
  {
    var g := Gcd(a, b);
    GcdDivides(a, b);
    GcdMonic(a, b);
    if a != Zero && Degree(a) == 0 {
      DividesDegree(g, a);
    } else {
      DividesDegree(g, b);
    }
    MonicConstantIsOne(g);
  }

  /** The result does not depend on the order of the inputs. */
  lemma GcdComm(a: Polynomial, b: Polynomial)
    ensures Gcd(a, b) == Gcd(b, a)
  {
    GcdMonic(a, b);
    GcdMonic(b, a);
    if Gcd(a, b) != Zero {
      GcdDivides(a, b);
      GcdDivides(b, a);
      GcdGreatest(a, b, Gcd(b, a));
      GcdGreatest(b, a, Gcd(a, b));
      MonicAssociatesEqual(Gcd(a, b), Gcd(b, a));
    }
  }

  // ---------------------------------------------------------------------------
  // polynomial_gcd
  // ---------------------------------------------------------------------------

  /**
   * `polynomial_gcd` (polynomial_math.py:6-35). Inside the loop b is non-zero, so divmod
   * cannot raise and the `except ValueError` fallback (22-24) is unreachable.
   */
  method PolynomialGcd(poly1: Polynomial, poly2: Polynomial) returns (gcd: Polynomial)
    ensures gcd == Gcd(poly1, poly2)
  {
    var a := poly1;
    var b := poly2;
    while b != Zero
      invariant Euclid(a, b) == Euclid(poly1, poly2)
      decreases Size(b)
    {
      var res := DivmodPolynomial(a, b);
      assert res.Ok?;
      var remainder := res.value.1;
      assert remainder == Remainder(a, b);
      a := b;
      b := remainder;
    }
    gcd := a;
    if gcd != Zero {
      var (_, leadingCoeff) := LeadingTerm(gcd);
      if leadingCoeff != 0.0 && leadingCoeff != 1.0 {
        var reciprocal := 1.0 / leadingCoeff;
        gcd := ScalarMul(gcd, reciprocal);
      }
    }
  }
}
