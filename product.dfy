/**
 * Polynomial multiplication and exponentiation (polynomial_parser/polynomial.py:154-199).
 *
 * The value of `p * q` is characterised by the convolution of coefficients: the
 * coefficient at k is the sum of c1 * c2 over all e1 + e2 == k. The ring laws follow,
 * partly on the convolution sums and partly by decomposing p as p(0) + x * Down(p).
 * `Mul` and `Power` follow the nested loops and the squaring loop of the source and are
 * proved to compute these values.
 */
module Products {
  import opened Results
  import opened Polynomials

  // ---------------------------------------------------------------------------
  // Convolution sums
  // ---------------------------------------------------------------------------

  /** The sum of Coef(p, j) * Coef(q, k - j) for j from i up to k. */
  function ConvFrom(p: Polynomial, q: Polynomial, k: nat, i: nat): real
    decreases k + 1 - i
  {
    if i > k then 0.0 else Coef(p, i) * Coef(q, k - i) + ConvFrom(p, q, k, i + 1)
  }

  /** The sum of c1 * c2 over all e1 + e2 == k, c1 from p at e1 and c2 from q at e2. */
  function Conv(p: Polynomial, q: Polynomial, k: nat): real {
    ConvFrom(p, q, k, 0)
  }

  /** A convolution sum whose every term vanishes is zero. */
  lemma {:induction false} ConvFromZero(p: Polynomial, q: Polynomial, k: nat, i: nat)
    requires forall j: nat :: i <= j <= k ==> Coef(p, j) == 0.0 || Coef(q, k - j) == 0.0
    ensures ConvFrom(p, q, k, i) == 0.0
    decreases k + 1 - i
  {
    if i <= k {
      ConvFromZero(p, q, k, i + 1);
      assert Coef(p, i) == 0.0 || Coef(q, k - i) == 0.0;
    }
  }

  /** Above the sum of the degrees every convolution sum is zero. */
  lemma ConvAboveDegrees(p: Polynomial, q: Polynomial, k: nat)
    requires k > Degree(p) + Degree(q)
    ensures Conv(p, q, k) == 0.0
  {
    forall j: nat | j <= k
      ensures Coef(p, j) == 0.0 || Coef(q, k - j) == 0.0
    {
      if j <= Degree(p) {
        assert k - j > Degree(q);
      }
    }
    ConvFromZero(p, q, k, 0);
  }

  /** Dropping the first term of a convolution sum lowers p. */
  lemma {:induction false} ConvFromDown(p: Polynomial, q: Polynomial, k: nat, i: nat)
    requires i <= k + 1
    ensures ConvFrom(p, q, k + 1, i + 1) == ConvFrom(Down(p), q, k, i)
    decreases k + 1 - i
  {
    if i <= k {
      ConvFromDown(p, q, k, i + 1);
      assert Coef(Down(p), i) == Coef(p, i + 1);
    }
  }

  /** Conv(p, q, k) == p(0) * Coef(q, k) + Conv(Down(p), q, k - 1). */
  lemma ConvFirst(p: Polynomial, q: Polynomial, k: nat)
    ensures Conv(p, q, k) == Coef(p, 0) * Coef(q, k) + (if k == 0 then 0.0 else Conv(Down(p), q, k - 1))
  {
    if k > 0 {
      ConvFromDown(p, q, k - 1, 0);
    }
  }

  // ---------------------------------------------------------------------------
  // The product
  // ---------------------------------------------------------------------------

  /**
   * The value of `p * q` for two polynomials (polynomial.py:161-168): the coefficient at k
   * is Conv(p, q, k). Nothing above Degree(p) + Degree(q) survives, so the comprehension
   * up to Size(p) + Size(q) is a witness.
   */
  ghost function Product(p: Polynomial, q: Polynomial): (r: Polynomial)
    ensures forall k: nat {:trigger Coef(r, k)} :: Coef(r, k) == Conv(p, q, k)
  {
    var n := Size(p) + Size(q);
    var m: Polynomial := map k: nat | k < n && Conv(p, q, k) != 0.0 :: Conv(p, q, k);
    assert forall k: nat :: Coef(m, k) == Conv(p, q, k) by {
      forall k: nat
        ensures Coef(m, k) == Conv(p, q, k)
      {
        if k >= n {
          ConvAboveDegrees(p, q, k);
        }
      }
    }
    var r: Polynomial :| forall k: nat :: Coef(r, k) == Conv(p, q, k);
    r
  }

  lemma ProductUnfoldAt(p: Polynomial, q: Polynomial, k: nat)
    ensures Coef(Product(p, q), k) == Coef(Sum(Scale(q, Coef(p, 0)), Shift(Product(Down(p), q))), k)
  {
    ConvFirst(p, q, k);
  }

  /** p * q == p(0) * q + x * (Down(p) * q): the equation every inductive proof unfolds. */
  lemma ProductUnfold(p: Polynomial, q: Polynomial)
    ensures Product(p, q) == Sum(Scale(q, Coef(p, 0)), Shift(Product(Down(p), q)))
  {
    forall k: nat
      ensures Coef(Product(p, q), k) == Coef(Sum(Scale(q, Coef(p, 0)), Shift(Product(Down(p), q))), k)
    {
      ProductUnfoldAt(p, q, k);
    }
    Ext(Product(p, q), Sum(Scale(q, Coef(p, 0)), Shift(Product(Down(p), q))));
  }

  /** The coefficient formula of the source's double loop, as a standalone statement. */
  lemma CoefProduct(p: Polynomial, q: Polynomial, k: nat)
    ensures Coef(Product(p, q), k) == Conv(p, q, k)
    ensures k > Degree(p) + Degree(q) ==> Coef(Product(p, q), k) == 0.0
  {
    if k > Degree(p) + Degree(q) {
      ConvAboveDegrees(p, q, k);
    }
  }

  lemma ProductZero(q: Polynomial)
    ensures Product(map[], q) == map[] && Product(q, map[]) == map[]
  {
    forall k: nat
      ensures Coef(Product(map[], q), k) == 0.0 && Coef(Product(q, map[]), k) == 0.0
    {
      ConvFromZero(map[], q, k, 0);
      ConvFromZero(q, map[], k, 0);
    }
    Ext(Product(map[], q), map[]);
    Ext(Product(q, map[]), map[]);
  }

  // ---------------------------------------------------------------------------
  // Laws proved on the convolution sums
  // ---------------------------------------------------------------------------

  lemma {:induction false} ConvFromSumLeft(a: Polynomial, b: Polynomial, q: Polynomial, k: nat, i: nat)
    ensures ConvFrom(Sum(a, b), q, k, i) == ConvFrom(a, q, k, i) + ConvFrom(b, q, k, i)
    decreases k + 1 - i
  {
    if i <= k {
      ConvFromSumLeft(a, b, q, k, i + 1);
      assert (Coef(a, i) + Coef(b, i)) * Coef(q, k - i) == Coef(a, i) * Coef(q, k - i) + Coef(b, i) * Coef(q, k - i);
    }
  }

  lemma {:induction false} ConvFromSumRight(p: Polynomial, a: Polynomial, b: Polynomial, k: nat, i: nat)
    ensures ConvFrom(p, Sum(a, b), k, i) == ConvFrom(p, a, k, i) + ConvFrom(p, b, k, i)
    decreases k + 1 - i
  {
    if i <= k {
      ConvFromSumRight(p, a, b, k, i + 1);
      var x, y, z := Coef(p, i), Coef(a, k - i), Coef(b, k - i);
      assert Coef(Sum(a, b), k - i) == y + z;
      assert x * (y + z) == x * y + x * z;
    }
  }

  lemma {:induction false} ConvFromScaleLeft(p: Polynomial, c: real, q: Polynomial, k: nat, i: nat)
    ensures ConvFrom(Scale(p, c), q, k, i) == ConvFrom(p, q, k, i) * c
    decreases k + 1 - i
  {
    if i <= k {
      ConvFromScaleLeft(p, c, q, k, i + 1);
      assert (Coef(p, i) * c) * Coef(q, k - i) == (Coef(p, i) * Coef(q, k - i)) * c;
    }
  }

  lemma {:induction false} ConvFromScaleRight(p: Polynomial, q: Polynomial, c: real, k: nat, i: nat)
    ensures ConvFrom(p, Scale(q, c), k, i) == ConvFrom(p, q, k, i) * c
    decreases k + 1 - i
  {
    if i <= k {
      ConvFromScaleRight(p, q, c, k, i + 1);
      assert Coef(p, i) * (Coef(q, k - i) * c) == (Coef(p, i) * Coef(q, k - i)) * c;
    }
  }

  /** Shifting the right factor moves the whole sum up by one; the new last term is zero. */
  lemma {:induction false} ConvFromShiftRight(p: Polynomial, q: Polynomial, k: nat, i: nat)
    requires i <= k + 1
    ensures ConvFrom(p, Shift(q), k + 1, i) == ConvFrom(p, q, k, i)
    decreases k + 1 - i
  {
    if i <= k {
      ConvFromShiftRight(p, q, k, i + 1);
      assert Coef(Shift(q), k + 1 - i) == Coef(q, k - i);
    } else {
      assert Coef(Shift(q), 0) == 0.0;
    }
  }

  lemma {:induction false} ConvFromConstRight(p: Polynomial, c: real, k: nat, i: nat)
    ensures ConvFrom(p, Const(c), k, i) == if i <= k then Coef(p, k) * c else 0.0
    decreases k + 1 - i
  {
    if i <= k {
      ConvFromConstRight(p, c, k, i + 1);
    }
  }

  lemma {:induction false} ConvFromMonoLeft(n: nat, c: real, q: Polynomial, k: nat, i: nat)
    ensures ConvFrom(Mono(n, c), q, k, i) == if i <= n <= k then c * Coef(q, k - n) else 0.0
    decreases k + 1 - i
  {
    if i <= k {
      ConvFromMonoLeft(n, c, q, k, i + 1);
    }
  }

  lemma ProductSumLeftAt(a: Polynomial, b: Polynomial, q: Polynomial, k: nat)
    ensures Coef(Product(Sum(a, b), q), k) == Coef(Sum(Product(a, q), Product(b, q)), k)
  {
    ConvFromSumLeft(a, b, q, k, 0);
  }

  /** `(a + b) * q == a * q + b * q` */
  lemma ProductSumLeft(a: Polynomial, b: Polynomial, q: Polynomial)
    ensures Product(Sum(a, b), q) == Sum(Product(a, q), Product(b, q))
  {
    forall k: nat
      ensures Coef(Product(Sum(a, b), q), k) == Coef(Sum(Product(a, q), Product(b, q)), k)
    {
      ProductSumLeftAt(a, b, q, k);
    }
    Ext(Product(Sum(a, b), q), Sum(Product(a, q), Product(b, q)));
  }

  lemma ProductSumRightAt(p: Polynomial, a: Polynomial, b: Polynomial, k: nat)
    ensures Coef(Product(p, Sum(a, b)), k) == Coef(Sum(Product(p, a), Product(p, b)), k)
  {
    ConvFromSumRight(p, a, b, k, 0);
  }

  /** `p * (a + b) == p * a + p * b` */
  lemma ProductSumRight(p: Polynomial, a: Polynomial, b: Polynomial)
    ensures Product(p, Sum(a, b)) == Sum(Product(p, a), Product(p, b))
  {
    forall k: nat
      ensures Coef(Product(p, Sum(a, b)), k) == Coef(Sum(Product(p, a), Product(p, b)), k)
    {
      ProductSumRightAt(p, a, b, k);
    }
    Ext(Product(p, Sum(a, b)), Sum(Product(p, a), Product(p, b)));
  }

  lemma ProductScaleLeftAt(p: Polynomial, c: real, q: Polynomial, k: nat)
    ensures Coef(Product(Scale(p, c), q), k) == Coef(Scale(Product(p, q), c), k)
  {
    ConvFromScaleLeft(p, c, q, k, 0);
  }

  /** `(p * c) * q == (p * q) * c` */
  lemma ProductScaleLeft(p: Polynomial, c: real, q: Polynomial)
    ensures Product(Scale(p, c), q) == Scale(Product(p, q), c)
  {
    forall k: nat
      ensures Coef(Product(Scale(p, c), q), k) == Coef(Scale(Product(p, q), c), k)
    {
      ProductScaleLeftAt(p, c, q, k);
    }
    Ext(Product(Scale(p, c), q), Scale(Product(p, q), c));
  }

  lemma ProductScaleRightAt(p: Polynomial, q: Polynomial, c: real, k: nat)
    ensures Coef(Product(p, Scale(q, c)), k) == Coef(Scale(Product(p, q), c), k)
  {
    ConvFromScaleRight(p, q, c, k, 0);
  }

  /** `p * (q * c) == (p * q) * c` */
  lemma ProductScaleRight(p: Polynomial, q: Polynomial, c: real)
    ensures Product(p, Scale(q, c)) == Scale(Product(p, q), c)
  {
    forall k: nat
      ensures Coef(Product(p, Scale(q, c)), k) == Coef(Scale(Product(p, q), c), k)
    {
      ProductScaleRightAt(p, q, c, k);
    }
    Ext(Product(p, Scale(q, c)), Scale(Product(p, q), c));
  }

  lemma ProductShiftRightAt(p: Polynomial, q: Polynomial, k: nat)
    ensures Coef(Product(p, Shift(q)), k) == Coef(Shift(Product(p, q)), k)
  {
    if k == 0 {
      assert Coef(Shift(q), 0) == 0.0;
    } else {
      ConvFromShiftRight(p, q, k - 1, 0);
    }
  }

  /** `p * (x * q) == x * (p * q)` */
  lemma ProductShiftRight(p: Polynomial, q: Polynomial)
    ensures Product(p, Shift(q)) == Shift(Product(p, q))
  {
    forall k: nat
      ensures Coef(Product(p, Shift(q)), k) == Coef(Shift(Product(p, q)), k)
    {
      ProductShiftRightAt(p, q, k);
    }
    Ext(Product(p, Shift(q)), Shift(Product(p, q)));
  }

  lemma ProductConstRightAt(p: Polynomial, c: real, k: nat)
    ensures Coef(Product(p, Const(c)), k) == Coef(Scale(p, c), k)
  {
    ConvFromConstRight(p, c, k, 0);
  }

  /** `p * Polynomial({0: c}) == p * c` */
  lemma ProductConstRight(p: Polynomial, c: real)
    ensures Product(p, Const(c)) == Scale(p, c)
  {
    forall k: nat
      ensures Coef(Product(p, Const(c)), k) == Coef(Scale(p, c), k)
    {
      ProductConstRightAt(p, c, k);
    }
    Ext(Product(p, Const(c)), Scale(p, c));
  }

  /** The coefficients of a monomial times q: q moved up by n and scaled by c. */
  lemma CoefProductMono(n: nat, c: real, q: Polynomial, k: nat)
    ensures Coef(Product(Mono(n, c), q), k) == if n <= k then c * Coef(q, k - n) else 0.0
  {
    ConvFromMonoLeft(n, c, q, k, 0);
  }

  /** `Polynomial({n1: c1}) * Polynomial({n2: c2}) == Polynomial({n1 + n2: c1 * c2})` */
  lemma ProductMonoMono(n1: nat, c1: real, n2: nat, c2: real)
    ensures Product(Mono(n1, c1), Mono(n2, c2)) == Mono(n1 + n2, c1 * c2)
  {
    forall k: nat
      ensures Coef(Product(Mono(n1, c1), Mono(n2, c2)), k) == Coef(Mono(n1 + n2, c1 * c2), k)
    {
      CoefProductMono(n1, c1, Mono(n2, c2), k);
    }
    Ext(Product(Mono(n1, c1), Mono(n2, c2)), Mono(n1 + n2, c1 * c2));
  }

  /** `1 * q == q` and `q * 1 == q` */
  lemma ProductOne(q: Polynomial)
    ensures Product(One(), q) == q && Product(q, One()) == q
  {
    forall k: nat
      ensures Coef(Product(One(), q), k) == Coef(q, k)
    {
      CoefProductMono(0, 1.0, q, k);
    }
    Ext(Product(One(), q), q);
    ProductConstRight(q, 1.0);
    ScaleOne(q);
  }

  // ---------------------------------------------------------------------------
  // Laws proved by decomposition
  // ---------------------------------------------------------------------------

  /** `(x * p) * q == x * (p * q)` */
  lemma ProductShiftLeft(p: Polynomial, q: Polynomial)
    ensures Product(Shift(p), q) == Shift(Product(p, q))
  {
    ProductUnfold(Shift(p), q);
    DownShift(p);
    ScaleZero(q);
    SumZero(Shift(Product(p, q)));
  }

  /** `Polynomial({0: c}) * q == q * c` */
  lemma ProductConstLeft(c: real, q: Polynomial)
    ensures Product(Const(c), q) == Scale(q, c)
  {
    ProductUnfold(Const(c), q);
    DownConst(c);
    ProductZero(q);
    ShiftZero();
    SumZero(Scale(q, c));
  }

  /** q * p, unfolded along the decomposition of p. */
  lemma ProductCommStep(p: Polynomial, q: Polynomial)
    ensures Product(q, p) == Sum(Scale(q, Coef(p, 0)), Shift(Product(q, Down(p))))
  {
    Decompose(p);
    ProductSumRight(q, Const(Coef(p, 0)), Shift(Down(p)));
    ProductConstRight(q, Coef(p, 0));
    ProductShiftRight(q, Down(p));
  }

  /** `p * q == q * p`, by induction on the degree of p. */
  lemma {:induction false} ProductComm(p: Polynomial, q: Polynomial)
    ensures Product(p, q) == Product(q, p)
    decreases Size(p)
  {
    if p == map[] {
      ProductZero(q);
    } else {
      DownSmaller(p);
      ProductComm(Down(p), q);
      ProductUnfold(p, q);
      ProductCommStep(p, q);
    }
  }

  /** (p * q) * r, unfolded along the decomposition of p. */
  lemma ProductAssocStep(p: Polynomial, q: Polynomial, r: Polynomial)
    ensures Product(Product(p, q), r)
         == Sum(Scale(Product(q, r), Coef(p, 0)), Shift(Product(Product(Down(p), q), r)))
  {
    ProductUnfold(p, q);
    ProductSumLeft(Scale(q, Coef(p, 0)), Shift(Product(Down(p), q)), r);
    ProductScaleLeft(q, Coef(p, 0), r);
    ProductShiftLeft(Product(Down(p), q), r);
  }

  /** `(p * q) * r == p * (q * r)`, by induction on the degree of p. */
  lemma {:induction false} ProductAssoc(p: Polynomial, q: Polynomial, r: Polynomial)
    ensures Product(Product(p, q), r) == Product(p, Product(q, r))
    decreases Size(p)
  {
    if p == map[] {
      ProductZero(q);
      ProductZero(r);
      ProductZero(Product(q, r));
    } else {
      DownSmaller(p);
      ProductAssoc(Down(p), q, r);
      ProductAssocStep(p, q, r);
      ProductUnfold(p, Product(q, r));
    }
  }

  // ---------------------------------------------------------------------------
  // Degree of a product
  // ---------------------------------------------------------------------------

  /** At k == Degree(p) + Degree(q) only the term of the two leading coefficients survives. */
  lemma {:induction false} ConvFromTop(p: Polynomial, q: Polynomial, i: nat)
    requires p != map[] && q != map[]
    ensures ConvFrom(p, q, Degree(p) + Degree(q), i) == if i <= Degree(p) then Lead(p) * Lead(q) else 0.0
    decreases Degree(p) + Degree(q) + 1 - i
  {
    var k := Degree(p) + Degree(q);
    if i <= k {
      ConvFromTop(p, q, i + 1);
      if i < Degree(p) {
        assert Coef(q, k - i) == 0.0;
      } else if i > Degree(p) {
        assert Coef(p, i) == 0.0;
      }
    }
  }

  /** The degree of a product of non-zero polynomials is the sum of the degrees. */
  lemma ProductDegree(p: Polynomial, q: Polynomial)
    requires p != map[] && q != map[]
    ensures Degree(Product(p, q)) == Degree(p) + Degree(q)
    ensures Lead(Product(p, q)) == Lead(p) * Lead(q)
  {
    var k := Degree(p) + Degree(q);
    ConvFromTop(p, q, 0);
    forall e: nat | e > k
      ensures Coef(Product(p, q), e) == 0.0
    {
      CoefProduct(p, q, e);
    }
    DegreeIs(Product(p, q), k);
  }

  /** A product is zero exactly when one of its factors is. */
  lemma ProductZeroIff(p: Polynomial, q: Polynomial)
    ensures Product(p, q) == map[] <==> p == map[] || q == map[]
  {
    if p != map[] && q != map[] {
      ProductDegree(p, q);
    } else {
      ProductZero(p);
      ProductZero(q);
    }
  }

  // ---------------------------------------------------------------------------
  // `__mul__` for two polynomials: the double loop (polynomial.py:161-168)
  // ---------------------------------------------------------------------------

  /** The part of p whose exponents lie in s. */
  ghost function Restrict(p: Polynomial, s: set<nat>): (r: Polynomial)
    ensures forall e: nat {:trigger Coef(r, e)} :: Coef(r, e) == if e in s then Coef(p, e) else 0.0
  {
    var m: Polynomial := map e | e in p && e in s :: p[e];
    assert forall e: nat :: Coef(m, e) == if e in s then Coef(p, e) else 0.0;
    var r: Polynomial :| forall e: nat :: Coef(r, e) == if e in s then Coef(p, e) else 0.0;
    r
  }

  lemma RestrictEmpty(p: Polynomial)
    ensures Restrict(p, {}) == map[]
  {
    Ext(Restrict(p, {}), map[]);
  }

  lemma RestrictAll(p: Polynomial)
    ensures Restrict(p, p.Keys) == p
  {
    Ext(Restrict(p, p.Keys), p);
  }

  /** Adding one more stored exponent to s adds its monomial. */
  lemma RestrictInsert(p: Polynomial, s: set<nat>, e: nat)
    requires e in p && e !in s
    ensures Restrict(p, s + {e}) == Sum(Restrict(p, s), Mono(e, p[e]))
  {
    Ext(Restrict(p, s + {e}), Sum(Restrict(p, s), Mono(e, p[e])));
  }

  /** The inner loop's step: one more term of the right factor. */
  lemma MulInnerStep(n1: nat, c1: real, q: Polynomial, done: set<nat>, n2: nat)
    requires n2 in q && n2 !in done
    ensures Product(Mono(n1, c1), Restrict(q, done + {n2}))
         == Sum(Product(Mono(n1, c1), Restrict(q, done)), Mono(n1 + n2, c1 * q[n2]))
  {
    RestrictInsert(q, done, n2);
    ProductSumRight(Mono(n1, c1), Restrict(q, done), Mono(n2, q[n2]));
    ProductMonoMono(n1, c1, n2, q[n2]);
  }

  /** The outer loop's step: one more term of the left factor. */
  lemma MulOuterStep(p: Polynomial, done: set<nat>, n1: nat, q: Polynomial)
    requires n1 in p && n1 !in done
    ensures Product(Restrict(p, done + {n1}), q)
         == Sum(Product(Restrict(p, done), q), Product(Mono(n1, p[n1]), q))
  {
    RestrictInsert(p, done, n1);
    ProductSumLeft(Restrict(p, done), Mono(n1, p[n1]), q);
  }

  /** A raw coefficient map (zeros allowed) has the same coefficients as a polynomial. */
  ghost predicate Denotes(acc: map<nat, real>, a: Polynomial) {
    forall k: nat :: Coef(acc, k) == Coef(a, k)
  }

  /** Adding c at exponent n of an accumulator adds the monomial c * x^n to what it denotes. */
  lemma Accumulate(acc: map<nat, real>, a: Polynomial, n: nat, c: real)
    requires Denotes(acc, a)
    ensures Denotes(acc[n := Coef(acc, n) + c], Sum(a, Mono(n, c)))
  {
  }

  /** One pass of the inner loop of `Mul`, stated on what the accumulator denotes. */
  lemma MulAccumulateStep(acc: map<nat, real>, before: Polynomial, n1: nat, c1: real, q: Polynomial, done: set<nat>, n2: nat)
    requires n2 in q && n2 !in done
    requires Denotes(acc, Sum(before, Product(Mono(n1, c1), Restrict(q, done))))
    ensures Denotes(acc[n1 + n2 := Coef(acc, n1 + n2) + c1 * q[n2]],
                    Sum(before, Product(Mono(n1, c1), Restrict(q, done + {n2}))))
  {
    var part := Product(Mono(n1, c1), Restrict(q, done));
    Accumulate(acc, Sum(before, part), n1 + n2, c1 * q[n2]);
    SumAssoc(before, part, Mono(n1 + n2, c1 * q[n2]));
    MulInnerStep(n1, c1, q, done, n2);
  }

  /** Entering the inner loop of `Mul`: no term of the right factor is accumulated yet. */
  lemma MulInnerEntry(acc: map<nat, real>, before: Polynomial, n1: nat, c1: real, q: Polynomial)
    requires Denotes(acc, before)
    ensures Denotes(acc, Sum(before, Product(Mono(n1, c1), Restrict(q, {}))))
  {
    RestrictEmpty(q);
    ProductZero(Mono(n1, c1));
    SumZero(before);
  }

  /** Entering the outer loop of `Mul`: the empty accumulator denotes the zero product. */
  lemma MulOuterEntry(p: Polynomial, q: Polynomial)
    ensures Denotes(map[], Product(Restrict(p, {}), q))
  {
    RestrictEmpty(p);
    ProductZero(q);
  }

  /** The inner loop of `__mul__`: add c1 * x^e1 times every term of q into the accumulator. */
  method AccumulateTermProduct(acc: map<nat, real>, ghost before: Polynomial, e1: nat, c1: real, q: Polynomial)
    returns (result: map<nat, real>)
    requires Denotes(acc, before)
    ensures Denotes(result, Sum(before, Product(Mono(e1, c1), q)))
  {
    result := acc;
    var rest := q.Keys;
    ghost var done: set<nat> := {};
    MulInnerEntry(acc, before, e1, c1, q);
    while rest != {}
      invariant done + rest == q.Keys && done !! rest
      invariant Denotes(result, Sum(before, Product(Mono(e1, c1), Restrict(q, done))))
      decreases rest
    {
      var e2 :| e2 in rest;
      MulAccumulateStep(result, before, e1, c1, q, done, e2);
      result := result[e1 + e2 := Coef(result, e1 + e2) + c1 * q[e2]];
      rest := rest - {e2};
      done := done + {e2};
    }
    assert done == q.Keys;
    RestrictAll(q);
  }

  /** `__mul__` for two polynomials: accumulate c1 * c2 at e1 + e2 over all pairs, then clean. */
  method Mul(p: Polynomial, q: Polynomial) returns (r: Polynomial)
    ensures r == Product(p, q)
  {
    var resultTerms: map<nat, real> := map[];
    var rest := p.Keys;
    ghost var done: set<nat> := {};
    MulOuterEntry(p, q);
    while rest != {}
      invariant done + rest == p.Keys && done !! rest
      invariant Denotes(resultTerms, Product(Restrict(p, done), q))
      decreases rest
    {
      var e1 :| e1 in rest;
      resultTerms := AccumulateTermProduct(resultTerms, Product(Restrict(p, done), q), e1, p[e1], q);
      MulOuterStep(p, done, e1, q);
      rest := rest - {e1};
      done := done + {e1};
    }
    r := New(resultTerms);
    assert done == p.Keys;
    RestrictAll(p);
    Ext(r, Product(p, q));
  }

  // ---------------------------------------------------------------------------
  // `power` (polynomial.py:170-199)
  // ---------------------------------------------------------------------------

  /** p multiplied by itself n times; p^0 is the constant 1, also for the zero polynomial. */
  ghost function Pow(p: Polynomial, n: nat): Polynomial {
    if n == 0 then One() else Product(p, Pow(p, n - 1))
  }

  lemma {:induction false} PowAdd(p: Polynomial, m: nat, n: nat)
    ensures Pow(p, m + n) == Product(Pow(p, m), Pow(p, n))
  {
    if m == 0 {
      ProductOne(Pow(p, n));
    } else {
      PowAdd(p, m - 1, n);
      ProductAssoc(p, Pow(p, m - 1), Pow(p, n));
    }
  }

  /** (b * b)^m == b^(2m): what squaring the base does. */
  lemma {:induction false} PowSquare(b: Polynomial, m: nat)
    ensures Pow(Product(b, b), m) == Pow(b, 2 * m)
  {
    if m > 0 {
      PowSquare(b, m - 1);
      ProductAssoc(b, b, Pow(b, 2 * (m - 1)));
      assert Pow(b, 2 * m) == Product(b, Product(b, Pow(b, 2 * m - 2)));
    }
  }

  /** The squaring loop keeps result * base^n equal to p^N. */
  lemma PowerStep(result: Polynomial, base: Polynomial, n: nat)
    requires n > 0
    ensures n % 2 == 1 ==> Product(Product(result, base), Pow(Product(base, base), n / 2)) == Product(result, Pow(base, n))
    ensures n % 2 == 0 ==> Product(result, Pow(Product(base, base), n / 2)) == Product(result, Pow(base, n))
  {
    PowSquare(base, n / 2);
    if n % 2 == 1 {
      assert Pow(base, n) == Product(base, Pow(base, 2 * (n / 2)));
      ProductAssoc(result, base, Pow(base, 2 * (n / 2)));
    } else {
      assert 2 * (n / 2) == n;
    }
  }

  /**
   * `power(n)`: a negative exponent is a ValueError; n == 0 gives the constant 1, n == 1
   * the polynomial itself, and otherwise the squaring loop runs.
   */
  method Power(p: Polynomial, n: int) returns (r: Result<Polynomial>)
    ensures n < 0 ==> r == Err(ValueError)
    ensures n >= 0 ==> r == Ok(Pow(p, n))
  {
    if n < 0 {
      return Err(ValueError);
    }
    if n == 0 {
      return Ok(One());
    }
    if n == 1 {
      ProductOne(p);
      return Ok(p);
    }
    var result := One();
    var base := p;
    var k: nat := n;
    ProductOne(Pow(p, n));
    while k > 0
      invariant Product(result, Pow(base, k)) == Pow(p, n)
      decreases k
    {
      PowerStep(result, base, k);
      if k % 2 == 1 {
        result := Mul(result, base);
      }
      base := Mul(base, base);
      k := k / 2;
    }
    ProductOne(result);
    return Ok(result);
  }
}
