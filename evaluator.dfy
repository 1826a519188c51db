/**
 * `ASTEvaluator.evaluate` (evaluator.py:9-45): a leaf becomes its polynomial over 1, a
 * binary node applies the fraction operator it names to its evaluated children, and a
 * unary minus negates the numerator of its evaluated operand.
 */
module Evaluation {
  import opened Results
  import opened Polynomials
  import opened Products
  import opened Fractional
  import opened Ast

  /** The fraction operator a binary node names (evaluator.py:22-31); ValueError for any other. */
  ghost function Apply(op: string, a: FractionalPolynomial, b: FractionalPolynomial): Result<FractionalPolynomial> {
    if op == "+" then FracAdd(a, b)
    else if op == "-" then FracSub(a, b)
    else if op == "*" then FracMul(a, b)
    else if op == "/" then FracDiv(a, b)
    else Err(ValueError)
  }

  /** `FractionalPolynomial(numerator * -1, denominator)` (evaluator.py:40). */
  ghost function Negation(a: FractionalPolynomial): Result<FractionalPolynomial> {
    Make(Scale(a.numerator, -1.0), a.denominator)
  }

  /** What `evaluate(node)` returns (evaluator.py:9-45): children first, left before right. */
  ghost function Eval(n: Node): Result<FractionalPolynomial> {
    match n
    case PolynomialNode(p) => Make(p, One())
    case BinOpNode(op, l, r) =>
      var a :- Eval(l);
      var b :- Eval(r);
      Apply(op, a, b)
    case UnaryOpNode(op, e) =>
      var a :- Eval(e);
      if op == "-" then Negation(a) else Err(ValueError)
  }

  /** `evaluate` (evaluator.py:9-45). */
  method Evaluate(node: Node) returns (r: Result<FractionalPolynomial>)
    ensures r == Eval(node)
  {
    match node
    case PolynomialNode(p) =>
      r := Fractional.New(p, One());
    case BinOpNode(op, left, right) =>
      var leftVal :- Evaluate(left);
      var rightVal :- Evaluate(right);
      if op == "+" {
        r := Plus(leftVal, rightVal);
      } else if op == "-" {
        r := Minus(leftVal, rightVal);
      } else if op == "*" {
        r := Times(leftVal, rightVal);
      } else if op == "/" {
        r := Divide(leftVal, rightVal);
      } else {
        r := Err(ValueError);
      }
    case UnaryOpNode(op, operand) =>
      var operandVal :- Evaluate(operand);
      if op == "-" {
        var negated := ScalarMul(operandVal.numerator, -1.0);
        r := Fractional.New(negated, operandVal.denominator);
      } else {
        r := Err(ValueError);
      }
  }

  // ---------------------------------------------------------------------------
  // Properties
  // ---------------------------------------------------------------------------

  /** A leaf evaluates to its polynomial over 1, already in normal form. */
  lemma EvalLeaf(p: Polynomial)
    ensures Eval(PolynomialNode(p)) == Ok(FractionalPolynomial(p, One()))
    ensures Normal(Eval(PolynomialNode(p)).value)
  {
    LiftIsOverOne(p);
    SimplifyNormal(p, One());
  }

  /** Every operand in normal form has a normal negation whose value is minus the operand's. */
  lemma NegationNormal(a: FractionalPolynomial)
    requires Normal(a)
    ensures Negation(a).Ok? && Normal(Negation(a).value)
    ensures SameValue(Negation(a).value.numerator, Negation(a).value.denominator, Neg(a.numerator), a.denominator)
  {
    SimplifyNormal(Scale(a.numerator, -1.0), a.denominator);
    SimplifyValue(Scale(a.numerator, -1.0), a.denominator);
    NegIsScale(a.numerator);
  }

  /**
   * On normal operands a known operator succeeds unless it divides by zero, an unknown one
   * fails, every failure is a ValueError, and every result is normal.
   */
  lemma ApplyNormal(op: string, a: FractionalPolynomial, b: FractionalPolynomial)
    requires Normal(a) && Normal(b)
    ensures Apply(op, a, b).Ok? <==> IsBinaryOperator(op) && !(op == "/" && b.numerator == Zero)
    ensures Apply(op, a, b).Ok? ==> Normal(Apply(op, a, b).value)
    ensures Apply(op, a, b).Err? ==> Apply(op, a, b).error == ValueError
  {
    OperatorsTotal(a, b);
    if op == "+" {
      assert Apply(op, a, b) == FracAdd(a, b);
    } else if op == "-" {
      assert Apply(op, a, b) == FracSub(a, b);
    } else if op == "*" {
      assert Apply(op, a, b) == FracMul(a, b);
    } else if op == "/" {
      assert Apply(op, a, b) == FracDiv(a, b);
    }
  }

  lemma EvalBinOp(op: string, l: Node, r: Node)
    requires Eval(l).Ok? && Eval(r).Ok?
    ensures Eval(BinOpNode(op, l, r)) == Apply(op, Eval(l).value, Eval(r).value)
  {
  }

  lemma EvalUnaryOp(op: string, e: Node)
    requires Eval(e).Ok?
    ensures Eval(UnaryOpNode(op, e)) == if op == "-" then Negation(Eval(e).value) else Err(ValueError)
  {
  }

  /** Every branch constructs a `FractionalPolynomial`, so every successful result is in normal form. */
  lemma {:induction false} EvalNormal(n: Node)
    ensures Eval(n).Ok? ==> Normal(Eval(n).value)
  {
    match n
    case PolynomialNode(p) =>
      EvalLeaf(p);
    case BinOpNode(op, l, r) =>
      EvalNormal(l);
      EvalNormal(r);
      if Eval(l).Ok? && Eval(r).Ok? {
        ApplyNormal(op, Eval(l).value, Eval(r).value);
        EvalBinOp(op, l, r);
      }
    case UnaryOpNode(op, e) =>
      EvalNormal(e);
      if Eval(e).Ok? {
        NegationNormal(Eval(e).value);
        EvalUnaryOp(op, e);
      }
  }

  /** Some `/` in the tree has a right operand that evaluates to zero. */
  ghost predicate DividesByZero(n: Node) {
    match n
    case PolynomialNode(_) => false
    case BinOpNode(op, l, r) =>
      || DividesByZero(l) || DividesByZero(r)
      || (op == "/" && Eval(r).Ok? && Eval(r).value.numerator == Zero)
    case UnaryOpNode(_, e) => DividesByZero(e)
  }

  /**
   * On a tree built through the validating constructors the unknown-operator branches
   * (evaluator.py:30-31, 41-42) are never reached: evaluation fails exactly when some
   * division has a zero divisor, and then with ValueError.
   */
  lemma {:induction false} EvalFailsIff(n: Node)
    requires WellFormed(n)
    ensures Eval(n).Err? <==> DividesByZero(n)
    ensures Eval(n).Err? ==> Eval(n).error == ValueError
  {
    match n
    case PolynomialNode(p) =>
      EvalLeaf(p);
    case BinOpNode(op, l, r) =>
      EvalFailsIff(l);
      EvalFailsIff(r);
      EvalNormal(l);
      EvalNormal(r);
      if Eval(l).Ok? && Eval(r).Ok? {
        ApplyNormal(op, Eval(l).value, Eval(r).value);
      }
    case UnaryOpNode(op, e) =>
      EvalFailsIff(e);
      EvalNormal(e);
      if Eval(e).Ok? {
        NegationNormal(Eval(e).value);
      }
  }

  /** `/` whose right operand evaluates to zero raises ValueError (evaluator.py:28-29). */
  lemma DivisionByZero(l: Node, r: Node)
    requires Eval(l).Ok? && Eval(r).Ok? && Eval(r).value.numerator == Zero
    ensures Eval(BinOpNode("/", l, r)) == Err(ValueError)
  {
  }

  /** Unary minus yields the negated value of its operand (evaluator.py:33-40). */
  lemma EvalNegation(e: Node)
    requires Eval(e).Ok?
    ensures Eval(UnaryOpNode("-", e)).Ok?
    ensures var v, w := Eval(e).value, Eval(UnaryOpNode("-", e)).value;
      SameValue(w.numerator, w.denominator, Neg(v.numerator), v.denominator)
  {
    EvalNormal(e);
    NegationNormal(Eval(e).value);
  }

  // ---------------------------------------------------------------------------
  // The value a tree denotes
  // ---------------------------------------------------------------------------

  /**
   * The rational function a tree denotes, as an unreduced numerator and denominator:
   * each operator cross-multiplies as the source's operators do, but nothing is normalised.
   */
  ghost function Denote(n: Node): (Polynomial, Polynomial) {
    match n
    case PolynomialNode(p) => (p, One())
    case BinOpNode(op, l, r) =>
      var (ln, ld) := Denote(l);
      var (rn, rd) := Denote(r);
      if op == "+" then (Sum(Product(ln, rd), Product(rn, ld)), Product(ld, rd))
      else if op == "-" then (Sub(Product(ln, rd), Product(rn, ld)), Product(ld, rd))
      else if op == "*" then (Product(ln, rn), Product(ld, rd))
      else (Product(ln, rd), Product(ld, rn))
    case UnaryOpNode(_, e) =>
      var (en, ed) := Denote(e);
      (Neg(en), ed)
  }

  /** One binary node: the evaluated fraction has the value its operator denotes. */
  lemma ApplyDenotes(op: string, a: FractionalPolynomial, b: FractionalPolynomial,
                     ln: Polynomial, ld: Polynomial, rn: Polynomial, rd: Polynomial)
    requires Normal(a) && Normal(b) && ld != Zero && rd != Zero
    requires SameValue(a.numerator, a.denominator, ln, ld) && SameValue(b.numerator, b.denominator, rn, rd)
    requires Apply(op, a, b).Ok?
    ensures var v := Apply(op, a, b).value;
      var (dn, dd) :=
        if op == "+" then (Sum(Product(ln, rd), Product(rn, ld)), Product(ld, rd))
        else if op == "-" then (Sub(Product(ln, rd), Product(rn, ld)), Product(ld, rd))
        else if op == "*" then (Product(ln, rn), Product(ld, rd))
        else (Product(ln, rd), Product(ld, rn));
      dd != Zero && SameValue(v.numerator, v.denominator, dn, dd)
  {
    var an, ad, bn, bd := a.numerator, a.denominator, b.numerator, b.denominator;
    ProductZeroIff(ad, bd);
    ProductZeroIff(ld, rd);
    if op == "+" {
      SimplifyValue(Sum(Product(an, bd), Product(bn, ad)), Product(ad, bd));
      SumRespectsValue(an, ad, bn, bd, ln, ld, rn, rd);
      SameValueTrans(Apply(op, a, b).value.numerator, Apply(op, a, b).value.denominator,
                     Sum(Product(an, bd), Product(bn, ad)), Product(ad, bd),
                     Sum(Product(ln, rd), Product(rn, ld)), Product(ld, rd));
    } else if op == "-" {
      SimplifyValue(Sub(Product(an, bd), Product(bn, ad)), Product(ad, bd));
      SubRespectsValue(an, ad, bn, bd, ln, ld, rn, rd);
      SameValueTrans(Apply(op, a, b).value.numerator, Apply(op, a, b).value.denominator,
                     Sub(Product(an, bd), Product(bn, ad)), Product(ad, bd),
                     Sub(Product(ln, rd), Product(rn, ld)), Product(ld, rd));
    } else if op == "*" {
      SimplifyValue(Product(an, bn), Product(ad, bd));
      MulRespectsValue(an, ad, bn, bd, ln, ld, rn, rd);
      SameValueTrans(Apply(op, a, b).value.numerator, Apply(op, a, b).value.denominator,
                     Product(an, bn), Product(ad, bd), Product(ln, rn), Product(ld, rd));
    } else {
      assert op == "/" && bn != Zero;
      ProductZeroIff(bn, rd);
      ProductZeroIff(rn, bd);
      ProductZeroIff(ad, bn);
      ProductZeroIff(ld, rn);
      SimplifyValue(Product(an, bd), Product(ad, bn));
      DivRespectsValue(an, ad, bn, bd, ln, ld, rn, rd);
      SameValueTrans(Apply(op, a, b).value.numerator, Apply(op, a, b).value.denominator,
                     Product(an, bd), Product(ad, bn), Product(ln, rd), Product(ld, rn));
    }
  }

  /**
   * Evaluation computes the value the tree denotes: a successful result equals, as a
   * rational function, the unreduced cross-multiplied fraction of the tree.
   */
  lemma {:induction false} EvalDenotes(n: Node)
    requires Eval(n).Ok?
    ensures Denote(n).1 != Zero
    ensures SameValue(Eval(n).value.numerator, Eval(n).value.denominator, Denote(n).0, Denote(n).1)
  {
    match n
    case PolynomialNode(p) =>
      EvalLeaf(p);
      ProductComm(p, One());
    case BinOpNode(op, l, r) =>
      EvalDenotes(l);
      EvalDenotes(r);
      EvalNormal(l);
      EvalNormal(r);
      EvalBinOp(op, l, r);
      var (ln, ld) := Denote(l);
      var (rn, rd) := Denote(r);
      ApplyDenotes(op, Eval(l).value, Eval(r).value, ln, ld, rn, rd);
    case UnaryOpNode(op, e) =>
      EvalDenotes(e);
      EvalNormal(e);
      EvalUnaryOp(op, e);
      var v := Eval(e).value;
      NegationNormal(v);
      NegRespectsValue(v.numerator, v.denominator, Denote(e).0, Denote(e).1);
      SameValueTrans(Negation(v).value.numerator, Negation(v).value.denominator,
                     Neg(v.numerator), v.denominator, Neg(Denote(e).0), Denote(e).1);
  }
}
