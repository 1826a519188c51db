/**
 * The syntax tree of ast_nodes.py: a leaf holding a polynomial, a binary operator node
 * and a unary operator node, with the constructors' operator validation and `__str__`.
 */
module Ast {
  import opened Results
  import opened Polynomials
  import opened Text
  import opened Rendering

  /** `PolynomialNode`, `BinOpNode` and `UnaryOpNode` (ast_nodes.py:10-43). */
  datatype Node =
    | PolynomialNode(poly: Polynomial)
    | BinOpNode(op: string, left: Node, right: Node)
    | UnaryOpNode(op: string, operand: Node)

  /** The operators `BinOpNode` accepts (ast_nodes.py:24). */
  predicate IsBinaryOperator(op: string) {
    op == "+" || op == "-" || op == "*" || op == "/"
  }

  /** The operators `UnaryOpNode` accepts (ast_nodes.py:37). */
  predicate IsUnaryOperator(op: string) {
    op == "-"
  }

  /** `BinOpNode(operator, left, right)` (ast_nodes.py:23-28): ValueError for any other operator. */
  function MakeBinOp(op: string, left: Node, right: Node): (r: Result<Node>)
    ensures r.Ok? <==> IsBinaryOperator(op)
    ensures r.Ok? ==> r.value == BinOpNode(op, left, right)
    ensures r.Err? ==> r.error == ValueError
  {
    if IsBinaryOperator(op) then Ok(BinOpNode(op, left, right)) else Err(ValueError)
  }

  /** `UnaryOpNode(operator, operand)` (ast_nodes.py:36-40): ValueError for anything but '-'. */
  function MakeUnaryOp(op: string, operand: Node): (r: Result<Node>)
    ensures r.Ok? <==> IsUnaryOperator(op)
    ensures r.Ok? ==> r.value == UnaryOpNode(op, operand)
    ensures r.Err? ==> r.error == ValueError
  {
    if IsUnaryOperator(op) then Ok(UnaryOpNode(op, operand)) else Err(ValueError)
  }

  /** Every node of the tree carries an operator its constructor accepts. */
  predicate WellFormed(n: Node) {
    match n
    case PolynomialNode(_) => true
    case BinOpNode(op, l, r) => IsBinaryOperator(op) && WellFormed(l) && WellFormed(r)
    case UnaryOpNode(op, e) => IsUnaryOperator(op) && WellFormed(e)
  }

  /** Trees built only through the validating constructors are well formed. */
  lemma ConstructorsWellFormed(op: string, a: Node, b: Node)
    requires WellFormed(a) && WellFormed(b)
    ensures MakeBinOp(op, a, b).Ok? ==> WellFormed(MakeBinOp(op, a, b).value)
    ensures MakeUnaryOp(op, a).Ok? ==> WellFormed(MakeUnaryOp(op, a).value)
  {
  }

  /** `__str__` (ast_nodes.py:17-18, 30-31, 42-43). */
  function NodeText(fmt: real -> string, n: Node): string {
    match n
    case PolynomialNode(p) => Render(fmt, p)
    case BinOpNode(op, l, r) => "(" + NodeText(fmt, l) + " " + op + " " + NodeText(fmt, r) + ")"
    case UnaryOpNode(op, e) => op + NodeText(fmt, e)
  }

  // ---------------------------------------------------------------------------
  // The text is fully parenthesised
  // ---------------------------------------------------------------------------

  predicate NoParens(s: string) {
    '(' !in s && ')' !in s
  }

  /** A coefficient formatter that writes no parentheses, as `str(Fraction)` does. */
  ghost predicate NoParenFormatter(fmt: real -> string) {
    forall c: real :: NoParens(fmt(c))
  }

  /** The number of binary nodes in the tree. */
  function BinaryCount(n: Node): nat {
    match n
    case PolynomialNode(_) => 0
    case BinOpNode(_, l, r) => 1 + BinaryCount(l) + BinaryCount(r)
    case UnaryOpNode(_, e) => BinaryCount(e)
  }

  lemma NoParensConcat(a: string, b: string)
    ensures NoParens(a + b) <==> NoParens(a) && NoParens(b)
  {
    if NoParens(a + b) {
      forall i | 0 <= i < |a| ensures a[i] != '(' && a[i] != ')' {
        assert a[i] == (a + b)[i];
      }
      forall i | 0 <= i < |b| ensures b[i] != '(' && b[i] != ')' {
        assert b[i] == (a + b)[|a| + i];
      }
    }
  }

  lemma NoParensDrop(a: string)
    requires NoParens(a) && a != ""
    ensures NoParens(a[1..])
  {
    assert a == [a[0]] + a[1..];
    NoParensConcat([a[0]], a[1..]);
  }

  lemma TermTextNoParens(fmt: real -> string, e: nat, c: real)
    requires NoParenFormatter(fmt)
    ensures NoParens(TermText(fmt, e, c))
  {
    assert NoParens(fmt(c));
    if e > 1 {
      var d := NatText(e);
      assert forall i :: 0 <= i < |d| ==> IsDigit(d[i]);
      NoParensConcat("x^", d);
    }
    var v := VarText(e);
    NoParensConcat(fmt(c), "*");
    NoParensConcat(fmt(c) + "*", v);
    NoParensConcat("-", v);
  }

  lemma {:induction false} JoinNoParens(ts: seq<string>, first: bool)
    requires forall i :: 0 <= i < |ts| ==> NoParens(ts[i])
    ensures NoParens(Join(ts, first))
    decreases |ts|
  {
    if ts != [] {
      JoinNoParens(ts[1..], false);
      JoinNoParens(ts[1..], first);
      var t := ts[0];
      if t != "" {
        var content := if t[0] == '-' then t[1..] else t;
        assert NoParens(t);
        if t[0] == '-' {
          NoParensDrop(t);
        }
        NoParensConcat("-", content);
        NoParensConcat(" - ", content);
        NoParensConcat(" + ", content);
        NoParensConcat(Piece(t, first), Join(ts[1..], false));
      }
    }
  }

  /** With such a formatter a polynomial's text has no parentheses. */
  lemma RenderNoParens(fmt: real -> string, p: Polynomial)
    requires NoParenFormatter(fmt)
    ensures NoParens(Render(fmt, p))
  {
    var ts := TermTexts(fmt, p);
    var ks := Descending(p.Keys);
    forall i | 0 <= i < |ts| ensures NoParens(ts[i]) {
      TermTextNoParens(fmt, ks[i], p[ks[i]]);
    }
    JoinNoParens(ts, true);
  }

  /** A text without parentheses counts none. */
  lemma NoParensCount(s: string)
    requires NoParens(s)
    ensures multiset(s)['('] == 0 && multiset(s)[')'] == 0
  {
  }

  /** A binary node's text holds its own pair of parentheses and those of its operands. */
  lemma BinaryTextParens(sl: string, op: string, sr: string)
    requires NoParens(op)
    ensures var t := "(" + sl + " " + op + " " + sr + ")";
      && multiset(t)['('] == multiset(sl)['('] + multiset(sr)['('] + 1
      && multiset(t)[')'] == multiset(sl)[')'] + multiset(sr)[')'] + 1
  {
    NoParensCount(op);
    NoParensCount(" ");
    var t := "(" + sl + " " + op + " " + sr + ")";
    assert multiset(t) == multiset("(") + multiset(sl) + multiset(" ") + multiset(op) + multiset(" ") + multiset(sr) + multiset(")");
  }

  /** A unary node's text holds the parentheses of its operand. */
  lemma UnaryTextParens(op: string, se: string)
    requires NoParens(op)
    ensures multiset(op + se)['('] == multiset(se)['('] && multiset(op + se)[')'] == multiset(se)[')']
  {
    NoParensCount(op);
  }

  /**
   * A well-formed node's text is fully parenthesised: it holds one '(' and one ')' for
   * every binary node, and no others.
   */
  lemma {:induction false} NodeTextParens(fmt: real -> string, n: Node)
    requires NoParenFormatter(fmt) && WellFormed(n)
    ensures multiset(NodeText(fmt, n))['('] == BinaryCount(n)
    ensures multiset(NodeText(fmt, n))[')'] == BinaryCount(n)
    decreases n, 1
  {
    match n
    case PolynomialNode(p) =>
      RenderNoParens(fmt, p);
      NoParensCount(Render(fmt, p));
    case BinOpNode(op, l, r) =>
      BinaryNodeParens(fmt, op, l, r);
    case UnaryOpNode(op, e) =>
      UnaryNodeParens(fmt, op, e);
  }

  lemma {:induction false} BinaryNodeParens(fmt: real -> string, op: string, l: Node, r: Node)
    requires NoParenFormatter(fmt) && IsBinaryOperator(op) && WellFormed(l) && WellFormed(r)
    ensures multiset(NodeText(fmt, BinOpNode(op, l, r)))['('] == 1 + BinaryCount(l) + BinaryCount(r)
    ensures multiset(NodeText(fmt, BinOpNode(op, l, r)))[')'] == 1 + BinaryCount(l) + BinaryCount(r)
    decreases BinOpNode(op, l, r), 0
  {
    var sl, sr := NodeText(fmt, l), NodeText(fmt, r);
    NodeTextParens(fmt, l);
    NodeTextParens(fmt, r);
    BinaryTextParens(sl, op, sr);
    assert NodeText(fmt, BinOpNode(op, l, r)) == "(" + sl + " " + op + " " + sr + ")";
  }

  lemma {:induction false} UnaryNodeParens(fmt: real -> string, op: string, e: Node)
    requires NoParenFormatter(fmt) && IsUnaryOperator(op) && WellFormed(e)
    ensures multiset(NodeText(fmt, UnaryOpNode(op, e)))['('] == BinaryCount(e)
    ensures multiset(NodeText(fmt, UnaryOpNode(op, e)))[')'] == BinaryCount(e)
    decreases UnaryOpNode(op, e), 0
  {
    NodeTextParens(fmt, e);
    UnaryTextParens(op, NodeText(fmt, e));
  }
}
