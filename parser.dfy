/**
 * The recursive-descent parser of parser.py: a token list and an index into it,
 *
 *   expression -> term (('+' | '-') term)*
 *   term       -> factor (('*' | '/' | MUL_IMPLICIT) factor)*
 *   factor     -> '-' factor | '(' expression ')' | NUMBER | 'x' ('^' NUMBER)?
 *
 * The functions below state what each rule yields from a token position (the node and
 * the position after it, or the error raised); the class `Parser` is the source's object,
 * with methods that advance its index and are proved to agree with those functions.
 */
module Parsing {
  import opened Results
  import opened Text
  import opened Polynomials
  import opened Tokenizer
  import opened Ast

  // ---------------------------------------------------------------------------
  // Number and exponent texts (parser.py:104-112, 123-128)
  // ---------------------------------------------------------------------------

  /**
   * The coefficient of a NUMBER token (parser.py:104-112): with a '/', the text must split
   * into exactly two integers, a zero denominator raising ZeroDivisionError (which the
   * `except` does not catch); otherwise a single integer. Any malformed text, or a missing
   * value, is a ValueError.
   */
  function NumberCoefficient(value: Option<string>): Result<real> {
    match value
    case None => Err(ValueError)
    case Some(v) => FractionValue(v)
  }

  /** The exponent after '^' (parser.py:123-128): a non-negative integer, else ValueError. */
  function ExponentValue(value: Option<string>): (r: Result<nat>)
    ensures r.Err? ==> r.error == ValueError
  {
    match value
    case None => Err(ValueError)
    case Some(v) => ExponentText(v)
  }

  // ---------------------------------------------------------------------------
  // What each rule yields from a position
  // ---------------------------------------------------------------------------

  /** `tokens[i]`, an IndexError past the end (parser.py:22-24). */
  function At(ts: seq<Token>, i: nat): (r: Result<Token>)
    ensures r.Ok? <==> i < |ts|
    ensures r.Ok? ==> r.value == ts[i]
    ensures r.Err? ==> r.error == IndexError
  {
    if i < |ts| then Ok(ts[i]) else Err(IndexError)
  }

  /** `eat(kind)` (parser.py:26-31): the position after a matching token, else SyntaxError. */
  function EatAt(ts: seq<Token>, i: nat, kind: TokenType): (r: Result<nat>)
    ensures r.Ok? <==> i < |ts| && ts[i].kind == kind
    ensures r.Ok? ==> r.value == i + 1
    ensures r.Err? ==> r.error == (if i < |ts| then SyntaxError else IndexError)
  {
    var t :- At(ts, i);
    if t.kind == kind then Ok(i + 1) else Err(SyntaxError)
  }

  /** The list ends with an EOF token, as every list the tokenizer writes does. */
  predicate EofEnded(ts: seq<Token>) {
    |ts| > 0 && ts[|ts| - 1].kind == Eof
  }

  /** On a list that ends with EOF, a rule never reads past it: it ends before the EOF's end and never raises IndexError. */
  predicate InBounds<T>(ts: seq<Token>, r: Result<(T, nat)>) {
    (r.Ok? ==> r.value.1 < |ts|) && (r.Err? ==> r.error != IndexError)
  }

  predicate IsAdditive(t: Token) {
    t.kind == Operator && (t.value == Some("+") || t.value == Some("-"))
  }

  /** The loop condition of parser.py:59-60. */
  predicate IsMultiplicative(t: Token) {
    && (t.kind == Operator || t.kind == MulImplicit)
    && (t.value == Some("*") || t.value == Some("/") || t.kind == MulImplicit)
  }

  /** The operator a multiplicative token puts in its node: `*` for MUL_IMPLICIT (parser.py:69-72). */
  function MultiplicativeOp(t: Token): (op: string)
    requires IsMultiplicative(t)
    ensures op == "*" || op == "/"
    ensures t.kind == MulImplicit ==> op == "*"
  {
    if t.kind == MulImplicit then "*" else t.value.value
  }

  /** `expression` (parser.py:40-50). */
  function ParseExpression(ts: seq<Token>, i: nat): (r: Result<(Node, nat)>)
    requires i <= |ts|
    ensures r.Ok? ==> i < r.value.1 <= |ts| && WellFormed(r.value.0)
    ensures EofEnded(ts) && i < |ts| ==> InBounds(ts, r)
    decreases |ts| - i, 2
  {
    var first :- ParseTerm(ts, i);
    ExpressionLoop(ts, first.0, first.1)
  }

  /** The `while` loop of parser.py:44-48, from position i with the node built so far. */
  function ExpressionLoop(ts: seq<Token>, node: Node, i: nat): (r: Result<(Node, nat)>)
    requires i <= |ts| && WellFormed(node)
    ensures r.Ok? ==> i <= r.value.1 <= |ts| && WellFormed(r.value.0)
    ensures EofEnded(ts) && i < |ts| ==> InBounds(ts, r)
    decreases |ts| - i, 2
  {
    var t :- At(ts, i);
    if IsAdditive(t) then
      var right :- ParseTerm(ts, i + 1);
      ExpressionLoop(ts, BinOpNode(t.value.value, node, right.0), right.1)
    else Ok((node, i))
  }

  /** `term` (parser.py:52-78). */
  function ParseTerm(ts: seq<Token>, i: nat): (r: Result<(Node, nat)>)
    requires i <= |ts|
    ensures r.Ok? ==> i < r.value.1 <= |ts| && WellFormed(r.value.0)
    ensures EofEnded(ts) && i < |ts| ==> InBounds(ts, r)
    decreases |ts| - i, 1
  {
    var first :- ParseFactor(ts, i);
    TermLoop(ts, first.0, first.1)
  }

  /** The `while` loop of parser.py:59-76. */
  function TermLoop(ts: seq<Token>, node: Node, i: nat): (r: Result<(Node, nat)>)
    requires i <= |ts| && WellFormed(node)
    ensures r.Ok? ==> i <= r.value.1 <= |ts| && WellFormed(r.value.0)
    ensures EofEnded(ts) && i < |ts| ==> InBounds(ts, r)
    decreases |ts| - i, 1
  {
    var t :- At(ts, i);
    if IsMultiplicative(t) then
      var right :- ParseFactor(ts, i + 1);
      TermLoop(ts, BinOpNode(MultiplicativeOp(t), node, right.0), right.1)
    else Ok((node, i))
  }

  /** One turn of the `expression` loop. */
  lemma ExpressionLoopStep(ts: seq<Token>, node: Node, i: nat)
    requires i < |ts| && WellFormed(node) && IsAdditive(ts[i]) && ParseTerm(ts, i + 1).Ok?
    ensures var right := ParseTerm(ts, i + 1).value;
      ExpressionLoop(ts, node, i) == ExpressionLoop(ts, BinOpNode(ts[i].value.value, node, right.0), right.1)
  {
  }

  /** The optional `^ NUMBER` after a variable (parser.py:117-130): the exponent and the position after it. */
  function ExponentAt(ts: seq<Token>, i: nat): (r: Result<(nat, nat)>)
    requires i <= |ts|
    ensures r.Ok? ==> i <= r.value.1 <= |ts|
    ensures EofEnded(ts) && i < |ts| ==> InBounds(ts, r)
  {
    var t :- At(ts, i);
    if t.kind == Operator && t.value == Some("^") then
      var expToken :- At(ts, i + 1);
      if expToken.kind == Number then
        var e :- ExponentValue(expToken.value);
        Ok((e, i + 2))
      else Err(SyntaxError)
    else Ok((1, i))
  }

  /** `factor` (parser.py:80-136). */
  function ParseFactor(ts: seq<Token>, i: nat): (r: Result<(Node, nat)>)
    requires i <= |ts|
    ensures r.Ok? ==> i < r.value.1 <= |ts| && WellFormed(r.value.0)
    ensures EofEnded(ts) && i < |ts| ==> InBounds(ts, r)
    decreases |ts| - i, 0
  {
    var t :- At(ts, i);
    if t.kind == Operator && t.value == Some("-") then
      var operand :- ParseFactor(ts, i + 1);
      Ok((UnaryOpNode("-", operand.0), operand.1))
    else if t.kind == LParen then
      var inner :- ParseExpression(ts, i + 1);
      var j :- EatAt(ts, inner.1, RParen);
      Ok((inner.0, j))
    else if t.kind == Number then
      var c :- NumberCoefficient(t.value);
      Ok((PolynomialNode(Const(c)), i + 1))
    else if t.kind == Variable then
      var e :- ExponentAt(ts, i + 1);
      Ok((PolynomialNode(Mono(e.0, 1.0)), e.1))
    else Err(SyntaxError)
  }

  /** `parse` (parser.py:33-38) from position i: an expression that must end at EOF. */
  function ParseFrom(ts: seq<Token>, i: nat): (r: Result<Node>)
    requires i <= |ts|
    ensures r.Ok? ==> WellFormed(r.value)
    ensures r.Ok? ==> var e := ParseExpression(ts, i);
      e.Ok? && e.value.1 < |ts| && ts[e.value.1].kind == Eof && r.value == e.value.0
    ensures var e := ParseExpression(ts, i);
      e.Ok? && e.value.1 < |ts| ==>
        && (ts[e.value.1].kind == Eof ==> r == Ok(e.value.0))
        && (ts[e.value.1].kind != Eof ==> r == Err(SyntaxError))
    ensures ParseExpression(ts, i).Err? ==> r == Err(ParseExpression(ts, i).error)
    ensures EofEnded(ts) && i < |ts| && r.Err? ==> r.error != IndexError
  {
    var e :- ParseExpression(ts, i);
    var t :- At(ts, e.1);
    if t.kind != Eof then Err(SyntaxError) else Ok(e.0)
  }

  /** What `Parser(tokens).parse()` returns. */
  function Parse(ts: seq<Token>): Result<Node> {
    ParseFrom(ts, 0)
  }

  // ---------------------------------------------------------------------------
  // Numbers and exponents as the tokenizer writes them
  // ---------------------------------------------------------------------------

  lemma DigitsParse(t: string)
    requires |t| > 0 && AllDigits(t)
    ensures IntValue(t) == Some(DigitsValue(t) as int)
  {
    IntValueDigits(t);
  }

  /** A text of digits has no '/'. */
  lemma DigitsNoSlash(t: string)
    requires AllDigits(t)
    ensures '/' !in t
  {
    assert forall j :: 0 <= j < |t| ==> IsDigit(t[j]);
  }

  /** A NUMBER text without '/' is all digits. */
  lemma NumberTextDigits(t: string)
    requires IsNumberText(t) && '/' !in t
    ensures |t| > 0 && AllDigits(t)
  {
    assert forall k :: 0 <= k < |t| ==> t[k] != '/';
  }

  /** A '/' with digits before it is the first one, and with digits after it the only one. */
  lemma OnlySlash(t: string, k: nat)
    requires k < |t| && t[k] == '/' && AllDigits(t[..k]) && AllDigits(t[k + 1..])
    ensures IndexOf(t, '/') == k && '/' !in t[k + 1..]
  {
    var m := IndexOf(t, '/');
    forall n | 0 <= n < m
      ensures t[n] != '/'
    {
      assert t[..m][n] == t[n];
    }
    forall n | 0 <= n < k
      ensures t[n] != '/'
    {
      assert t[..k][n] == t[n] && IsDigit(t[..k][n]);
    }
    DigitsNoSlash(t[k + 1..]);
  }

  /** The parts of a NUMBER text with a '/': digits on both sides of its only '/'. */
  lemma NumberTextParts(t: string)
    requires IsNumberText(t) && '/' in t
    ensures var k := IndexOf(t, '/');
      && 0 < k < |t| - 1
      && AllDigits(t[..k]) && AllDigits(t[k + 1..])
      && '/' !in t[k + 1..]
  {
    var j :| 0 <= j < |t| && t[j] == '/';
    assert !IsDigit(t[j]);
    var k :| 0 < k < |t| - 1 && t[k] == '/' && AllDigits(t[..k]) && AllDigits(t[k + 1..]);
    OnlySlash(t, k);
  }

  /**
   * The coefficient of a NUMBER token the tokenizer wrote: the integer, or the quotient
   * of the two integers, ZeroDivisionError for a zero denominator; never a ValueError.
   */
  lemma NumberTextCoefficient(t: string)
    requires IsNumberText(t)
    ensures '/' !in t ==> NumberCoefficient(Some(t)) == Ok(DigitsValue(t) as real)
    ensures '/' in t ==> var k := IndexOf(t, '/');
      var num, den := DigitsValue(t[..k]), DigitsValue(t[k + 1..]);
      NumberCoefficient(Some(t)) == if den == 0 then Err(ZeroDivisionError) else Ok(num as real / den as real)
  {
    if '/' in t {
      NumberTextParts(t);
      var k := IndexOf(t, '/');
      DigitsParse(t[..k]);
      DigitsParse(t[k + 1..]);
    } else {
      NumberTextDigits(t);
      DigitsParse(t);
    }
  }

  /**
   * The exponent read from a NUMBER token the tokenizer wrote: its integer, and a
   * ValueError for a fraction such as `1/2`. The `exp < 0` check never fires on them.
   */
  lemma NumberTextExponent(t: string)
    requires IsNumberText(t)
    ensures ExponentValue(Some(t)) == if '/' in t then Err(ValueError) else Ok(DigitsValue(t))
  {
    if '/' in t {
      NumberTextParts(t);
      IntValueRejects(t, IndexOf(t, '/'));
    } else {
      NumberTextDigits(t);
      DigitsParse(t);
    }
  }

  /** A NUMBER factor (parser.py:101-112) is the constant its text denotes; `a/0` raises ZeroDivisionError. */
  lemma FactorNumber(ts: seq<Token>, i: nat)
    requires i < |ts| && ts[i].kind == Number && ValueFits(ts[i])
    ensures var t := ts[i].value.value;
      '/' !in t ==> ParseFactor(ts, i) == Ok((PolynomialNode(Const(DigitsValue(t) as real)), i + 1))
    ensures var t := ts[i].value.value;
      '/' in t ==>
        var k := IndexOf(t, '/');
        var num, den := DigitsValue(t[..k]), DigitsValue(t[k + 1..]);
        ParseFactor(ts, i) ==
          if den == 0 then Err(ZeroDivisionError)
          else Ok((PolynomialNode(Const(num as real / den as real)), i + 1))
  {
    NumberTextCoefficient(ts[i].value.value);
  }

  /** A NUMBER factor of digits alone is that integer. */
  lemma FactorDigits(ts: seq<Token>, i: nat, t: string)
    requires i < |ts| && ts[i] == NumberToken(t) && |t| > 0 && AllDigits(t)
    ensures ParseFactor(ts, i) == Ok((PolynomialNode(Const(DigitsValue(t) as real)), i + 1))
  {
    DigitsNoSlash(t);
    FactorNumber(ts, i);
  }

  /**
   * A variable factor (parser.py:114-133): `x` alone is x^1; after `^` there must be a
   * NUMBER, else SyntaxError, and it must be an integer, else ValueError.
   */
  lemma FactorVariable(ts: seq<Token>, i: nat)
    requires i + 1 < |ts| && ts[i].kind == Variable
    ensures !(ts[i + 1].kind == Operator && ts[i + 1].value == Some("^")) ==>
      ParseFactor(ts, i) == Ok((PolynomialNode(Mono(1, 1.0)), i + 1))
    ensures ts[i + 1].kind == Operator && ts[i + 1].value == Some("^") && i + 2 < |ts| ==>
      var e := ts[i + 2];
      && (e.kind != Number ==> ParseFactor(ts, i) == Err(SyntaxError))
      && (e.kind == Number && ValueFits(e) ==>
            ParseFactor(ts, i) ==
              if '/' in e.value.value then Err(ValueError)
              else Ok((PolynomialNode(Mono(DigitsValue(e.value.value), 1.0)), i + 3)))
  {
    if i + 2 < |ts| && ts[i + 2].kind == Number && ValueFits(ts[i + 2]) {
      NumberTextExponent(ts[i + 2].value.value);
    }
  }

  // ---------------------------------------------------------------------------
  // MUL_IMPLICIT parses as an explicit `*`
  // ---------------------------------------------------------------------------

  /** `Token(TOKEN_TYPE_OPERATOR, '*')`. */
  const StarOperator: Token := Token(Operator, Some("*"))

  /** What the parser sees in a token: MUL_IMPLICIT reads as OPERATOR `*`. */
  function View(t: Token): Token {
    if t.kind == MulImplicit then StarOperator else t
  }

  /** Two lists that differ only in MUL_IMPLICIT tokens standing where OPERATOR `*` tokens stand. */
  ghost predicate SameView(ts: seq<Token>, us: seq<Token>) {
    |ts| == |us| && forall k :: 0 <= k < |ts| ==> View(ts[k]) == View(us[k])
  }

  lemma ViewDiffers(a: Token, b: Token)
    requires View(a) == View(b) && a != b
    ensures IsMultiplicative(a) && IsMultiplicative(b)
    ensures MultiplicativeOp(a) == MultiplicativeOp(b) == "*"
    ensures a.kind != Number && a.kind != Variable && a.kind != LParen && a.kind != RParen && a.kind != Eof
    ensures b.kind != Number && b.kind != Variable && b.kind != LParen && b.kind != RParen && b.kind != Eof
    ensures !IsAdditive(a) && !IsAdditive(b)
    ensures a.kind == Operator ==> a == StarOperator
    ensures b.kind == Operator ==> b == StarOperator
  {
  }

  lemma SameViewAt(ts: seq<Token>, us: seq<Token>, i: nat)
    requires SameView(ts, us) && i < |ts|
    ensures View(ts[i]) == View(us[i])
    ensures ts[i] != us[i] ==> IsMultiplicative(ts[i]) && IsMultiplicative(us[i]) && ts[i].kind != RParen
    ensures ts[i] != us[i] ==> MultiplicativeOp(ts[i]) == MultiplicativeOp(us[i])
    ensures ts[i] != us[i] ==> !IsAdditive(ts[i]) && !IsAdditive(us[i])
    ensures ts[i] != us[i] ==> ts[i].kind != Number && us[i].kind != Number && ts[i].kind != Eof && us[i].kind != Eof
    ensures ts[i] != us[i] ==> ts[i].kind != Variable && us[i].kind != Variable
    ensures ts[i] != us[i] ==> ts[i].kind != LParen && us[i].kind != LParen
    ensures ts[i] != us[i] && ts[i].kind == Operator ==> ts[i] == StarOperator
    ensures ts[i] != us[i] && us[i].kind == Operator ==> us[i] == StarOperator
  {
    if ts[i] != us[i] {
      ViewDiffers(ts[i], us[i]);
    }
  }

  lemma {:induction false} SameViewExpression(ts: seq<Token>, us: seq<Token>, i: nat)
    requires SameView(ts, us) && i <= |ts|
    ensures ParseExpression(ts, i) == ParseExpression(us, i)
    decreases |ts| - i, 2
  {
    SameViewTerm(ts, us, i);
    var first := ParseTerm(ts, i);
    if first.Ok? {
      SameViewExpressionLoop(ts, us, first.value.0, first.value.1);
    }
  }

  lemma {:induction false} SameViewExpressionLoop(ts: seq<Token>, us: seq<Token>, node: Node, i: nat)
    requires SameView(ts, us) && i <= |ts| && WellFormed(node)
    ensures ExpressionLoop(ts, node, i) == ExpressionLoop(us, node, i)
    decreases |ts| - i, 2
  {
    if i < |ts| {
      SameViewAt(ts, us, i);
      if IsAdditive(ts[i]) {
        SameViewTerm(ts, us, i + 1);
        var right := ParseTerm(ts, i + 1);
        if right.Ok? {
          SameViewExpressionLoop(ts, us, BinOpNode(ts[i].value.value, node, right.value.0), right.value.1);
        }
      }
    }
  }

  lemma {:induction false} SameViewTerm(ts: seq<Token>, us: seq<Token>, i: nat)
    requires SameView(ts, us) && i <= |ts|
    ensures ParseTerm(ts, i) == ParseTerm(us, i)
    decreases |ts| - i, 1
  {
    SameViewFactor(ts, us, i);
    var first := ParseFactor(ts, i);
    if first.Ok? {
      SameViewTermLoop(ts, us, first.value.0, first.value.1);
    }
  }

  lemma {:induction false} SameViewTermLoop(ts: seq<Token>, us: seq<Token>, node: Node, i: nat)
    requires SameView(ts, us) && i <= |ts| && WellFormed(node)
    ensures TermLoop(ts, node, i) == TermLoop(us, node, i)
    decreases |ts| - i, 1
  {
    if i < |ts| {
      SameViewAt(ts, us, i);
      if IsMultiplicative(ts[i]) {
        SameViewFactor(ts, us, i + 1);
        var right := ParseFactor(ts, i + 1);
        if right.Ok? {
          SameViewTermLoop(ts, us, BinOpNode(MultiplicativeOp(ts[i]), node, right.value.0), right.value.1);
        }
      }
    }
  }

  lemma {:induction false} SameViewFactor(ts: seq<Token>, us: seq<Token>, i: nat)
    requires SameView(ts, us) && i <= |ts|
    ensures ParseFactor(ts, i) == ParseFactor(us, i)
    decreases |ts| - i, 0
  {
    if i < |ts| {
      SameViewAt(ts, us, i);
      var t := ts[i];
      if t.kind == Operator && t.value == Some("-") {
        SameViewFactor(ts, us, i + 1);
      } else if t.kind == LParen {
        SameViewExpression(ts, us, i + 1);
        var inner := ParseExpression(ts, i + 1);
        if inner.Ok? && inner.value.1 < |ts| {
          SameViewAt(ts, us, inner.value.1);
        }
      } else if t.kind == Variable && i + 1 < |ts| {
        SameViewAt(ts, us, i + 1);
        if i + 2 < |ts| {
          SameViewAt(ts, us, i + 2);
        }
      }
    }
  }

  /**
   * A MUL_IMPLICIT token parses exactly like an explicit OPERATOR `*` (parser.py:69-76):
   * lists that differ only in such tokens give the same tree or the same error.
   */
  lemma ImplicitParsesAsStar(ts: seq<Token>, us: seq<Token>)
    requires SameView(ts, us)
    ensures Parse(ts) == Parse(us)
  {
    SameViewExpression(ts, us, 0);
    var e := ParseExpression(ts, 0);
    if e.Ok? && e.value.1 < |ts| {
      SameViewAt(ts, us, e.value.1);
    }
  }

  /** In particular, writing `*` for any one MUL_IMPLICIT token changes nothing. */
  lemma ReplaceImplicit(ts: seq<Token>, k: nat)
    requires k < |ts| && ts[k].kind == MulImplicit
    ensures Parse(ts) == Parse(ts[k := StarOperator])
  {
    ImplicitParsesAsStar(ts, ts[k := StarOperator]);
  }

  /** A loop facing a token that is not its operator stops there. */
  lemma LoopsStop(ts: seq<Token>, node: Node, i: nat)
    requires i < |ts| && WellFormed(node)
    ensures !IsMultiplicative(ts[i]) ==> TermLoop(ts, node, i) == Ok((node, i))
    ensures !IsAdditive(ts[i]) ==> ExpressionLoop(ts, node, i) == Ok((node, i))
  {
  }

  /** A factor followed by no multiplicative operator is the whole term. */
  lemma TermOfFactor(ts: seq<Token>, i: nat, node: Node, j: nat)
    requires i <= |ts| && ParseFactor(ts, i) == Ok((node, j))
    requires j < |ts| && !IsMultiplicative(ts[j])
    ensures ParseTerm(ts, i) == Ok((node, j))
  {
    LoopsStop(ts, node, j);
  }

  /** A term followed by no additive operator is the whole expression. */
  lemma ExpressionOfTerm(ts: seq<Token>, i: nat, node: Node, j: nat)
    requires i <= |ts| && ParseTerm(ts, i) == Ok((node, j))
    requires j < |ts| && !IsAdditive(ts[j])
    ensures ParseExpression(ts, i) == Ok((node, j))
  {
    LoopsStop(ts, node, j);
  }

  /** Two factors joined by one multiplicative operator, and nothing after them, form a term. */
  lemma TermOfProduct(ts: seq<Token>, i: nat, a: Node, j: nat, b: Node, k: nat)
    requires i <= |ts| && ParseFactor(ts, i) == Ok((a, j))
    requires j < |ts| && IsMultiplicative(ts[j]) && ParseFactor(ts, j + 1) == Ok((b, k))
    requires k < |ts| && !IsMultiplicative(ts[k])
    ensures ParseTerm(ts, i) == Ok((BinOpNode(MultiplicativeOp(ts[j]), a, b), k))
  {
    var product := BinOpNode(MultiplicativeOp(ts[j]), a, b);
    assert TermLoop(ts, a, j) == TermLoop(ts, product, k);
    LoopsStop(ts, product, k);
  }

  // ---------------------------------------------------------------------------
  // Shapes of the tree for the inputs the tests use
  // ---------------------------------------------------------------------------

  function NumberToken(s: string): Token {
    Token(Number, Some(s))
  }

  function OperatorToken(s: string): Token {
    Token(Operator, Some(s))
  }

  /** `a - b - c` nests to the left: ((a - b) - c). */
  lemma LeftNested(ts: seq<Token>, i: nat, a: Node, j: nat, b: Node, k: nat, c: Node, m: nat)
    requires i <= |ts| && ParseTerm(ts, i) == Ok((a, j))
    requires j < |ts| && IsAdditive(ts[j]) && ParseTerm(ts, j + 1) == Ok((b, k))
    requires k < |ts| && IsAdditive(ts[k]) && ParseTerm(ts, k + 1) == Ok((c, m))
    requires m < |ts| && !IsAdditive(ts[m])
    ensures ParseExpression(ts, i) ==
      Ok((BinOpNode(ts[k].value.value, BinOpNode(ts[j].value.value, a, b), c), m))
  {
    var left := BinOpNode(ts[j].value.value, a, b);
    ExpressionLoopStep(ts, a, j);
    ExpressionLoopStep(ts, left, k);
    LoopsStop(ts, BinOpNode(ts[k].value.value, left, c), m);
  }

  /** `-x^n` negates the power, not the base: -(x^n). */
  lemma UnaryWrapsPower(ts: seq<Token>, i: nat, t: string)
    requires i + 3 < |ts| && ts[i] == OperatorToken("-") && ts[i + 1].kind == Variable
    requires ts[i + 2] == OperatorToken("^") && ts[i + 3] == NumberToken(t) && |t| > 0 && AllDigits(t)
    ensures ParseFactor(ts, i) == Ok((UnaryOpNode("-", PolynomialNode(Mono(DigitsValue(t), 1.0))), i + 4))
  {
    DigitsNoSlash(t);
    assert ValueFits(ts[i + 3]);
    FactorVariable(ts, i + 1);
  }

  /**
   * `(a)^n` is rejected with SyntaxError: `^` may follow only a variable, so the
   * expression ends at the `^`, which is not EOF.
   */
  lemma PowerOfGroupRejected(ts: seq<Token>, g: Node, j: nat)
    requires 0 < |ts| && ts[0].kind == LParen && ParseFactor(ts, 0) == Ok((g, j))
    requires j < |ts| && ts[j] == OperatorToken("^")
    ensures Parse(ts) == Err(SyntaxError)
  {
    TermOfFactor(ts, 0, g, j);
    ExpressionOfTerm(ts, 0, g, j);
  }

  /** `d * -(e)` is a product whose right factor is a negated group. */
  lemma NegatedGroupFactor(ts: seq<Token>, i: nat, d: string, g: Node, k: nat)
    requires i + 3 < |ts| && ts[i] == NumberToken(d) && |d| > 0 && AllDigits(d)
    requires ts[i + 1] == OperatorToken("*") && ts[i + 2] == OperatorToken("-")
    requires ParseFactor(ts, i + 3) == Ok((g, k))
    requires k < |ts| && !IsMultiplicative(ts[k])
    ensures ParseTerm(ts, i) ==
      Ok((BinOpNode("*", PolynomialNode(Const(DigitsValue(d) as real)), UnaryOpNode("-", g)), k))
  {
    FactorDigits(ts, i, d);
    assert ParseFactor(ts, i + 2) == Ok((UnaryOpNode("-", g), k));
    TermOfProduct(ts, i, PolynomialNode(Const(DigitsValue(d) as real)), i + 1, UnaryOpNode("-", g), k);
  }

  // ---------------------------------------------------------------------------
  // The parser object (parser.py:8-136)
  // ---------------------------------------------------------------------------

  /**
   * Where the current token's kind has just been checked, `eat` cannot fail; its result
   * is then not inspected.
   */
  class Parser {
    const tokens: seq<Token>
    var currentTokenIndex: nat

    ghost predicate Valid()
      reads this
    {
      currentTokenIndex <= |tokens|
    }

    /** A method's result and final index are those the rule's function gives. */
    ghost predicate Follows(r: Result<Node>, spec: Result<(Node, nat)>)
      reads this
    {
      && (spec.Ok? ==> r == Ok(spec.value.0) && currentTokenIndex == spec.value.1)
      && (spec.Err? ==> r == Err(spec.error))
    }

    /** `Parser(tokens)` (parser.py:18-20). */
    constructor (tokens: seq<Token>)
      ensures this.tokens == tokens && currentTokenIndex == 0
      ensures Valid()
    {
      this.tokens := tokens;
      currentTokenIndex := 0;
    }

    /** `current_token` (parser.py:22-24). */
    function CurrentToken(): Result<Token>
      reads this
    {
      At(tokens, currentTokenIndex)
    }

    /** `eat` (parser.py:26-31): one step forward on a match, otherwise an error and no move. */
    method Eat(kind: TokenType) returns (r: Result<()>)
      requires Valid()
      modifies this
      ensures Valid()
      ensures var old_i := old(currentTokenIndex);
        if old_i < |tokens| && tokens[old_i].kind == kind then r == Ok(()) && currentTokenIndex == old_i + 1
        else r.Err? && r.error == EatAt(tokens, old_i, kind).error && currentTokenIndex == old_i
    {
      var token :- CurrentToken();
      if token.kind == kind {
        currentTokenIndex := currentTokenIndex + 1;
        return Ok(());
      } else {
        return Err(SyntaxError);
      }
    }

    /** `parse` (parser.py:33-38). */
    method Parse() returns (r: Result<Node>)
      requires Valid()
      modifies this
      ensures Valid()
      ensures r == ParseFrom(tokens, old(currentTokenIndex))
    {
      ghost var start := currentTokenIndex;
      var node :- Expression();
      var token :- CurrentToken();
      if token.kind != Eof {
        return Err(SyntaxError);
      }
      return Ok(node);
    }

    /** `expression` (parser.py:40-50): a term, then the loop. */
    method Expression() returns (r: Result<Node>)
      requires Valid()
      modifies this
      ensures Valid()
      ensures Follows(r, ParseExpression(tokens, old(currentTokenIndex)))
      decreases |tokens| - currentTokenIndex, 2
    {
      var node :- Term();
      r := MoreTerms(node);
    }

    /** The `while` loop of parser.py:44-48, which reassigns `node`. */
    method MoreTerms(first: Node) returns (r: Result<Node>)
      requires Valid() && WellFormed(first)
      modifies this
      ensures Valid()
      ensures Follows(r, ExpressionLoop(tokens, first, old(currentTokenIndex)))
      decreases |tokens| - currentTokenIndex, 2
    {
      ghost var start := currentTokenIndex;
      var node := first;
      while true
        invariant Valid() && start <= currentTokenIndex
        invariant WellFormed(node)
        invariant ExpressionLoop(tokens, first, start) == ExpressionLoop(tokens, node, currentTokenIndex)
        decreases |tokens| - currentTokenIndex
      {
        ghost var at := currentTokenIndex;
        var token :- CurrentToken();
        if !IsAdditive(token) {
          break;
        }
        var eaten := Eat(Operator);
        var rightNode :- Term();
        ExpressionLoopStep(tokens, node, at);
        node := BinOpNode(token.value.value, node, rightNode);
      }
      return Ok(node);
    }

    /** `term` (parser.py:52-78): a factor, then the loop. */
    method Term() returns (r: Result<Node>)
      requires Valid()
      modifies this
      ensures Valid()
      ensures Follows(r, ParseTerm(tokens, old(currentTokenIndex)))
      decreases |tokens| - currentTokenIndex, 1
    {
      var node :- Factor();
      r := MoreFactors(node);
    }

    /** The `while` loop of parser.py:59-76; MUL_IMPLICIT is eaten and becomes a `*` node. */
    method MoreFactors(first: Node) returns (r: Result<Node>)
      requires Valid() && WellFormed(first)
      modifies this
      ensures Valid()
      ensures Follows(r, TermLoop(tokens, first, old(currentTokenIndex)))
      decreases |tokens| - currentTokenIndex, 1
    {
      ghost var start := currentTokenIndex;
      var node := first;
      while true
        invariant Valid() && start <= currentTokenIndex
        invariant WellFormed(node)
        invariant TermLoop(tokens, first, start) == TermLoop(tokens, node, currentTokenIndex)
        decreases |tokens| - currentTokenIndex
      {
        ghost var at := currentTokenIndex;
        var token :- CurrentToken();
        if !IsMultiplicative(token) {
          break;
        }
        var op: string;
        if token.kind == Operator {
          var eaten := Eat(Operator);
          op := token.value.value;
        } else {
          var eaten := Eat(MulImplicit);
          op := "*";
        }
        var rightNode :- Factor();
        node := BinOpNode(op, node, rightNode);
      }
      return Ok(node);
    }

    /** `factor` (parser.py:80-136). */
    method Factor() returns (r: Result<Node>)
      requires Valid()
      modifies this
      ensures Valid()
      ensures Follows(r, ParseFactor(tokens, old(currentTokenIndex)))
      decreases |tokens| - currentTokenIndex, 0
    {
      ghost var start := currentTokenIndex;
      var token :- CurrentToken();
      if token.kind == Operator && token.value == Some("-") {
        var eaten := Eat(Operator);
        var operandNode :- Factor();
        return Ok(UnaryOpNode("-", operandNode));
      } else if token.kind == LParen {
        var eaten := Eat(LParen);
        var node :- Expression();
        var closed :- Eat(RParen);
        return Ok(node);
      } else if token.kind == Number {
        var eaten := Eat(Number);
        var coeff :- NumberCoefficient(token.value);
        return Ok(PolynomialNode(Const(coeff)));
      } else if token.kind == Variable {
        var eaten := Eat(Variable);
        var exp: nat := 1;
        var next :- CurrentToken();
        if next.kind == Operator && next.value == Some("^") {
          eaten := Eat(Operator);
          var expToken :- CurrentToken();
          if expToken.kind == Number {
            eaten := Eat(Number);
            exp :- ExponentValue(expToken.value);
          } else {
            return Err(SyntaxError);
          }
        }
        return Ok(PolynomialNode(Mono(exp, 1.0)));
      } else {
        return Err(SyntaxError);
      }
    }
  }
}
