/**
 * `tokenize` (tokenizer.py:26-88): the input is scanned left to right, whitespace is
 * skipped, each token is the match of the first of the patterns NUMBER `\d+(\/\d+)?`,
 * OPERATOR `[+\-*\/^]`, VARIABLE `x`, LPAREN and RPAREN at the current position, a
 * MUL_IMPLICIT token is put between a number, variable or closing parenthesis and a
 * following `x` or `(`, and an EOF token ends the list. Any other character is a
 * ValueError.
 */
module Tokenizer {
  import opened Results
  import opened Text

  /** The token types of tokenizer.py:6-12. */
  datatype TokenType = Number | Variable | Operator | LParen | RParen | Eof | MulImplicit

  /** `Token(type, value=None)` (tokenizer.py:14-17). */
  datatype Token = Token(kind: TokenType, value: Option<string>)

  /** The token inserted for implicit multiplication (tokenizer.py:79). */
  const ImplicitStar: Token := Token(MulImplicit, Some("*"))

  /** The token that ends every list (tokenizer.py:87). */
  const EndToken: Token := Token(Eof, None)

  // ---------------------------------------------------------------------------
  // Characters
  // ---------------------------------------------------------------------------

  predicate IsOperatorChar(c: char) {
    c == '+' || c == '-' || c == '*' || c == '/' || c == '^'
  }

  /** A character some pattern can start with. */
  predicate Recognised(c: char) {
    IsDigit(c) || IsOperatorChar(c) || c == 'x' || c == '(' || c == ')'
  }

  // ---------------------------------------------------------------------------
  // The combined pattern (tokenizer.py:32-41, 50)
  // ---------------------------------------------------------------------------

  /** The end of the run of digits starting at i. */
  function DigitsEnd(s: string, i: nat): (j: nat)
    requires i <= |s|
    ensures i <= j <= |s|
    ensures forall k :: i <= k < j ==> IsDigit(s[k])
    ensures j < |s| ==> !IsDigit(s[j])
    decreases |s| - i
  {
    if i < |s| && IsDigit(s[i]) then DigitsEnd(s, i + 1) else i
  }

  /** The end of the NUMBER match at i: digits, then `/` and digits if a digit follows the `/`. */
  function NumberEnd(s: string, i: nat): (j: nat)
    requires i < |s| && IsDigit(s[i])
    ensures i < j <= |s|
  {
    var j := DigitsEnd(s, i);
    if j + 1 < |s| && s[j] == '/' && IsDigit(s[j + 1]) then DigitsEnd(s, j + 1) else j
  }

  /** `token_regex.match(expression_str, i)`: the type and end of the match, if any. */
  function MatchAt(s: string, i: nat): (r: Option<(TokenType, nat)>)
    requires i < |s|
    ensures r.Some? ==> i < r.value.1 <= |s|
  {
    var c := s[i];
    if IsDigit(c) then Some((Number, NumberEnd(s, i)))
    else if IsOperatorChar(c) then Some((Operator, i + 1))
    else if c == 'x' then Some((Variable, i + 1))
    else if c == '(' then Some((LParen, i + 1))
    else if c == ')' then Some((RParen, i + 1))
    else None
  }

  /** The text of a NUMBER: `\d+(\/\d+)?`. */
  predicate IsNumberText(t: string) {
    || (|t| > 0 && AllDigits(t))
    || exists k :: 0 < k < |t| - 1 && t[k] == '/' && AllDigits(t[..k]) && AllDigits(t[k + 1..])
  }

  /** The text each kind of token carries. */
  predicate ValueFits(t: Token) {
    match t.kind
    case Number => t.value.Some? && IsNumberText(t.value.value)
    case Operator => t.value.Some? && |t.value.value| == 1 && IsOperatorChar(t.value.value[0])
    case Variable => t.value == Some("x")
    case LParen => t.value == Some("(")
    case RParen => t.value == Some(")")
    case Eof => t.value == None
    case MulImplicit => t.value == Some("*")
  }

  /** A NUMBER match spans digits with at most one `/` between digits. */
  lemma NumberMatchFacts(s: string, i: nat)
    requires i < |s| && IsDigit(s[i])
    ensures forall k :: i <= k < NumberEnd(s, i) ==> IsDigit(s[k]) || s[k] == '/'
    ensures IsNumberText(s[i..NumberEnd(s, i)])
  {
    var j := DigitsEnd(s, i);
    var t := s[i..NumberEnd(s, i)];
    if j + 1 < |s| && s[j] == '/' && IsDigit(s[j + 1]) {
      var k := j - i;
      assert t[k] == '/' && t[..k] == s[i..j] && t[k + 1..] == s[j + 1..NumberEnd(s, i)];
    } else {
      assert t == s[i..j];
    }
  }

  /** A match exists exactly at a recognised character; it consumes at least it, and only recognised characters. */
  lemma MatchAtFacts(s: string, i: nat)
    requires i < |s|
    ensures MatchAt(s, i).Some? <==> Recognised(s[i])
    ensures MatchAt(s, i).Some? ==>
      var (kind, j) := MatchAt(s, i).value;
      && i < j <= |s|
      && (forall k :: i <= k < j ==> Recognised(s[k]))
      && kind != Eof && kind != MulImplicit
      && ValueFits(Token(kind, Some(s[i..j])))
      && ((s[i] == 'x' || s[i] == '(') <==> StartsOperand(kind))
  {
    if IsDigit(s[i]) {
      NumberMatchFacts(s, i);
    } else if Recognised(s[i]) {
      assert s[i..i + 1] == [s[i]];
    }
  }

  /**
   * The NUMBER pattern is greedy: the match is not followed by a digit, nor, when it
   * has no fraction part, by a `/` and a digit.
   */
  lemma NumberMaximal(s: string, i: nat)
    requires i < |s| && IsDigit(s[i])
    ensures NumberEnd(s, i) < |s| ==> !IsDigit(s[NumberEnd(s, i)])
    ensures NumberEnd(s, i) == DigitsEnd(s, i) ==>
      !(NumberEnd(s, i) + 1 < |s| && s[NumberEnd(s, i)] == '/' && IsDigit(s[NumberEnd(s, i) + 1]))
  {
  }

  // ---------------------------------------------------------------------------
  // The scanning loop (tokenizer.py:43-88)
  // ---------------------------------------------------------------------------

  /** The types after which an `x` or `(` gets an implicit multiplication in front (line 63). */
  predicate EndsOperand(k: TokenType) {
    k == Number || k == Variable || k == RParen
  }

  /** The types that start with `x` or `(`. */
  predicate StartsOperand(k: TokenType) {
    k == Variable || k == LParen
  }

  /**
   * Lines 56-79: the tokens so far, with a MUL_IMPLICIT appended when the last one ends
   * an operand and the current character is `x` or `(`. The three `elif` cases of lines
   * 67-74 are contained in the first condition.
   */
  function WithImplicit(tokens: seq<Token>, c: char): seq<Token> {
    if |tokens| > 0 && EndsOperand(tokens[|tokens| - 1].kind) && (c == 'x' || c == '(') then
      tokens + [ImplicitStar]
    else
      tokens
  }

  /** The loop from position i with the tokens collected so far. */
  function TokenizeFrom(s: string, i: nat, tokens: seq<Token>): Result<seq<Token>>
    requires i <= |s|
    decreases |s| - i
  {
    if i == |s| then Ok(tokens + [EndToken])
    else if IsWhitespace(s[i]) then TokenizeFrom(s, i + 1, tokens)
    else
      match MatchAt(s, i)
      case None => Err(ValueError)
      case Some((kind, j)) =>
        TokenizeFrom(s, j, WithImplicit(tokens, s[i]) + [Token(kind, Some(s[i..j]))])
  }

  /** `tokenize(expression_str)` */
  function Tokenize(s: string): Result<seq<Token>> {
    TokenizeFrom(s, 0, [])
  }

  /** `tokenize` (tokenizer.py:26-88). */
  method TokenizeString(expressionStr: string) returns (r: Result<seq<Token>>)
    ensures r == Tokenize(expressionStr)
  {
    var tokens: seq<Token> := [];
    var i := 0;
    while i < |expressionStr|
      invariant 0 <= i <= |expressionStr|
      invariant TokenizeFrom(expressionStr, i, tokens) == Tokenize(expressionStr)
      decreases |expressionStr| - i
    {
      if IsWhitespace(expressionStr[i]) {
        i := i + 1;
      } else {
        var m := MatchAt(expressionStr, i);
        if m.None? {
          return Err(ValueError);
        }
        var (tokenType, matchEnd) := m.value;
        MatchAtFacts(expressionStr, i);
        if |tokens| > 0 {
          var lastTokenType := tokens[|tokens| - 1].kind;
          var insertMulImplicit := false;
          if lastTokenType in {Number, Variable, RParen} && expressionStr[i] in {'x', '('} {
            insertMulImplicit := true;
          }
          if insertMulImplicit {
            tokens := tokens + [Token(MulImplicit, Some("*"))];
          }
        }
        tokens := tokens + [Token(tokenType, Some(expressionStr[i..matchEnd]))];
        i := matchEnd;
      }
    }
    tokens := tokens + [Token(Eof, None)];
    r := Ok(tokens);
  }

  // ---------------------------------------------------------------------------
  // Properties of the token list
  // ---------------------------------------------------------------------------

  /**
   * Implicit multiplications sit exactly where the rule puts them: every MUL_IMPLICIT is
   * between a token that ends an operand and one that starts one, and no such pair of
   * tokens is adjacent without one.
   */
  ghost predicate ImplicitPlaced(ts: seq<Token>) {
    && (forall k :: 0 <= k < |ts| && ts[k].kind == MulImplicit ==>
          0 < k < |ts| - 1 && EndsOperand(ts[k - 1].kind) && StartsOperand(ts[k + 1].kind))
    && (forall k :: 0 <= k < |ts| - 1 && EndsOperand(ts[k].kind) ==> !StartsOperand(ts[k + 1].kind))
  }

  /** The tokens collected before the end: well-formed values, no EOF, implicit multiplications in place. */
  ghost predicate Collected(ts: seq<Token>) {
    && (forall k :: 0 <= k < |ts| ==> ValueFits(ts[k]) && ts[k].kind != Eof)
    && ImplicitPlaced(ts)
  }

  /** The text of the non-inserted tokens, in order. */
  function SourceText(ts: seq<Token>): string {
    if ts == [] then ""
    else
      var t := ts[|ts| - 1];
      SourceText(ts[..|ts| - 1]) + (if t.kind == MulImplicit || t.value.None? then "" else t.value.value)
  }

  /** The non-whitespace characters of s, in order. */
  function RemoveSpaces(s: string): string {
    if s == [] then ""
    else (if IsWhitespace(s[0]) then "" else [s[0]]) + RemoveSpaces(s[1..])
  }

  lemma {:induction false} RemoveSpacesAppend(a: string, b: string)
    ensures RemoveSpaces(a + b) == RemoveSpaces(a) + RemoveSpaces(b)
  {
    if a == [] {
      assert a + b == b;
    } else {
      var head := if IsWhitespace(a[0]) then "" else [a[0]];
      assert (a + b)[0] == a[0];
      assert (a + b)[1..] == a[1..] + b;
      RemoveSpacesAppend(a[1..], b);
      var rest, tail := RemoveSpaces(a[1..]), RemoveSpaces(b);
      assert RemoveSpaces(a + b) == head + (rest + tail);
      AppendAssoc(head, rest, tail);
    }
  }

  lemma {:induction false} RemoveSpacesNone(a: string)
    requires forall k :: 0 <= k < |a| ==> !IsWhitespace(a[k])
    ensures RemoveSpaces(a) == a
  {
    if a != [] {
      RemoveSpacesNone(a[1..]);
    }
  }

  lemma SourceTextAppend(ts: seq<Token>, t: Token)
    ensures SourceText(ts + [t]) == SourceText(ts) + (if t.kind == MulImplicit || t.value.None? then "" else t.value.value)
  {
    assert (ts + [t])[..|ts|] == ts;
  }

  /** One step of the loop keeps the collected tokens in order. */
  lemma CollectStep(ts: seq<Token>, c: char, t: Token)
    requires Collected(ts)
    requires ValueFits(t) && t.kind != Eof && t.kind != MulImplicit
    requires (c == 'x' || c == '(') <==> StartsOperand(t.kind)
    ensures Collected(WithImplicit(ts, c) + [t])
  {
    var w := WithImplicit(ts, c);
    var r := w + [t];
    if w != ts {
      assert r == ts + [ImplicitStar, t];
      forall k | 0 <= k < |r| && r[k].kind == MulImplicit
        ensures 0 < k < |r| - 1 && EndsOperand(r[k - 1].kind) && StartsOperand(r[k + 1].kind)
      {
        if k < |ts| {
          assert r[k] == ts[k];
        }
      }
    } else {
      forall k | 0 <= k < |r| && r[k].kind == MulImplicit
        ensures 0 < k < |r| - 1 && EndsOperand(r[k - 1].kind) && StartsOperand(r[k + 1].kind)
      {
        assert k < |ts| && r[k] == ts[k];
        assert k + 1 < |ts|;
      }
    }
  }

  /** The loop fails, with a ValueError, exactly when an unrecognised character lies ahead. */
  lemma {:induction false} TokenizeFromError(s: string, i: nat, ts: seq<Token>)
    requires i <= |s|
    ensures TokenizeFrom(s, i, ts).Err? <==> exists k :: i <= k < |s| && !IsWhitespace(s[k]) && !Recognised(s[k])
    ensures TokenizeFrom(s, i, ts).Err? ==> TokenizeFrom(s, i, ts).error == ValueError
    decreases |s| - i
  {
    if i < |s| {
      if IsWhitespace(s[i]) {
        TokenizeFromError(s, i + 1, ts);
      } else {
        MatchAtFacts(s, i);
        if MatchAt(s, i).Some? {
          var (kind, j) := MatchAt(s, i).value;
          TokenizeFromError(s, j, WithImplicit(ts, s[i]) + [Token(kind, Some(s[i..j]))]);
        }
      }
    }
  }

  /** The text consumed by one match contributes itself to the non-whitespace text. */
  lemma RemoveSpacesSplit(s: string, i: nat, j: nat)
    requires i <= j <= |s|
    requires forall k :: i <= k < j ==> Recognised(s[k])
    ensures RemoveSpaces(s[i..]) == s[i..j] + RemoveSpaces(s[j..])
  {
    assert forall k :: 0 <= k < j - i ==> s[i..j][k] == s[i + k] && !IsWhitespace(s[i..j][k]);
    assert s[i..] == s[i..j] + s[j..];
    RemoveSpacesAppend(s[i..j], s[j..]);
    RemoveSpacesNone(s[i..j]);
  }

  /** A successful loop from position i ends its list with EOF. */
  lemma {:induction false} TokenizeFromEnds(s: string, i: nat, ts: seq<Token>)
    requires i <= |s|
    requires TokenizeFrom(s, i, ts).Ok?
    ensures |TokenizeFrom(s, i, ts).value| > 0
    ensures TokenizeFrom(s, i, ts).value[|TokenizeFrom(s, i, ts).value| - 1] == EndToken
    decreases |s| - i
  {
    if i < |s| {
      if IsWhitespace(s[i]) {
        TokenizeFromEnds(s, i + 1, ts);
      } else {
        var (kind, j) := MatchAt(s, i).value;
        MatchAtFacts(s, i);
        TokenizeFromEnds(s, j, WithImplicit(ts, s[i]) + [Token(kind, Some(s[i..j]))]);
      }
    }
  }

  /** The tokens before the EOF of a successful loop from position i. */
  function Prefix(r: seq<Token>): seq<Token>
    requires |r| > 0
  {
    r[..|r| - 1]
  }

  /** A successful loop keeps the collected tokens in order. */
  lemma {:induction false} TokenizeFromCollected(s: string, i: nat, ts: seq<Token>)
    requires i <= |s|
    requires Collected(ts)
    requires TokenizeFrom(s, i, ts).Ok?
    ensures |TokenizeFrom(s, i, ts).value| > 0
    ensures Collected(Prefix(TokenizeFrom(s, i, ts).value))
    decreases |s| - i
  {
    TokenizeFromEnds(s, i, ts);
    if i == |s| {
      assert Prefix(ts + [EndToken]) == ts;
    } else if IsWhitespace(s[i]) {
      TokenizeFromCollected(s, i + 1, ts);
    } else {
      MatchAtFacts(s, i);
      var (kind, j) := MatchAt(s, i).value;
      var t := Token(kind, Some(s[i..j]));
      CollectStep(ts, s[i], t);
      TokenizeFromCollected(s, j, WithImplicit(ts, s[i]) + [t]);
    }
  }

  /** The texts collected by a successful loop spell what was collected and the rest of the input without whitespace. */
  lemma {:induction false} TokenizeFromText(s: string, i: nat, ts: seq<Token>)
    requires i <= |s|
    requires TokenizeFrom(s, i, ts).Ok?
    ensures |TokenizeFrom(s, i, ts).value| > 0
    ensures SourceText(Prefix(TokenizeFrom(s, i, ts).value)) == SourceText(ts) + RemoveSpaces(s[i..])
    decreases |s| - i
  {
    TokenizeFromEnds(s, i, ts);
    if i == |s| {
      assert Prefix(ts + [EndToken]) == ts;
      assert s[i..] == [];
    } else if IsWhitespace(s[i]) {
      TokenizeFromText(s, i + 1, ts);
      assert s[i..][0] == s[i] && s[i..][1..] == s[i + 1..];
      assert RemoveSpaces(s[i..]) == "" + RemoveSpaces(s[i + 1..]);
      assert "" + RemoveSpaces(s[i + 1..]) == RemoveSpaces(s[i + 1..]);
    } else {
      MatchAtFacts(s, i);
      var (kind, j) := MatchAt(s, i).value;
      TokenizeFromText(s, j, WithImplicit(ts, s[i]) + [Token(kind, Some(s[i..j]))]);
      TokenStepText(s, i, ts);
    }
  }

  /** One matched token adds its text, and the implicit `*` none. */
  lemma TokenStepText(s: string, i: nat, ts: seq<Token>)
    requires i < |s| && MatchAt(s, i).Some?
    ensures var (kind, j) := MatchAt(s, i).value;
      && i < j <= |s|
      && SourceText(WithImplicit(ts, s[i]) + [Token(kind, Some(s[i..j]))]) + RemoveSpaces(s[j..])
         == SourceText(ts) + RemoveSpaces(s[i..])
  {
    MatchAtFacts(s, i);
    var (kind, j) := MatchAt(s, i).value;
    var t := Token(kind, Some(s[i..j]));
    var w := WithImplicit(ts, s[i]);
    SourceTextAppend(w, t);
    if w != ts {
      SourceTextAppend(ts, ImplicitStar);
    }
    var before, text, after := SourceText(ts), s[i..j], RemoveSpaces(s[j..]);
    assert SourceText(w + [t]) == before + text;
    RemoveSpacesSplit(s, i, j);
    AppendAssoc(before, text, after);
  }

  /** Collected tokens with an EOF appended: EOF only at the end, and the implicit multiplications in place. */
  lemma EndKeepsCollected(ts: seq<Token>)
    requires Collected(ts)
    ensures var r := ts + [EndToken];
      && (forall k :: 0 <= k < |r| - 1 ==> r[k].kind != Eof)
      && (forall k :: 0 <= k < |r| ==> ValueFits(r[k]))
      && ImplicitPlaced(r)
  {
    var r := ts + [EndToken];
    assert forall k :: 0 <= k < |ts| ==> r[k] == ts[k];
    forall k | 0 <= k < |r| && r[k].kind == MulImplicit
      ensures 0 < k < |r| - 1 && EndsOperand(r[k - 1].kind) && StartsOperand(r[k + 1].kind)
    {
      assert k < |ts| && r[k] == ts[k];
    }
  }

  /**
   * Tokenizing fails, with a ValueError, exactly when the input holds a character that
   * is neither whitespace nor the start of a pattern. Otherwise the list ends with the only
   * EOF, every token carries text of its kind, implicit multiplications sit exactly
   * between an operand's end and an `x` or `(`, and the texts of the other tokens spell
   * the input without its whitespace.
   */
  lemma TokenizeCorrect(s: string)
    ensures Tokenize(s).Err? <==> exists k :: 0 <= k < |s| && !IsWhitespace(s[k]) && !Recognised(s[k])
    ensures Tokenize(s).Err? ==> Tokenize(s).error == ValueError
    ensures Tokenize(s).Ok? ==>
      var r := Tokenize(s).value;
      && |r| > 0 && r[|r| - 1] == EndToken
      && (forall k :: 0 <= k < |r| - 1 ==> r[k].kind != Eof)
      && (forall k :: 0 <= k < |r| ==> ValueFits(r[k]))
      && ImplicitPlaced(r)
      && SourceText(r) == RemoveSpaces(s)
  {
    TokenizeFromError(s, 0, []);
    assert s[0..] == s;
    if Tokenize(s).Ok? {
      TokenizeShape(s);
    }
  }

  /** The shape of a successful tokenization. */
  lemma TokenizeShape(s: string)
    requires Tokenize(s).Ok?
    ensures var r := Tokenize(s).value;
      && |r| > 0 && r[|r| - 1] == EndToken
      && (forall k :: 0 <= k < |r| - 1 ==> r[k].kind != Eof)
      && (forall k :: 0 <= k < |r| ==> ValueFits(r[k]))
      && ImplicitPlaced(r)
      && SourceText(r) == RemoveSpaces(s)
  {
    var r := Tokenize(s).value;
    TokenizeFromEnds(s, 0, []);
    TokenizeFromCollected(s, 0, []);
    TokenizeFromText(s, 0, []);
    var ts := Prefix(r);
    assert r == ts + [EndToken];
    EndKeepsCollected(ts);
    SourceTextAppend(ts, EndToken);
    assert s[0..] == s;
  }
}
