/**
 * `insert_implicit_multiplication` (implicit_multiply.py:5-48): an OPERATOR `*` token is
 * put between a number and a variable, a number and `(`, a variable and `(`, `)` and `(`,
 * and `)` and a variable.
 */
module ImplicitMultiply {
  import opened Results
  import opened Tokenizer

  /** The five adjacent pairs of token types that get a `*` between them (lines 32-43). */
  predicate ImplicitPair(a: TokenType, b: TokenType) {
    || (a == Number && b == Variable)
    || (a == Number && b == LParen)
    || (a == Variable && b == LParen)
    || (a == RParen && b == LParen)
    || (a == RParen && b == Variable)
  }

  /** `Token(TOKEN_TYPE_OPERATOR, '*')` (line 45). */
  const StarToken: Token := Token(Operator, Some("*"))

  /** What one iteration appends: the current token, and a `*` if it and the next form a pair. */
  function Piece(ts: seq<Token>, i: nat): seq<Token>
    requires i < |ts|
  {
    [ts[i]] + (if i + 1 < |ts| && ImplicitPair(ts[i].kind, ts[i + 1].kind) then [StarToken] else [])
  }

  /** Whether tokens i and i + 1 exist and form one of the five pairs. */
  predicate PairAt(ts: seq<Token>, i: nat) {
    i + 1 < |ts| && ImplicitPair(ts[i].kind, ts[i + 1].kind)
  }

  /** The number of triggering adjacent pairs starting before position n. */
  function PairsBefore(ts: seq<Token>, n: nat): nat
    requires n <= |ts|
  {
    if n == 0 then 0 else PairsBefore(ts, n - 1) + (if PairAt(ts, n - 1) then 1 else 0)
  }

  /** The first n iterations of the loop: n input tokens, and one `*` per pair among them. */
  function InsertUpTo(ts: seq<Token>, n: nat): (out: seq<Token>)
    requires n <= |ts|
    ensures |out| == n + PairsBefore(ts, n)
  {
    if n == 0 then [] else InsertUpTo(ts, n - 1) + Piece(ts, n - 1)
  }

  function Insert(ts: seq<Token>): seq<Token> {
    InsertUpTo(ts, |ts|)
  }

  /** `insert_implicit_multiplication` (implicit_multiply.py:5-48). */
  method InsertImplicitMultiplication(tokens: seq<Token>) returns (newTokens: seq<Token>)
    ensures newTokens == Insert(tokens)
  {
    newTokens := [];
    var i := 0;
    while i < |tokens|
      invariant 0 <= i <= |tokens|
      invariant newTokens == InsertUpTo(tokens, i)
    {
      var current := tokens[i];
      newTokens := newTokens + [current];
      if i + 1 < |tokens| {
        var next := tokens[i + 1];
        var insert := false;
        if current.kind == Number && next.kind == Variable {
          insert := true;
        } else if current.kind == Number && next.kind == LParen {
          insert := true;
        } else if current.kind == Variable && next.kind == LParen {
          insert := true;
        } else if current.kind == RParen && next.kind == LParen {
          insert := true;
        } else if current.kind == RParen && next.kind == Variable {
          insert := true;
        }
        if insert {
          newTokens := newTokens + [Token(Operator, Some("*"))];
        }
      }
      i := i + 1;
    }
  }

  // ---------------------------------------------------------------------------
  // Properties
  // ---------------------------------------------------------------------------

  /** No pair of the five is adjacent. */
  ghost predicate NoPairs(ts: seq<Token>) {
    forall k :: 0 <= k < |ts| - 1 ==> !ImplicitPair(ts[k].kind, ts[k + 1].kind)
  }

  /** The tokens other than OPERATOR `*`, in order. */
  function Unstarred(ts: seq<Token>): seq<Token> {
    if ts == [] then []
    else Unstarred(ts[..|ts| - 1]) + (if ts[|ts| - 1] == StarToken then [] else [ts[|ts| - 1]])
  }

  lemma UnstarredAppend(a: seq<Token>, t: Token)
    ensures Unstarred(a + [t]) == Unstarred(a) + (if t == StarToken then [] else [t])
  {
    assert (a + [t])[..|a|] == a;
  }

  lemma {:induction false} UnstarredConcat(a: seq<Token>, b: seq<Token>)
    ensures Unstarred(a + b) == Unstarred(a) + Unstarred(b)
    decreases |b|
  {
    if b == [] {
      assert a + b == a;
    } else {
      var b0 := b[..|b| - 1];
      var t := b[|b| - 1];
      assert a + b == (a + b0) + [t];
      UnstarredConcat(a, b0);
      UnstarredAppend(a + b0, t);
      UnstarredAppend(b0, t);
      assert b == b0 + [t];
    }
  }

  /** One iteration's output holds the same non-`*` tokens as the token it copies. */
  lemma PieceUnstarred(ts: seq<Token>, i: nat)
    requires i < |ts|
    ensures Unstarred(Piece(ts, i)) == Unstarred([ts[i]])
  {
    UnstarredAppend([], ts[i]);
    if PairAt(ts, i) {
      assert Piece(ts, i) == [ts[i]] + [StarToken];
      UnstarredAppend([ts[i]], StarToken);
    } else {
      assert Piece(ts, i) == [ts[i]];
    }
  }

  /** Apart from the inserted `*` tokens the pass changes nothing: same tokens, same order. */
  lemma {:induction false} InsertKeepsTokens(ts: seq<Token>, n: nat)
    requires n <= |ts|
    ensures Unstarred(InsertUpTo(ts, n)) == Unstarred(ts[..n])
  {
    if n > 0 {
      var before := InsertUpTo(ts, n - 1);
      InsertKeepsTokens(ts, n - 1);
      UnstarredConcat(before, Piece(ts, n - 1));
      PieceUnstarred(ts, n - 1);
      assert ts[..n] == ts[..n - 1] + [ts[n - 1]];
      UnstarredConcat(ts[..n - 1], [ts[n - 1]]);
    }
  }

  /**
   * Where each input token lands: token i is written at position i + PairsBefore(ts, i);
   * directly after it comes a `*` if tokens i and i + 1 form a pair, and otherwise the
   * next input token. So a `*` is inserted between i and i + 1 exactly when they form a
   * pair, and never after the last token.
   */
  lemma {:induction false} InsertPositions(ts: seq<Token>, n: nat, i: nat)
    requires i < n <= |ts|
    ensures var out, at := InsertUpTo(ts, n), i + PairsBefore(ts, i);
      at < |out| && out[at] == ts[i]
    ensures var out, at := InsertUpTo(ts, n), i + PairsBefore(ts, i);
      PairAt(ts, i) ==> at + 1 < |out| && out[at + 1] == StarToken
    ensures var out, at := InsertUpTo(ts, n), i + PairsBefore(ts, i);
      !PairAt(ts, i) && i + 1 < n ==> at + 1 < |out| && out[at + 1] == ts[i + 1]
  {
    var before := InsertUpTo(ts, n - 1);
    var out := InsertUpTo(ts, n);
    assert out == before + Piece(ts, n - 1);
    if i < n - 1 {
      InsertPositions(ts, n - 1, i);
      if !PairAt(ts, i) && i + 1 == n - 1 {
        assert out[|before|] == ts[n - 1];
      }
    }
  }

  /** The last token written after n iterations. */
  ghost predicate EndsWell(ts: seq<Token>, n: nat, out: seq<Token>)
    requires 0 < n <= |ts|
  {
    && |out| > 0
    && (|| out[|out| - 1] == StarToken
        || (out[|out| - 1] == ts[n - 1] && (n < |ts| ==> !ImplicitPair(ts[n - 1].kind, ts[n].kind))))
  }

  /** After the pass no pair of the five is adjacent any more. */
  lemma {:induction false} InsertLeavesNoPairs(ts: seq<Token>, n: nat)
    requires n <= |ts|
    ensures NoPairs(InsertUpTo(ts, n))
    ensures n > 0 ==> EndsWell(ts, n, InsertUpTo(ts, n))
  {
    if n > 0 {
      InsertLeavesNoPairs(ts, n - 1);
      var before := InsertUpTo(ts, n - 1);
      var out := InsertUpTo(ts, n);
      assert out == before + Piece(ts, n - 1);
      forall k | 0 <= k < |out| - 1
        ensures !ImplicitPair(out[k].kind, out[k + 1].kind)
      {
        if k + 1 < |before| {
          assert out[k] == before[k] && out[k + 1] == before[k + 1];
        } else if k + 1 == |before| {
          assert out[k] == before[|before| - 1] && out[k + 1] == ts[n - 1];
        } else {
          assert out[k] == ts[n - 1] && out[k + 1] == StarToken;
        }
      }
    }
  }

  /** A list without any of the five pairs passes unchanged. */
  lemma {:induction false} InsertWithoutPairs(ts: seq<Token>, n: nat)
    requires n <= |ts|
    requires NoPairs(ts)
    ensures InsertUpTo(ts, n) == ts[..n]
  {
    if n > 0 {
      InsertWithoutPairs(ts, n - 1);
      assert ts[..n] == ts[..n - 1] + [ts[n - 1]];
    }
  }

  /**
   * The pass inserts only `*` tokens, leaves no pair of the five adjacent, changes a list
   * without such pairs not at all, and is therefore idempotent.
   */
  lemma InsertCorrect(ts: seq<Token>)
    ensures Unstarred(Insert(ts)) == Unstarred(ts)
    ensures NoPairs(Insert(ts))
    ensures NoPairs(ts) ==> Insert(ts) == ts
    ensures Insert(Insert(ts)) == Insert(ts)
  {
    InsertKeepsTokens(ts, |ts|);
    assert ts[..|ts|] == ts;
    InsertLeavesNoPairs(ts, |ts|);
    if NoPairs(ts) {
      InsertWithoutPairs(ts, |ts|);
    }
    var out := Insert(ts);
    InsertWithoutPairs(out, |out|);
    assert out[..|out|] == out;
  }

  /** The tokenizer already writes MUL_IMPLICIT between every such pair, so the pass leaves its output unchanged. */
  lemma InsertAfterTokenize(s: string)
    requires Tokenize(s).Ok?
    ensures Insert(Tokenize(s).value) == Tokenize(s).value
  {
    TokenizeCorrect(s);
    var ts := Tokenize(s).value;
    assert forall k :: 0 <= k < |ts| - 1 ==> !ImplicitPair(ts[k].kind, ts[k + 1].kind) by {
      forall k | 0 <= k < |ts| - 1
        ensures !ImplicitPair(ts[k].kind, ts[k + 1].kind)
      {
        if EndsOperand(ts[k].kind) {
          assert !StartsOperand(ts[k + 1].kind);
        }
      }
    }
    InsertWithoutPairs(ts, |ts|);
    assert ts[..|ts|] == ts;
  }
}
