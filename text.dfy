/**
 * Decimal digits: Python's `int(...)` on a digit string and `str(...)` / f-string
 * formatting of a non-negative integer, with the round trip between them; `str.strip()`,
 * `int(...)` on any text, and the `a/b` texts read through `Fraction`.
 */
module Text {
  import opened Results

  /** Concatenation regroups freely. */
  lemma AppendAssoc<T>(a: seq<T>, b: seq<T>, c: seq<T>)
    ensures (a + b) + c == a + (b + c)
  {
  }

  predicate IsDigit(ch: char) {
    '0' <= ch <= '9'
  }

  predicate AllDigits(s: string) {
    forall i :: 0 <= i < |s| ==> IsDigit(s[i])
  }

  function DigitValue(ch: char): (v: nat)
    requires IsDigit(ch)
    ensures v < 10
  {
    (ch - '0') as nat
  }

  function DigitChar(v: nat): (ch: char)
    requires v < 10
    ensures IsDigit(ch) && DigitValue(ch) == v
  {
    ('0' as int + v) as char
  }

  /** `int(s)` for a string of decimal digits. */
  function DigitsValue(s: string): nat
    requires AllDigits(s)
  {
    if |s| == 0 then 0 else DigitsValue(s[..|s| - 1]) * 10 + DigitValue(s[|s| - 1])
  }

  /** The decimal text of n, as `str(n)` writes it: no leading zeros, "0" for zero. */
  function NatText(n: nat): (s: string)
    ensures |s| > 0 && AllDigits(s)
    ensures s[0] == '0' ==> n == 0
  {
    if n < 10 then [DigitChar(n)] else NatText(n / 10) + [DigitChar(n % 10)]
  }

  /** Reading back the decimal text of n gives n. */
  lemma {:induction false} NatTextRoundTrip(n: nat)
    ensures DigitsValue(NatText(n)) == n
  {
    if n >= 10 {
      var s := NatText(n);
      assert s[..|s| - 1] == NatText(n / 10);
      NatTextRoundTrip(n / 10);
    }
  }

  /** A digits value depends only on the digits: appending a digit shifts the value. */
  lemma DigitsValueAppend(s: string, ch: char)
    requires AllDigits(s) && IsDigit(ch)
    ensures AllDigits(s + [ch]) && DigitsValue(s + [ch]) == DigitsValue(s) * 10 + DigitValue(ch)
  {
    assert (s + [ch])[..|s + [ch]| - 1] == s;
  }

  // ---------------------------------------------------------------------------
  // Python's str.strip() and int()
  // ---------------------------------------------------------------------------

  /** `str.isspace()`: the characters Python counts as whitespace, which `str.strip()` and `int()` also skip. */
  predicate IsWhitespace(ch: char) {
    || ch == ' ' || ('\t' <= ch <= '\r') || ('\U{1C}' <= ch <= '\U{1F}')
    || ch == '\U{85}' || ch == '\U{A0}' || ch == '\U{1680}' || ('\U{2000}' <= ch <= '\U{200A}')
    || ch == '\U{2028}' || ch == '\U{2029}' || ch == '\U{202F}' || ch == '\U{205F}' || ch == '\U{3000}'
  }

  /** The text without its leading whitespace. */
  function TrimStart(s: string): string {
    if s != [] && IsWhitespace(s[0]) then TrimStart(s[1..]) else s
  }

  /** The text without its trailing whitespace. */
  function TrimEnd(s: string): string {
    if s != [] && IsWhitespace(s[|s| - 1]) then TrimEnd(s[..|s| - 1]) else s
  }

  /** `s.strip()`. */
  function Strip(s: string): string {
    TrimEnd(TrimStart(s))
  }

  /** TrimStart drops a whitespace prefix and keeps the rest, which starts with non-whitespace. */
  lemma {:induction false} TrimStartSuffix(s: string)
    ensures var r := TrimStart(s);
      && |r| <= |s| && r == s[|s| - |r|..]
      && (forall k :: 0 <= k < |s| - |r| ==> IsWhitespace(s[k]))
      && (r != [] ==> !IsWhitespace(r[0]))
  {
    if s != [] && IsWhitespace(s[0]) {
      TrimStartSuffix(s[1..]);
      var r := TrimStart(s);
      forall k | 0 <= k < |s| - |r|
        ensures IsWhitespace(s[k])
      {
        if k > 0 {
          assert s[k] == s[1..][k - 1];
        }
      }
    }
  }

  /** TrimEnd drops a whitespace suffix and keeps the rest, which ends with non-whitespace. */
  lemma {:induction false} TrimEndPrefix(s: string)
    ensures var r := TrimEnd(s);
      && |r| <= |s| && r == s[..|r|]
      && (forall k :: |r| <= k < |s| ==> IsWhitespace(s[k]))
      && (r != [] ==> !IsWhitespace(r[|r| - 1]))
  {
    if s != [] && IsWhitespace(s[|s| - 1]) {
      TrimEndPrefix(s[..|s| - 1]);
      var r := TrimEnd(s);
      forall k | |r| <= k < |s|
        ensures IsWhitespace(s[k])
      {
        if k < |s| - 1 {
          assert s[k] == s[..|s| - 1][k];
        }
      }
    }
  }

  /**
   * What `strip()` keeps: a slice s[i..j] with only whitespace outside it, beginning and
   * ending with a character that is not whitespace.
   */
  lemma StripSlice(s: string)
    ensures var r, i := Strip(s), |s| - |TrimStart(s)|;
      && 0 <= i <= i + |r| <= |s| && r == s[i..i + |r|]
      && (forall k :: 0 <= k < i ==> IsWhitespace(s[k]))
      && (forall k :: i + |r| <= k < |s| ==> IsWhitespace(s[k]))
    ensures var r := Strip(s); r != [] ==> !IsWhitespace(r[0]) && !IsWhitespace(r[|r| - 1])
  {
    var t := TrimStart(s);
    TrimStartSuffix(s);
    var i := |s| - |t|;
    assert t == s[i..];
    StripInside(t);
    var r := TrimEnd(t);
    assert Strip(s) == r;
    assert r == t[..|r|];
    assert s[i..i + |r|] == t[..|r|];
    forall k | i + |r| <= k < |s|
      ensures IsWhitespace(s[k])
    {
      assert s[k] == t[k - i];
    }
  }

  /** Trimming the end of a text that starts with non-whitespace. */
  lemma StripInside(t: string)
    requires t != [] ==> !IsWhitespace(t[0])
    ensures var r := TrimEnd(t);
      && |r| <= |t| && r == t[..|r|]
      && (forall k :: |r| <= k < |t| ==> IsWhitespace(t[k]))
      && (r != [] ==> !IsWhitespace(r[0]) && !IsWhitespace(r[|r| - 1]))
  {
    TrimEndPrefix(t);
    var r := TrimEnd(t);
    if r != [] {
      assert r[0] == t[0];
    }
  }

  /** A text that starts and ends with non-whitespace is its own `strip()`. */
  lemma StripKeeps(s: string)
    requires s == [] || (!IsWhitespace(s[0]) && !IsWhitespace(s[|s| - 1]))
    ensures Strip(s) == s
  {
  }

  /** Digits with single underscores between them, as `int()` accepts. */
  predicate GroupedDigits(s: string) {
    && |s| > 0 && IsDigit(s[0]) && IsDigit(s[|s| - 1])
    && (forall k :: 0 <= k < |s| ==> IsDigit(s[k]) || s[k] == '_')
    && (forall k :: 0 <= k < |s| - 1 ==> s[k] == '_' ==> s[k + 1] != '_')
  }

  /** The digits of a text, its underscores left out. */
  function Ungrouped(s: string): string {
    if s == [] then []
    else (if s[0] == '_' then [] else [s[0]]) + Ungrouped(s[1..])
  }

  /** Without its underscores, a text of digits and underscores is all digits; digits alone stay as they are. */
  lemma {:induction false} UngroupedDigits(s: string)
    ensures (forall k :: 0 <= k < |s| ==> IsDigit(s[k]) || s[k] == '_') ==> AllDigits(Ungrouped(s))
    ensures AllDigits(s) ==> Ungrouped(s) == s
  {
    if s != [] {
      UngroupedDigits(s[1..]);
      assert forall k :: 0 <= k < |s| - 1 ==> s[1..][k] == s[k + 1];
      assert s == [s[0]] + s[1..];
    }
  }

  /**
   * `int(s)` in base 10: whitespace around, an optional sign, then ASCII digits grouped
   * by single underscores. None where Python raises ValueError.
   */
  function IntValue(s: string): Option<int> {
    var t := Strip(s);
    if |t| > 0 && (t[0] == '+' || t[0] == '-') then
      if GroupedDigits(t[1..]) then
        UngroupedDigits(t[1..]);
        var n := DigitsValue(Ungrouped(t[1..]));
        Some(if t[0] == '-' then -(n as int) else n)
      else None
    else if GroupedDigits(t) then
      UngroupedDigits(t);
      Some(DigitsValue(Ungrouped(t)))
    else None
  }

  /** A non-empty digit string reads as its value. */
  lemma IntValueDigits(t: string)
    requires |t| > 0 && AllDigits(t)
    ensures IntValue(t) == Some(DigitsValue(t) as int)
  {
    assert IsDigit(t[0]) && IsDigit(t[|t| - 1]);
    StripKeeps(t);
    UngroupedDigits(t);
  }

  /** Reading back the decimal text of n gives n. */
  lemma IntValueNatText(n: nat)
    ensures IntValue(NatText(n)) == Some(n)
  {
    IntValueDigits(NatText(n));
    NatTextRoundTrip(n);
  }

  /** A character that is neither whitespace, a sign, a digit nor '_' makes `int()` fail. */
  lemma IntValueRejects(s: string, k: nat)
    requires k < |s| && !IsWhitespace(s[k]) && !IsDigit(s[k])
    requires s[k] != '_' && s[k] != '+' && s[k] != '-'
    ensures IntValue(s) == None
  {
    StripSlice(s);
    var t := Strip(s);
    var i := |s| - |TrimStart(s)|;
    assert i <= k < i + |t|;
    assert t[k - i] == s[k];
    if |t| > 0 && (t[0] == '+' || t[0] == '-') {
      assert t[1..][k - i - 1] == s[k];
    }
  }

  /** The position of the first c in s. */
  function IndexOf(s: string, c: char): (k: nat)
    requires c in s
    ensures k < |s| && s[k] == c && c !in s[..k]
  {
    if s[0] == c then 0
    else
      assert c in s[1..] by { var j :| 0 <= j < |s| && s[j] == c; assert s[1..][j - 1] == c; }
      var k := 1 + IndexOf(s[1..], c);
      assert s[..k] == [s[0]] + s[1..][..k - 1];
      k
  }

  /**
   * `Fraction(int(a), int(b))` after `split('/')` into exactly two parts, else
   * `Fraction(int(s))`: a zero denominator raises ZeroDivisionError, and anything else
   * malformed ValueError.
   */
  function FractionValue(s: string): Result<real> {
    if '/' in s then
      var k := IndexOf(s, '/');
      var numText, rest := s[..k], s[k + 1..];
      if '/' in rest then Err(ValueError)
      else
        match (IntValue(numText), IntValue(rest))
        case (Some(num), Some(den)) =>
          if den == 0 then Err(ZeroDivisionError) else Ok(num as real / den as real)
        case _ => Err(ValueError)
    else
      match IntValue(s)
      case Some(n) => Ok(n as real)
      case None => Err(ValueError)
  }

  /** A text with two or more '/' does not split into exactly two parts: ValueError. */
  lemma FractionValueSlashes(s: string, i: nat, j: nat)
    requires i < j < |s| && s[i] == '/' && s[j] == '/'
    ensures FractionValue(s) == Err(ValueError)
  {
    assert '/' in s;
    var k := IndexOf(s, '/');
    assert k <= i;
    assert s[k + 1..][j - k - 1] == '/';
  }

  /** `int(s)` that must not be negative, as an exponent: ValueError otherwise. */
  function ExponentText(s: string): (r: Result<nat>)
    ensures r.Err? ==> r.error == ValueError
  {
    match IntValue(s)
    case Some(n) => if n < 0 then Err(ValueError) else Ok(n)
    case None => Err(ValueError)
  }
}
