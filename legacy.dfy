/**
 * `parse_polynomial` (beta_v/v2.py:280-410), an older reader of polynomial texts that
 * works by string splitting: spaces are removed, a '+' is written before every '-', the
 * text is split at the '+' signs, and each piece ("3", "-x", "2/3x^4", "1/2*x^3") is read
 * on its own and added to the coefficient at its exponent.
 *
 * The code as written never reads the exponent of a term with an explicit '*', so
 * "3*x^2" lands at exponent 0. ShapeAsWritten and TermAsWritten model that; the reader
 * itself (Term, PolynomialOf, ParsePolynomial) reads the exponent after a '*' as it does
 * after an implicit product.
 */
module Legacy {
  import opened Results
  import opened Text
  import opened Polynomials

  // ---------------------------------------------------------------------------
  // The str methods the reader uses
  // ---------------------------------------------------------------------------

  /** `s.replace(c, "")`. */
  function Without(s: string, c: char): (r: string)
    ensures c !in r
  {
    if s == [] then []
    else
      var rest := Without(s[1..], c);
      if s[0] == c then rest else [s[0]] + rest
  }

  /** Dropping c keeps every other character, in order: a text without c is unchanged. */
  lemma {:induction false} WithoutKeeps(s: string, c: char)
    ensures forall ch :: ch != c ==> multiset(Without(s, c))[ch] == multiset(s)[ch]
    ensures c !in s ==> Without(s, c) == s
  {
    if s != [] {
      WithoutKeeps(s[1..], c);
      assert s == [s[0]] + s[1..];
      assert multiset(s) == multiset([s[0]]) + multiset(s[1..]);
    }
  }

  lemma {:induction false} WithoutAppend(a: string, b: string, c: char)
    ensures Without(a + b, c) == Without(a, c) + Without(b, c)
  {
    if a == [] {
      assert a + b == b;
    } else {
      assert (a + b)[0] == a[0] && (a + b)[1..] == a[1..] + b;
      WithoutAppend(a[1..], b, c);
      var head := if a[0] == c then "" else [a[0]];
      var rest, tail := Without(a[1..], c), Without(b, c);
      assert Without(a + b, c) == head + (rest + tail);
      AppendAssoc(head, rest, tail);
    }
  }

  /** `s.replace("-", "+-")`. */
  function DelimitMinus(s: string): (r: string)
    ensures |r| == |s| + multiset(s)['-']
  {
    if s == [] then []
    else
      assert s == [s[0]] + s[1..];
      assert multiset(s) == multiset([s[0]]) + multiset(s[1..]);
      (if s[0] == '-' then "+-" else [s[0]]) + DelimitMinus(s[1..])
  }

  /** Every '-' of the result directly follows a '+', and apart from the added '+' signs the text is unchanged. */
  lemma {:induction false} DelimitMinusFacts(s: string)
    ensures var r := DelimitMinus(s);
      forall j :: 0 <= j < |r| && r[j] == '-' ==> 0 < j && r[j - 1] == '+'
    ensures Without(DelimitMinus(s), '+') == Without(s, '+')
  {
    if s != [] {
      DelimitMinusFacts(s[1..]);
      var head := if s[0] == '-' then "+-" else [s[0]];
      var rest := DelimitMinus(s[1..]);
      var r := DelimitMinus(s);
      assert r == head + rest;
      forall j | 0 <= j < |r| && r[j] == '-'
        ensures 0 < j && r[j - 1] == '+'
      {
        if j >= |head| {
          assert rest[j - |head|] == '-';
        }
      }
      WithoutAppend(head, rest, '+');
      assert s == [s[0]] + s[1..];
      WithoutAppend([s[0]], s[1..], '+');
    }
  }

  /** `s.split(c)`: one more piece than s has c's. */
  function Split(s: string, c: char): (parts: seq<string>)
    ensures |parts| == multiset(s)[c] + 1
    decreases |s|
  {
    if c in s then
      var k := IndexOf(s, c);
      SplitAround(s, k);
      assert multiset(s) == multiset(s[..k]) + multiset([c]) + multiset(s[k + 1..]);
      [s[..k]] + Split(s[k + 1..], c)
    else
      [s]
  }

  lemma SplitAround(s: string, k: nat)
    requires k < |s|
    ensures s == s[..k] + [s[k]] + s[k + 1..]
  {
  }

  /** `c.join(parts)`, the inverse of Split. */
  function JoinWith(parts: seq<string>, c: char): string {
    if parts == [] then ""
    else if |parts| == 1 then parts[0]
    else parts[0] + [c] + JoinWith(parts[1..], c)
  }

  /** The pieces hold no c, and joining them with c gives back the text. */
  lemma {:induction false} SplitJoin(s: string, c: char)
    ensures forall k :: 0 <= k < |Split(s, c)| ==> c !in Split(s, c)[k]
    ensures JoinWith(Split(s, c), c) == s
    decreases |s|
  {
    if c in s {
      var k := IndexOf(s, c);
      SplitJoin(s[k + 1..], c);
      var parts := Split(s, c);
      assert parts[1..] == Split(s[k + 1..], c);
      SplitAround(s, k);
    }
  }

  /**
   * After the rewriting, a piece of the split holds a '-' only as its first character:
   * each piece is one signed term.
   */
  lemma {:induction false} SplitSigned(r: string)
    requires forall j :: 0 < j < |r| && r[j] == '-' ==> r[j - 1] == '+'
    ensures var parts := Split(r, '+');
      forall k, j :: 0 <= k < |parts| && 0 < j < |parts[k]| ==> parts[k][j] != '-'
    decreases |r|
  {
    var parts := Split(r, '+');
    if '+' in r {
      var k := IndexOf(r, '+');
      var rest := r[k + 1..];
      forall j | 0 < j < |rest| && rest[j] == '-'
        ensures rest[j - 1] == '+'
      {
        assert r[k + 1 + j] == '-';
      }
      SplitSigned(rest);
      forall j | 0 < j < k
        ensures r[..k][j] != '-'
      {
        assert r[..k][j] == r[j] && r[..k][j - 1] == r[j - 1];
      }
      assert parts == [r[..k]] + Split(rest, '+');
    } else {
      assert parts == [r];
      forall j | 0 < j < |r|
        ensures r[j] != '-'
      {
        assert r[j - 1] != '+';
      }
    }
  }

  // ---------------------------------------------------------------------------
  // One term (v2.py:307-406)
  // ---------------------------------------------------------------------------

  /** A term's coefficient text, variable text and exponent. */
  datatype Shape = Shape(coefficient: string, variable: string, exponent: nat)

  /** `str.startswith` of a single character. */
  predicate StartsWith(s: string, ch: char) {
    |s| > 0 && s[0] == ch
  }

  /**
   * The exponent of a variable part (v2.py:353-366): `x` is 1, `x^n` is `int(n)`, which
   * must not be negative, and anything else is a ValueError.
   */
  function VariableExponent(v: string): (r: Result<nat>)
    ensures r.Err? ==> r.error == ValueError
    ensures r.Ok? ==> StartsWith(v, 'x')
  {
    if v == "x" then Ok(1)
    else if |v| >= 2 && v[..2] == "x^" then ExponentText(v[2..])
    else Err(ValueError)
  }

  /** `x` reads as 1 and `x^n` as n: reading inverts writing the variable part. */
  lemma VariableExponentText(n: nat)
    ensures VariableExponent("x") == Ok(1)
    ensures VariableExponent("x^" + NatText(n)) == Ok(n)
  {
    var v := "x^" + NatText(n);
    assert v[..2] == "x^" && v[2..] == NatText(n);
    IntValueNatText(n);
  }

  /**
   * The coefficient text's value (v2.py:377-399): `a/b` with exactly one '/' is
   * `Fraction(int(a), int(b))`, any other non-empty text `int(text)`, and an empty text
   * is 0 beside a variable part and a ValueError alone. A zero denominator raises
   * ZeroDivisionError, which the `except` clause does not catch.
   */
  function CoefficientValue(c: string, v: string): (r: Result<real>)
    ensures r.Err? ==> r.error == ValueError || (r.error == ZeroDivisionError && '/' in c)
    ensures c == "" ==> (r.Ok? <==> v != "") && (r.Ok? ==> r.value == 0.0)
  {
    if c == "" then (if v == "" then Err(ValueError) else Ok(0.0))
    else FractionValue(c)
  }

  /**
   * A term without '*' (v2.py:344-373): with an 'x', the text before the first 'x' is the
   * coefficient ("1" when empty) and the rest the variable part; without, all of it is a
   * constant.
   */
  function PlainShape(t: string): (r: Result<Shape>)
    ensures r.Err? ==> r.error == ValueError
  {
    if 'x' in t then
      var k := IndexOf(t, 'x');
      var e :- VariableExponent(t[k..]);
      Ok(Shape(if k == 0 then "1" else t[..k], t[k..], e))
    else
      Ok(Shape(t, "", 0))
  }

  /**
   * A term's parts as the code reads them (v2.py:332-373). With a '*' the text must have
   * exactly two pieces, the second starting with 'x'; the exponent stays 0.
   */
  function ShapeAsWritten(t: string): (r: Result<Shape>)
    ensures r.Err? ==> r.error == ValueError
  {
    if '*' in t then
      var parts := Split(t, '*');
      if |parts| != 2 || !StartsWith(parts[1], 'x') then Err(ValueError)
      else Ok(Shape(parts[0], parts[1], 0))
    else
      PlainShape(t)
  }

  /** A term's parts, with the variable part after a '*' read for its exponent as well. */
  function TermShape(t: string): (r: Result<Shape>)
    ensures r.Err? ==> r.error == ValueError
  {
    var s :- ShapeAsWritten(t);
    if '*' in t then
      var e :- VariableExponent(s.variable);
      Ok(s.(exponent := e))
    else
      Ok(s)
  }

  /**
   * The term after `strip()` (v2.py:308-328): None when it is empty or exactly "0",
   * otherwise whether a leading '-' negates it and the text after that sign, which must
   * not be empty.
   */
  function SignedBody(raw: string): (r: Result<Option<(bool, string)>>)
    ensures r.Err? ==> r.error == ValueError
  {
    var t := Strip(raw);
    if t == "" || t == "0" then Ok(None)
    else if t[0] == '-' then
      if t[1..] == "" then Err(ValueError) else Ok(Some((true, t[1..])))
    else
      Ok(Some((false, t)))
  }

  /** The signed coefficient at the shape's exponent (v2.py:377-402). */
  function SignedTerm(negative: bool, shape: Result<Shape>): (r: Result<Option<(nat, real)>>)
    ensures r != Ok(None)
  {
    var s :- shape;
    var c :- CoefficientValue(s.coefficient, s.variable);
    Ok(Some((s.exponent, if negative then -c else c)))
  }

  /** A term reading with its coefficient negated; a failure or a skipped term stays as it is. */
  function Negated(r: Result<Option<(nat, real)>>): Result<Option<(nat, real)>> {
    if r.Ok? && r.value.Some? then Ok(Some((r.value.value.0, -r.value.value.1))) else r
  }

  lemma SignedTermNegates(shape: Result<Shape>)
    ensures SignedTerm(true, shape) == Negated(SignedTerm(false, shape))
  {
  }

  /**
   * What one term adds to the dictionary: None when it is skipped, else its exponent and
   * signed coefficient. A term that is only "-" is a ValueError; any failure is a
   * ValueError, or a ZeroDivisionError from a zero denominator.
   */
  function Term(raw: string): (r: Result<Option<(nat, real)>>)
    ensures r == Ok(None) <==> Strip(raw) == "" || Strip(raw) == "0"
    ensures Strip(raw) == "-" ==> r == Err(ValueError)
    ensures r.Err? ==> r.error == ValueError || r.error == ZeroDivisionError
  {
    match SignedBody(raw)
    case Err(e) => Err(e)
    case Ok(None) => Ok(None)
    case Ok(Some((negative, body))) => SignedTerm(negative, TermShape(body))
  }

  /** One term as the code reads it: the same, with ShapeAsWritten. */
  function TermAsWritten(raw: string): (r: Result<Option<(nat, real)>>)
    ensures r == Ok(None) <==> Strip(raw) == "" || Strip(raw) == "0"
    ensures r.Err? ==> r.error == ValueError || r.error == ZeroDivisionError
  {
    match SignedBody(raw)
    case Err(e) => Err(e)
    case Ok(None) => Ok(None)
    case Ok(Some((negative, body))) => SignedTerm(negative, ShapeAsWritten(body))
  }

  // ---------------------------------------------------------------------------
  // The reader (v2.py:280-410)
  // ---------------------------------------------------------------------------

  /** How one term text is read: Term, or TermAsWritten. */
  type TermReader = string -> Result<Option<(nat, real)>>

  /** `parsed_terms[exp] = parsed_terms.get(exp, Fraction(0)) + coeff` (v2.py:406). */
  function AddTerm(m: map<nat, real>, t: Option<(nat, real)>): map<nat, real> {
    if t.None? then m else m[t.value.0 := Coef(m, t.value.0) + t.value.1]
  }

  lemma AddTermSome(m: map<nat, real>, e: nat, c: real)
    ensures AddTerm(m, Some((e, c))) == m[e := Coef(m, e) + c]
  {
  }

  /** The loop from piece i on, given the dictionary so far: the first failing term's error, or the final dictionary. */
  function CollectFrom(read: TermReader, parts: seq<string>, i: nat, m: map<nat, real>): Result<map<nat, real>>
    requires i <= |parts|
    decreases |parts| - i
  {
    if i == |parts| then Ok(m)
    else
      var t :- read(parts[i]);
      CollectFrom(read, parts, i + 1, AddTerm(m, t))
  }

  /** One iteration: a failing term ends the loop with its error, any other adds its coefficient. */
  lemma CollectStep(read: TermReader, parts: seq<string>, i: nat, m: map<nat, real>)
    requires i < |parts|
    ensures read(parts[i]).Err? ==> CollectFrom(read, parts, i, m) == Err(read(parts[i]).error)
    ensures read(parts[i]).Ok? ==>
      CollectFrom(read, parts, i, m) == CollectFrom(read, parts, i + 1, AddTerm(m, read(parts[i]).value))
  {
  }

  /** A '0' written before a leading sign (v2.py:295-296). */
  function PrefixSign(e: string): string {
    if e != [] && (e[0] == '-' || e[0] == '+') then "0" + e else e
  }

  /** The term texts of a text without spaces (v2.py:295-303). */
  function TermTexts(e: string): seq<string> {
    Split(DelimitMinus(PrefixSign(e)), '+')
  }

  /**
   * What `parse_polynomial(s)` returns or raises when terms are read by `read`;
   * `Polynomial(parsed_terms)` drops zero coefficients.
   */
  function PolynomialFrom(read: TermReader, s: string): Result<Polynomial> {
    var e := Without(s, ' ');
    if e == "" then Ok(Zero)
    else
      var m :- CollectFrom(read, TermTexts(e), 0, map[]);
      Ok(Clean(m))
  }

  /** `parse_polynomial(s)`, with the exponent after a '*' read. */
  function PolynomialOf(s: string): Result<Polynomial> {
    PolynomialFrom(Term, s)
  }

  /** `parse_polynomial(s)` as written. */
  function PolynomialAsWritten(s: string): Result<Polynomial> {
    PolynomialFrom(TermAsWritten, s)
  }

  /** `parse_polynomial` (v2.py:280-410). */
  method ParsePolynomial(expressionStr: string) returns (r: Result<Polynomial>)
    ensures r == PolynomialOf(expressionStr)
  {
    var e := Without(expressionStr, ' ');
    if e == "" {
      return Ok(Zero);
    }
    ghost var spaceless := e;
    if e[0] == '-' || e[0] == '+' {
      e := "0" + e;
    }
    assert e == PrefixSign(spaceless);
    e := DelimitMinus(e);
    var termsList := Split(e, '+');
    assert termsList == TermTexts(spaceless);
    var parsedTerms :- CollectTerms(termsList);
    r := Ok(Clean(parsedTerms));
  }

  /** The loop over the term texts (v2.py:307-406). */
  method CollectTerms(termsList: seq<string>) returns (r: Result<map<nat, real>>)
    ensures r == CollectFrom(Term, termsList, 0, map[])
  {
    var parsedTerms: map<nat, real> := map[];
    for i := 0 to |termsList|
      invariant CollectFrom(Term, termsList, 0, map[]) == CollectFrom(Term, termsList, i, parsedTerms)
    {
      CollectStep(Term, termsList, i, parsedTerms);
      var term :- Term(termsList[i]);
      if term.Some? {
        var (exp, coeff) := term.value;
        AddTermSome(parsedTerms, exp, coeff);
        parsedTerms := parsedTerms[exp := Coef(parsedTerms, exp) + coeff];
      }
    }
    r := Ok(parsedTerms);
  }

  // ---------------------------------------------------------------------------
  // Properties of the reader
  // ---------------------------------------------------------------------------

  /** The coefficient a term's reading puts at exponent e. */
  function Contribution(t: Result<Option<(nat, real)>>, e: nat): real {
    if t.Ok? && t.value.Some? && t.value.value.0 == e then t.value.value.1 else 0.0
  }

  /** The sum of what the pieces from i on put at exponent e. */
  function SumAt(read: TermReader, parts: seq<string>, i: nat, e: nat): real
    requires i <= |parts|
    decreases |parts| - i
  {
    if i == |parts| then 0.0 else Contribution(read(parts[i]), e) + SumAt(read, parts, i + 1, e)
  }

  lemma AddTermAt(m: map<nat, real>, t: Result<Option<(nat, real)>>)
    requires t.Ok?
    ensures forall e: nat :: Coef(AddTerm(m, t.value), e) == Coef(m, e) + Contribution(t, e)
  {
  }

  /**
   * The loop fails exactly when some term fails, with the error of the first one that
   * does; otherwise every coefficient is the sum of the coefficients the terms put at
   * its exponent.
   */
  lemma {:induction false} CollectSums(read: TermReader, parts: seq<string>, i: nat, m: map<nat, real>)
    requires i <= |parts|
    ensures CollectFrom(read, parts, i, m).Ok? <==> forall k :: i <= k < |parts| ==> read(parts[k]).Ok?
    ensures CollectFrom(read, parts, i, m).Err? ==>
      exists k :: i <= k < |parts| && read(parts[k]).Err? && CollectFrom(read, parts, i, m).error == read(parts[k]).error
        && forall j :: i <= j < k ==> read(parts[j]).Ok?
    ensures CollectFrom(read, parts, i, m).Ok? ==>
      forall e: nat :: Coef(CollectFrom(read, parts, i, m).value, e) == Coef(m, e) + SumAt(read, parts, i, e)
    decreases |parts| - i
  {
    if i < |parts| {
      CollectStep(read, parts, i, m);
      if read(parts[i]).Ok? {
        var m' := AddTerm(m, read(parts[i]).value);
        CollectSums(read, parts, i + 1, m');
        AddTermAt(m, read(parts[i]));
      }
    }
  }

  /**
   * The polynomial read is the sum, per exponent, of the terms' coefficients, with zero
   * sums dropped; it fails exactly when a term fails, with the first failing term's error.
   */
  lemma PolynomialSums(read: TermReader, s: string)
    ensures var e := Without(s, ' ');
      e == "" ==> PolynomialFrom(read, s) == Ok(Zero)
    ensures var e := Without(s, ' '); var parts := TermTexts(e);
      e != "" ==>
        && (PolynomialFrom(read, s).Ok? <==> forall k :: 0 <= k < |parts| ==> read(parts[k]).Ok?)
        && (PolynomialFrom(read, s).Err? ==>
              exists k :: 0 <= k < |parts| && read(parts[k]).Err? && PolynomialFrom(read, s).error == read(parts[k]).error
                && forall j :: 0 <= j < k ==> read(parts[j]).Ok?)
        && (PolynomialFrom(read, s).Ok? ==> forall d: nat :: Coef(PolynomialFrom(read, s).value, d) == SumAt(read, parts, 0, d))
  {
    var e := Without(s, ' ');
    if e != "" {
      CollectSums(read, TermTexts(e), 0, map[]);
    }
  }

  /** Spaces never matter: the text without them reads the same. */
  lemma SpacesIgnored(read: TermReader, s: string)
    ensures PolynomialFrom(read, Without(s, ' ')) == PolynomialFrom(read, s)
  {
    WithoutKeeps(Without(s, ' '), ' ');
  }

  lemma {:induction false} DelimitMinusWithout(s: string)
    requires '-' !in s
    ensures DelimitMinus(s) == s
  {
    if s != [] {
      assert '-' !in s[1..] by {
        assert forall j :: 0 <= j < |s| - 1 ==> s[1..][j] == s[j + 1];
      }
      DelimitMinusWithout(s[1..]);
      assert s == [s[0]] + s[1..];
    }
  }

  /** A text with no space, '+' or '-' is one term, and reads as that term does. */
  lemma SingleTerm(read: TermReader, t: string)
    requires t != "" && ' ' !in t && '+' !in t && '-' !in t
    ensures TermTexts(t) == [t]
    ensures read(t).Err? ==> PolynomialFrom(read, t) == Err(read(t).error)
    ensures read(t).Ok? ==> PolynomialFrom(read, t) == Ok(Clean(AddTerm(map[], read(t).value)))
  {
    WithoutKeeps(t, ' ');
    assert PrefixSign(t) == t;
    DelimitMinusWithout(t);
    assert TermTexts(t) == [t];
    CollectStep(read, [t], 0, map[]);
  }

  /**
   * The split pieces are the rewritten text cut at its '+' signs, and each holds a '-'
   * only as its first character, as the sign of its term.
   */
  lemma TermTextsSigned(e: string)
    ensures var parts := TermTexts(e);
      && JoinWith(parts, '+') == DelimitMinus(PrefixSign(e))
      && (forall k :: 0 <= k < |parts| ==> '+' !in parts[k])
      && (forall k, j :: 0 <= k < |parts| && 0 < j < |parts[k]| ==> parts[k][j] != '-')
  {
    var r := DelimitMinus(PrefixSign(e));
    DelimitMinusFacts(PrefixSign(e));
    SplitJoin(r, '+');
    SplitSigned(r);
  }

  // ---------------------------------------------------------------------------
  // Terms the reader accepts
  // ---------------------------------------------------------------------------

  lemma DigitsLack(d: string, c: char)
    requires AllDigits(d) && !IsDigit(c)
    ensures c !in d
  {
    assert forall j :: 0 <= j < |d| ==> IsDigit(d[j]);
  }

  /** The first c of a text is at p when c is at p and nowhere before. */
  lemma IndexOfAt(t: string, c: char, p: nat)
    requires p < |t| && t[p] == c && c !in t[..p]
    ensures IndexOf(t, c) == p
  {
    var k := IndexOf(t, c);
    assert forall j :: 0 <= j < p ==> t[..p][j] == t[j];
    assert forall j :: 0 <= j < k ==> t[..k][j] == t[j];
  }

  /** A text without whitespace at its ends that is not '-'-led reads as not negated. */
  lemma PositiveBody(t: string)
    requires t != "" && t != "0" && t[0] != '-'
    requires !IsWhitespace(t[0]) && !IsWhitespace(t[|t| - 1])
    ensures SignedBody(t) == Ok(Some((false, t)))
  {
    StripKeeps(t);
  }

  /** Without '*' both readings are the '*'-free one. */
  lemma ShapeWithoutStar(t: string)
    requires '*' !in t
    ensures ShapeAsWritten(t) == PlainShape(t) && TermShape(t) == PlainShape(t)
  {
  }

  /** A non-empty digit text is the coefficient its digits spell. */
  lemma CoefficientDigits(d: string, v: string)
    requires AllDigits(d) && d != ""
    ensures CoefficientValue(d, v) == Ok(DigitsValue(d) as real)
  {
    DigitsLack(d, '/');
    IntValueDigits(d);
  }

  /** Digits followed by a variable part: the digits ("1" if none) are the coefficient. */
  lemma PlainShapeOf(d: string, v: string)
    requires AllDigits(d) && StartsWith(v, 'x')
    ensures var r := PlainShape(d + v);
      && (VariableExponent(v).Err? ==> r == Err(VariableExponent(v).error))
      && (VariableExponent(v).Ok? ==> r == Ok(Shape(if d == "" then "1" else d, v, VariableExponent(v).value)))
  {
    var t := d + v;
    DigitsLack(d, 'x');
    assert t[..|d|] == d && t[|d|..] == v;
    IndexOfAt(t, 'x', |d|);
  }

  /** Digits, '*', and a variable part without '*': the two pieces of the split. */
  lemma StarParts(d: string, v: string)
    requires AllDigits(d) && '*' !in v
    ensures Split(d + "*" + v, '*') == [d, v]
  {
    var t := d + "*" + v;
    DigitsLack(d, '*');
    assert t[..|d|] == d && t[|d| + 1..] == v;
    IndexOfAt(t, '*', |d|);
  }

  /** Digits, '*', and `x` or `x^n`: the pieces, and the exponent each reading gives. */
  lemma StarShapes(d: string, v: string, n: nat)
    requires AllDigits(d) && (v == "x" || v == "x^" + NatText(n))
    requires v == "x" ==> n == 1
    ensures ShapeAsWritten(d + "*" + v) == Ok(Shape(d, v, 0))
    ensures TermShape(d + "*" + v) == Ok(Shape(d, v, n))
  {
    VariableExponentText(n);
    DigitsLack(NatText(n), '*');
    assert '*' !in v;
    StarParts(d, v);
  }

  lemma DigitsOne()
    ensures AllDigits("1") && DigitsValue("1") == 1
  {
  }

  lemma ZeroText()
    ensures NatText(0) == "0" && DigitsValue("0") == 0
  {
  }

  /** `a` for a > 0 reads as the constant a; "0" is skipped. */
  lemma TermConstant(a: nat)
    ensures a == 0 ==> Term(NatText(a)) == Ok(None)
    ensures a > 0 ==> Term(NatText(a)) == Ok(Some((0, a as real)))
  {
    var d := NatText(a);
    NatTextRoundTrip(a);
    ZeroText();
    if a > 0 {
      assert IsDigit(d[0]) && IsDigit(d[|d| - 1]);
      PositiveBody(d);
      DigitsLack(d, '*');
      DigitsLack(d, 'x');
      ShapeWithoutStar(d);
      CoefficientDigits(d, "");
      assert Term(d) == SignedTerm(false, PlainShape(d));
    }
  }

  /** `a/b` reads as the fraction a/b, and raises ZeroDivisionError when b is 0. */
  lemma FractionText(a: nat, b: nat)
    ensures var r := FractionValue(NatText(a) + "/" + NatText(b));
      && (b == 0 ==> r == Err(ZeroDivisionError))
      && (b != 0 ==> r == Ok(a as real / b as real))
  {
    var da, db := NatText(a), NatText(b);
    var t := da + "/" + db;
    DigitsLack(da, '/');
    DigitsLack(db, '/');
    assert t[..|da|] == da && t[|da| + 1..] == db;
    IndexOfAt(t, '/', |da|);
    IntValueNatText(a);
    IntValueNatText(b);
  }

  /** The term `a/b` reads as the constant a/b, and raises ZeroDivisionError when b is 0. */
  lemma TermFraction(a: nat, b: nat)
    ensures var r := Term(NatText(a) + "/" + NatText(b));
      && (b == 0 ==> r == Err(ZeroDivisionError))
      && (b != 0 ==> r == Ok(Some((0, a as real / b as real))))
  {
    var da, db := NatText(a), NatText(b);
    var t := da + "/" + db;
    assert IsDigit(t[0]) && t[|t| - 1] == db[|db| - 1];
    PositiveBody(t);
    DigitsLack(da, '*');
    DigitsLack(db, '*');
    DigitsLack(da, 'x');
    DigitsLack(db, 'x');
    assert '*' !in t && 'x' !in t;
    ShapeWithoutStar(t);
    assert PlainShape(t) == Ok(Shape(t, "", 0));
    FractionText(a, b);
    assert CoefficientValue(t, "") == FractionValue(t);
    assert Term(t) == SignedTerm(false, PlainShape(t));
  }

  /** `ax^n` (and `ax`, `x^n`, `x`, the digits left out) reads as a at exponent n. */
  lemma TermImplicit(d: string, v: string, n: nat)
    requires AllDigits(d) && (v == "x" || v == "x^" + NatText(n))
    requires v == "x" ==> n == 1
    ensures Term(d + v) == Ok(Some((n, if d == "" then 1.0 else DigitsValue(d) as real)))
  {
    var t := d + v;
    VariableExponentText(n);
    DigitsLack(NatText(n), '*');
    assert t[|t| - 1] == v[|v| - 1];
    assert t[0] == (if d == "" then 'x' else d[0]);
    PositiveBody(t);
    DigitsLack(d, '*');
    assert '*' !in t;
    ShapeWithoutStar(t);
    PlainShapeOf(d, v);
    var c := if d == "" then "1" else d;
    DigitsOne();
    CoefficientDigits(c, v);
    assert Term(t) == SignedTerm(false, PlainShape(t));
  }

  /** `a*x^n` reads as `ax^n`: a at exponent n. */
  lemma TermStar(d: string, v: string, n: nat)
    requires AllDigits(d) && d != "" && (v == "x" || v == "x^" + NatText(n))
    requires v == "x" ==> n == 1
    ensures Term(d + "*" + v) == Ok(Some((n, DigitsValue(d) as real)))
    ensures Term(d + "*" + v) == Term(d + v)
  {
    TermImplicit(d, v, n);
    var t := d + "*" + v;
    assert t[|t| - 1] == v[|v| - 1];
    assert t[0] == d[0];
    PositiveBody(t);
    StarShapes(d, v, n);
    CoefficientDigits(d, v);
    assert Term(t) == SignedTerm(false, TermShape(t));
  }

  /** A '-' in front negates a term that is not skipped. */
  lemma TermNegated(t: string)
    requires t != "" && t != "0" && t[0] != '-'
    requires !IsWhitespace(t[0]) && !IsWhitespace(t[|t| - 1])
    ensures Term(t) != Ok(None)
    ensures Term("-" + t) == Negated(Term(t))
  {
    PositiveBody(t);
    var u := "-" + t;
    StripKeeps(u);
    assert u[1..] == t;
    assert SignedBody(u) == Ok(Some((true, t)));
    assert Term(t) == SignedTerm(false, TermShape(t));
    assert Term(u) == SignedTerm(true, TermShape(t));
    SignedTermNegates(TermShape(t));
  }

  /** With nothing before the '*' the coefficient is 0, so `*x^n` adds nothing. */
  lemma StarWithoutCoefficient(v: string, n: nat)
    requires v == "x" || v == "x^" + NatText(n)
    requires v == "x" ==> n == 1
    ensures Term("*" + v) == Ok(Some((n, 0.0)))
  {
    var t := "*" + v;
    assert t == "" + "*" + v;
    assert t[|t| - 1] == v[|v| - 1];
    PositiveBody(t);
    StarShapes("", v, n);
    assert Term(t) == SignedTerm(false, TermShape(t));
  }

  // ---------------------------------------------------------------------------
  // The exponent after '*' is never read
  // ---------------------------------------------------------------------------

  /**
   * As written, `a*x^n` for a non-empty digit text a lands at exponent 0 whatever n is,
   * where the reader puts it at n, as it does `ax^n`.
   */
  lemma StarExponentLost(d: string, n: nat)
    requires AllDigits(d) && d != ""
    ensures TermAsWritten(d + "*x^" + NatText(n)) == Ok(Some((0, DigitsValue(d) as real)))
    ensures Term(d + "*x^" + NatText(n)) == Ok(Some((n, DigitsValue(d) as real)))
  {
    var v := "x^" + NatText(n);
    var t := d + "*" + v;
    assert d + "*x^" + NatText(n) == t;
    TermStar(d, v, n);
    assert t[|t| - 1] == v[|v| - 1];
    assert t[0] == d[0];
    PositiveBody(t);
    StarShapes(d, v, n);
    CoefficientDigits(d, v);
    assert TermAsWritten(t) == SignedTerm(false, ShapeAsWritten(t));
  }

  lemma CleanSingle(e: nat, a: real)
    ensures Clean(AddTerm(map[], Some((e, a)))) == Mono(e, a)
  {
    Ext(Clean(AddTerm(map[], Some((e, a)))), Mono(e, a));
  }

  /** The whole text `a*x^n`: as written the constant a, by the reader a x^n. */
  lemma StarPolynomialLost(d: string, n: nat)
    requires AllDigits(d) && d != ""
    ensures var t, a := d + "*x^" + NatText(n), DigitsValue(d) as real;
      PolynomialAsWritten(t) == Ok(Mono(0, a)) && PolynomialOf(t) == Ok(Mono(n, a))
  {
    var t := d + "*x^" + NatText(n);
    var a := DigitsValue(d) as real;
    StarExponentLost(d, n);
    NoSeparators(d);
    NoSeparators(NatText(n));
    assert t == d + ("*x^" + NatText(n));
    assert ' ' !in t && '+' !in t && '-' !in t;
    SingleTerm(Term, t);
    SingleTerm(TermAsWritten, t);
    CleanSingle(0, a);
    CleanSingle(n, a);
  }

  lemma NoSeparators(d: string)
    requires AllDigits(d)
    ensures ' ' !in d && '+' !in d && '-' !in d
  {
    DigitsLack(d, ' ');
    DigitsLack(d, '+');
    DigitsLack(d, '-');
  }

  /** The term of the source's own test, `3*x^2`: read as the constant 3 as written, as 3x^2 by the reader. */
  lemma ThreeXSquared()
    ensures TermAsWritten("3*x^2") == Ok(Some((0, 3.0))) && Term("3*x^2") == Ok(Some((2, 3.0)))
    ensures PolynomialAsWritten("3*x^2") == Ok(Mono(0, 3.0)) && PolynomialOf("3*x^2") == Ok(Mono(2, 3.0))
  {
    assert NatText(2) == "2";
    assert AllDigits("3") && DigitsValue("3") == 3;
    assert "3" + "*x^" + NatText(2) == "3*x^2";
    StarExponentLost("3", 2);
    StarPolynomialLost("3", 2);
  }
}
