/**
 * `Polynomial.__str__` (polynomial.py:56-121): the terms in descending exponent order,
 * each written with its coefficient, the coefficients 1 and -1 elided in front of x,
 * joined with " + " and " - ".
 *
 * How a single Fraction coefficient is written (`str(numerator)` or `str(coeff)`,
 * polynomial.py:68-71) is a parameter `fmt`; ValidFormatter states the facts about it
 * the rendering relies on.
 */
module Rendering {
  import opened Polynomials
  import opened Text

  /**
   * What `str(Fraction)` guarantees: a non-empty text that starts with '-' exactly for a
   * negative value, and that is "1" or "-1" exactly for the values 1 and -1.
   */
  ghost predicate ValidFormatter(fmt: real -> string) {
    forall c: real ::
      && |fmt(c)| > 0 && fmt(c) != "-"
      && (fmt(c)[0] == '-' <==> c < 0.0)
      && (fmt(c) == "1" <==> c == 1.0)
      && (fmt(c) == "-1" <==> c == -1.0)
  }

  /** The variable part of a term (polynomial.py:80-85): "", "x" or "x^" and the exponent. */
  function VarText(e: nat): (s: string)
    ensures e == 0 <==> s == ""
    ensures e > 0 ==> s[0] == 'x'
  {
    if e == 0 then "" else if e == 1 then "x" else "x^" + NatText(e)
  }

  /** The text of one term c*x^e (polynomial.py:68-93). */
  function TermText(fmt: real -> string, e: nat, c: real): string {
    var coeffValStr := fmt(c);
    var coeffStr :=
      if e != 0 && coeffValStr == "1" then ""
      else if e != 0 && coeffValStr == "-1" then "-"
      else coeffValStr;
    var variableStr := VarText(e);
    if e > 0 then
      if coeffStr == "" || coeffStr == "-" then coeffStr + variableStr
      else coeffStr + "*" + variableStr
    else
      coeffStr
  }

  /** The coefficient 1 is elided before x, -1 becomes a bare minus, and a constant is its value. */
  lemma TermTextCases(fmt: real -> string, e: nat, c: real)
    requires ValidFormatter(fmt)
    ensures e == 0 ==> TermText(fmt, e, c) == fmt(c)
    ensures e > 0 && c == 1.0 ==> TermText(fmt, e, c) == VarText(e)
    ensures e > 0 && c == -1.0 ==> TermText(fmt, e, c) == "-" + VarText(e)
    ensures e > 0 && c != 1.0 && c != -1.0 ==> TermText(fmt, e, c) == fmt(c) + "*" + VarText(e)
  {
    assert |fmt(c)| > 0;
  }

  /** A term's text is never empty and starts with '-' exactly when its coefficient is negative. */
  lemma TermTextSign(fmt: real -> string, e: nat, c: real)
    requires ValidFormatter(fmt)
    ensures |TermText(fmt, e, c)| > 0
    ensures TermText(fmt, e, c)[0] == '-' <==> c < 0.0
  {
    TermTextCases(fmt, e, c);
    assert (fmt(c)[0] == '-' <==> c < 0.0) && |fmt(c)| > 0;
    if e > 0 && c != 1.0 && c != -1.0 {
      assert TermText(fmt, e, c)[0] == fmt(c)[0];
    }
  }

  // ---------------------------------------------------------------------------
  // Terms in descending order (polynomial.py:61)
  // ---------------------------------------------------------------------------

  /** p without the term at exponent m. */
  function Without(p: Polynomial, m: nat): (r: Polynomial)
    ensures r.Keys == p.Keys - {m}
    ensures forall e | e in r :: r[e] == p[e]
  {
    p - {m}
  }

  /** The largest element of a non-empty set of exponents. */
  function SetMax(s: set<nat>): (m: nat)
    requires s != {}
    ensures m in s && forall e | e in s :: e <= m
  {
    MaxExists(s);
    var m :| m in s && forall e | e in s :: e <= m; m
  }

  /** The exponents largest first, as `sorted(..., reverse=True)` lists them. */
  function Descending(s: set<nat>): (ks: seq<nat>)
    ensures |ks| == |s|
    ensures forall i :: 0 <= i < |ks| ==> ks[i] in s
    decreases |s|
  {
    if s == {} then []
    else
      var m := SetMax(s);
      [m] + Descending(s - {m})
  }

  predicate StrictlyDescending(ks: seq<nat>) {
    forall i, j :: 0 <= i < j < |ks| ==> ks[i] > ks[j]
  }

  lemma ConsDescending(m: nat, rest: seq<nat>)
    requires StrictlyDescending(rest)
    requires forall j :: 0 <= j < |rest| ==> rest[j] < m
    ensures StrictlyDescending([m] + rest)
  {
    var ks := [m] + rest;
    forall i, j | 0 <= i < j < |ks|
      ensures ks[i] > ks[j]
    {
      assert ks[j] == rest[j - 1];
      if i > 0 {
        assert ks[i] == rest[i - 1];
      }
    }
  }

  /** The order is strictly descending, so every exponent is listed exactly once. */
  lemma {:induction false} DescendingSorted(s: set<nat>)
    ensures StrictlyDescending(Descending(s))
    decreases |s|
  {
    if s != {} {
      var m := SetMax(s);
      DescendingSorted(s - {m});
      ConsDescending(m, Descending(s - {m}));
    }
  }

  /** Every exponent is listed. */
  lemma {:induction false} DescendingComplete(s: set<nat>)
    ensures forall e | e in s :: e in Descending(s)
    decreases |s|
  {
    if s != {} {
      DescendingComplete(s - {SetMax(s)});
    }
  }

  /** The first exponent listed is the degree. */
  lemma DescendingStartsAtDegree(p: Polynomial)
    requires p != map[]
    ensures Descending(p.Keys) == [Degree(p)] + Descending(Without(p, Degree(p)).Keys)
  {
    assert SetMax(p.Keys) == MaxKey(p);
  }

  /** The texts of the terms of p at the exponents ks, in that order (polynomial.py:63-95). */
  function TermTextsAt(fmt: real -> string, p: Polynomial, ks: seq<nat>): (ts: seq<string>)
    requires forall i :: 0 <= i < |ks| ==> ks[i] in p
    ensures |ts| == |ks|
    ensures forall i :: 0 <= i < |ks| ==> ts[i] == TermText(fmt, ks[i], p[ks[i]])
  {
    if ks == [] then [] else [TermText(fmt, ks[0], p[ks[0]])] + TermTextsAt(fmt, p, ks[1..])
  }

  /** The texts of the terms of p, largest exponent first. */
  function TermTexts(fmt: real -> string, p: Polynomial): seq<string> {
    TermTextsAt(fmt, p, Descending(p.Keys))
  }

  /** Dropping the first exponent from the list and its term from p. */
  lemma TermTextsAtCons(fmt: real -> string, p: Polynomial, m: nat, ks: seq<nat>)
    requires m in p
    requires forall i :: 0 <= i < |ks| ==> ks[i] in p && ks[i] != m
    ensures TermTextsAt(fmt, p, [m] + ks) == [TermText(fmt, m, p[m])] + TermTextsAt(fmt, Without(p, m), ks)
  {
    assert ([m] + ks)[1..] == ks;
    var a := TermTextsAt(fmt, p, ks);
    var b := TermTextsAt(fmt, Without(p, m), ks);
    assert forall i :: 0 <= i < |ks| ==> a[i] == b[i];
  }

  // ---------------------------------------------------------------------------
  // Joining (polynomial.py:97-121)
  // ---------------------------------------------------------------------------

  /** One term appended to the output: a leading minus kept, or " + " / " - " after the first. */
  function Piece(t: string, first: bool): string
    requires t != ""
  {
    var startsWithMinus := t[0] == '-';
    var termContent := if startsWithMinus then t[1..] else t;
    if first then (if startsWithMinus then "-" + termContent else termContent)
    else (if startsWithMinus then " - " + termContent else " + " + termContent)
  }

  /** The join loop of polynomial.py:97-119; empty texts are skipped. */
  function Join(ts: seq<string>, first: bool): string {
    if ts == [] then ""
    else if ts[0] == "" then Join(ts[1..], first)
    else Piece(ts[0], first) + Join(ts[1..], false)
  }

  /** The text of p, "0" when it is zero or nothing was written (polynomial.py:121). */
  function Render(fmt: real -> string, p: Polynomial): string {
    if p == map[] then "0"
    else
      var s := Join(TermTexts(fmt, p), true);
      if s == "" then "0" else s
  }

  /** The text that separates a term from its predecessor: its own sign, spaced. */
  function SignSeparated(s: string): string {
    if |s| > 0 && s[0] == '-' then " - " + s[1..] else " + " + s
  }

  /** The first written term keeps its own text. */
  lemma PieceFirst(t: string)
    requires t != ""
    ensures Piece(t, true) == t
    ensures Piece(t, false) == SignSeparated(t)
  {
    if t[0] == '-' {
      assert "-" + t[1..] == t;
    }
  }

  /** After the first term, every term is written with its sign spaced out. */
  lemma JoinNotFirst(ts: seq<string>)
    requires forall i :: 0 <= i < |ts| ==> ts[i] != ""
    requires ts != []
    ensures Join(ts, true) == ts[0] + Join(ts[1..], false)
    ensures Join(ts, false) == SignSeparated(ts[0]) + Join(ts[1..], false)
  {
    PieceFirst(ts[0]);
  }

  lemma SignSeparatedAppend(t: string, rest: string)
    requires t != ""
    ensures SignSeparated(t + rest) == SignSeparated(t) + rest
  {
    assert (t + rest)[0] == t[0];
    if t[0] == '-' {
      assert (t + rest)[1..] == t[1..] + rest;
      AppendAssoc(" - ", t[1..], rest);
    } else {
      AppendAssoc(" + ", t, rest);
    }
  }

  /** Joining as a continuation spaces out the sign of what would have been written first. */
  lemma JoinContinued(ts: seq<string>)
    requires forall i :: 0 <= i < |ts| ==> ts[i] != ""
    requires ts != []
    ensures Join(ts, true) != ""
    ensures Join(ts, false) == SignSeparated(Join(ts, true))
  {
    JoinNotFirst(ts);
    SignSeparatedAppend(ts[0], Join(ts[1..], false));
  }

  // ---------------------------------------------------------------------------
  // Properties of the rendering
  // ---------------------------------------------------------------------------

  /** Every term text of p is non-empty, so no term is skipped. */
  lemma TermTextsNonEmpty(fmt: real -> string, p: Polynomial)
    requires ValidFormatter(fmt)
    ensures forall i :: 0 <= i < |TermTexts(fmt, p)| ==> TermTexts(fmt, p)[i] != ""
  {
    var ks := Descending(p.Keys);
    forall i | 0 <= i < |ks|
      ensures TermTexts(fmt, p)[i] != ""
    {
      TermTextSign(fmt, ks[i], p[ks[i]]);
    }
  }

  /** The zero polynomial is written "0" (polynomial.py:58-59). */
  lemma RenderZero(fmt: real -> string)
    ensures Render(fmt, Zero) == "0"
  {
  }

  /**
   * A non-zero polynomial is written as its leading term followed by the rest of it,
   * each further term introduced by " + " or, for a negative coefficient, " - ".
   */
  lemma RenderStep(fmt: real -> string, p: Polynomial)
    requires ValidFormatter(fmt)
    requires p != map[]
    ensures Without(p, Degree(p)) == map[] ==> Render(fmt, p) == TermText(fmt, Degree(p), Lead(p))
    ensures Without(p, Degree(p)) != map[] ==>
      Render(fmt, p) == TermText(fmt, Degree(p), Lead(p)) + SignSeparated(Render(fmt, Without(p, Degree(p))))
  {
    var m := Degree(p);
    var rest := Without(p, m);
    DescendingStartsAtDegree(p);
    TermTextsAtCons(fmt, p, m, Descending(rest.Keys));
    TermTextsNonEmpty(fmt, p);
    var ts := TermTexts(fmt, p);
    assert ts[1..] == TermTexts(fmt, rest);
    JoinNotFirst(ts);
    if rest != map[] {
      TermTextsNonEmpty(fmt, rest);
      JoinContinued(TermTexts(fmt, rest));
    }
  }

  /** A non-zero polynomial's text starts with '-' exactly when its leading coefficient is negative. */
  lemma RenderSign(fmt: real -> string, p: Polynomial)
    requires ValidFormatter(fmt)
    requires p != map[]
    ensures |Render(fmt, p)| > 0
    ensures Render(fmt, p)[0] == '-' <==> Lead(p) < 0.0
  {
    RenderStep(fmt, p);
    TermTextSign(fmt, Degree(p), Lead(p));
  }

  /** A single term is written as that term's text alone. */
  lemma RenderMonomial(fmt: real -> string, e: nat, c: real)
    requires ValidFormatter(fmt)
    requires c != 0.0
    ensures Render(fmt, Mono(e, c)) == TermText(fmt, e, c)
  {
    var p := Mono(e, c);
    DegreeIs(p, e);
    RenderStep(fmt, p);
    assert Without(p, e) == map[];
  }

  // ---------------------------------------------------------------------------
  // __str__
  // ---------------------------------------------------------------------------

  /** The first loop of `__str__` (polynomial.py:63-95): the texts of the terms at the exponents listed. */
  method CollectTermTexts(fmt: real -> string, p: Polynomial, sortedTerms: seq<nat>) returns (termsStr: seq<string>)
    requires forall i :: 0 <= i < |sortedTerms| ==> sortedTerms[i] in p
    ensures termsStr == TermTextsAt(fmt, p, sortedTerms)
  {
    termsStr := [];
    var k := 0;
    while k < |sortedTerms|
      invariant 0 <= k <= |sortedTerms|
      invariant |termsStr| == k
      invariant forall j :: 0 <= j < k ==> termsStr[j] == TermTextsAt(fmt, p, sortedTerms)[j]
    {
      var exp := sortedTerms[k];
      var coeff := p[exp];
      assert coeff != 0.0;
      termsStr := termsStr + [TermText(fmt, exp, coeff)];
      k := k + 1;
    }
  }

  /** The second loop of `__str__` (polynomial.py:97-119): the term texts joined with their signs. */
  method JoinTermTexts(termsStr: seq<string>) returns (finalStr: string)
    ensures finalStr == Join(termsStr, true)
  {
    finalStr := "";
    var firstTerm := true;
    var i := 0;
    while i < |termsStr|
      invariant 0 <= i <= |termsStr|
      invariant finalStr + Join(termsStr[i..], firstTerm) == Join(termsStr, true)
    {
      var termStr := termsStr[i];
      assert termsStr[i..][1..] == termsStr[i + 1..];
      ghost var wasFirst := firstTerm;
      var added := "";
      if termStr != "" {
        var startsWithMinus := termStr[0] == '-';
        var termContent := if startsWithMinus then termStr[1..] else termStr;
        if firstTerm {
          added := if startsWithMinus then "-" + termContent else termContent;
          firstTerm := false;
        } else {
          added := if startsWithMinus then " - " + termContent else " + " + termContent;
        }
      }
      assert Join(termsStr[i..], wasFirst) == added + Join(termsStr[i + 1..], firstTerm);
      AppendAssoc(finalStr, added, Join(termsStr[i + 1..], firstTerm));
      finalStr := finalStr + added;
      i := i + 1;
    }
    assert termsStr[i..] == [];
  }

  /** `Polynomial.__str__` (polynomial.py:56-121). */
  method ToString(fmt: real -> string, p: Polynomial) returns (s: string)
    ensures s == Render(fmt, p)
  {
    if p == map[] {
      return "0";
    }
    var termsStr := CollectTermTexts(fmt, p, Descending(p.Keys));
    var finalStr := JoinTermTexts(termsStr);
    s := if finalStr != "" then finalStr else "0";
  }
}
