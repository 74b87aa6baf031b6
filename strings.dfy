/**
 * The few Python string operations the extractor relies on, written out over
 * `seq<char>`: `str.isspace`/`str.strip`, `sep.join`, ASCII `str.lower`,
 * `str.replace(' ', '_')` and the decimal rendering of a non-negative integer.
 */
module Strings {
  import opened Wrappers

  /** The characters Python's `str.isspace` accepts, which `str.strip()` removes. */
  predicate IsSpace(c: char) {
    || c == ' '
    || ('\t' <= c <= '\r')
    || ('\U{1c}' <= c <= '\U{1f}')
    || c == '\U{85}' || c == '\U{a0}' || c == '\U{1680}'
    || ('\U{2000}' <= c <= '\U{200a}')
    || c == '\U{2028}' || c == '\U{2029}' || c == '\U{202f}' || c == '\U{205f}' || c == '\U{3000}'
  }

  /** A string with no whitespace at either end. */
  predicate Stripped(s: string) {
    s == [] || (!IsSpace(s[0]) && !IsSpace(s[|s| - 1]))
  }

  predicate AllSpace(s: string) {
    forall i :: 0 <= i < |s| ==> IsSpace(s[i])
  }

  lemma AllSpaceCons(c: char, t: string)
    requires IsSpace(c) && AllSpace(t)
    ensures AllSpace([c] + t)
  {
    assert forall i :: 0 < i <= |t| ==> ([c] + t)[i] == t[i - 1];
  }

  lemma AllSpaceSnoc(t: string, c: char)
    requires AllSpace(t) && IsSpace(c)
    ensures AllSpace(t + [c])
  {
    assert forall i :: 0 <= i < |t| ==> (t + [c])[i] == t[i];
  }

  /** `s.lstrip()`: drops the leading whitespace and nothing else. */
  function TrimStart(s: string): (r: string)
    ensures |r| <= |s| && r == s[|s| - |r|..]
    ensures AllSpace(s[..|s| - |r|])
    ensures r == [] || !IsSpace(r[0])
  {
    if s != [] && IsSpace(s[0]) then
      var r := TrimStart(s[1..]);
      assert s[..|s| - |r|] == [s[0]] + s[1..][..|s| - 1 - |r|];
      AllSpaceCons(s[0], s[1..][..|s| - 1 - |r|]);
      r
    else s
  }

  /** `s.rstrip()`: drops the trailing whitespace and nothing else. */
  function TrimEnd(s: string): (r: string)
    ensures |r| <= |s| && r == s[..|r|]
    ensures AllSpace(s[|r|..])
    ensures r == [] || !IsSpace(r[|r| - 1])
  {
    if s != [] && IsSpace(s[|s| - 1]) then
      var r := TrimEnd(s[..|s| - 1]);
      assert s[|r|..] == s[..|s| - 1][|r|..] + [s[|s| - 1]];
      AllSpaceSnoc(s[..|s| - 1][|r|..], s[|s| - 1]);
      r
    else s
  }

  /** `s.strip()`. */
  function Strip(s: string): (r: string)
    ensures Stripped(r)
    ensures |r| <= |s|
    ensures r == [] <==> AllSpace(s)
    ensures Stripped(s) ==> r == s
  {
    var t := TrimStart(s);
    var r := TrimEnd(t);
    assert t != [] ==> !IsSpace(t[0]);
    assert r != [] ==> r[0] == t[0];
    assert r == [] ==> AllSpace(s) by {
      if r == [] {
        assert t[|r|..] == t;
        assert t == [];
        assert s[..|s| - |t|] == s;
      }
    }
    assert Stripped(s) ==> t == s;
    assert Stripped(s) ==> r == t;
    r
  }

  /** `strip` keeps a contiguous middle of the input and removes only whitespace on either side of it. */
  lemma StripSlice(s: string)
    ensures exists i, j :: 0 <= i <= j <= |s| && Strip(s) == s[i..j] && AllSpace(s[..i]) && AllSpace(s[j..])
  {
    var t := TrimStart(s);
    var r := TrimEnd(t);
    var i := |s| - |t|;
    assert r == s[i..i + |r|];
    assert s[i + |r|..] == t[|r|..];
  }

  lemma AppendAssoc(a: string, b: string, c: string)
    ensures a + (b + c) == a + b + c
  {
  }

  lemma AllSpaceAppend(a: string, b: string)
    requires AllSpace(a) && AllSpace(b)
    ensures AllSpace(a + b)
  {
    assert forall i :: |a| <= i < |a + b| ==> (a + b)[i] == b[i - |a|];
  }

  /** Leading whitespace followed by a string that does not start with whitespace: `lstrip` removes exactly the whitespace. */
  lemma {:induction false} TrimStartPadded(w: string, y: string)
    requires AllSpace(w) && (y == [] || !IsSpace(y[0]))
    ensures TrimStart(w + y) == y
    decreases |w|
  {
    if w == [] {
      assert w + y == y;
    } else {
      assert (w + y)[1..] == w[1..] + y;
      TrimStartPadded(w[1..], y);
    }
  }

  /** A string that does not end with whitespace followed by whitespace: `rstrip` removes exactly the whitespace. */
  lemma {:induction false} TrimEndPadded(y: string, w: string)
    requires AllSpace(w) && (y == [] || !IsSpace(y[|y| - 1]))
    ensures TrimEnd(y + w) == y
    decreases |w|
  {
    if w == [] {
      assert y + w == y;
    } else {
      assert (y + w)[..|y + w| - 1] == y + w[..|w| - 1];
      TrimEndPadded(y, w[..|w| - 1]);
    }
  }

  /** `strip` removes exactly the surrounding whitespace: a stripped string padded with whitespace strips back to itself. */
  lemma StripPadded(w1: string, x: string, w2: string)
    requires AllSpace(w1) && AllSpace(w2) && Stripped(x)
    ensures Strip(w1 + x + w2) == x
  {
    if x == [] {
      assert w1 + x + w2 == w1 + w2;
      AllSpaceAppend(w1, w2);
    } else {
      assert w1 + x + w2 == w1 + (x + w2);
      TrimStartPadded(w1, x + w2);
      TrimEndPadded(x, w2);
    }
  }

  /** `sep.join(parts)`. */
  function Join(sep: string, parts: seq<string>): (r: string)
    ensures parts == [] ==> r == []
    ensures |parts| == 1 ==> r == parts[0]
  {
    if parts == [] then []
    else if |parts| == 1 then parts[0]
    else parts[0] + sep + Join(sep, parts[1..])
  }

  /** The joined string starts with the first part. */
  lemma JoinStartsWithFirst(sep: string, parts: seq<string>)
    requires parts != []
    ensures |Join(sep, parts)| >= |parts[0]| && Join(sep, parts)[..|parts[0]|] == parts[0]
  {
    if |parts| > 1 {
      var r := Join(sep, parts);
      assert r == parts[0] + (sep + Join(sep, parts[1..]));
    }
  }

  /** The joined string ends with the last part. */
  lemma {:induction false} JoinEndsWithLast(sep: string, parts: seq<string>)
    requires parts != []
    ensures |Join(sep, parts)| >= |parts[|parts| - 1]|
    ensures Join(sep, parts)[|Join(sep, parts)| - |parts[|parts| - 1]|..] == parts[|parts| - 1]
  {
    if |parts| > 1 {
      JoinEndsWithLast(sep, parts[1..]);
    }
  }

  /** Joining two non-empty runs of parts puts one separator between them. */
  lemma {:induction false} JoinAppend(sep: string, a: seq<string>, b: seq<string>)
    requires a != [] && b != []
    ensures Join(sep, a + b) == Join(sep, a) + sep + Join(sep, b)
    decreases |a|
  {
    assert (a + b)[0] == a[0];
    if |a| == 1 {
      assert (a + b)[1..] == b;
    } else {
      assert (a + b)[1..] == a[1..] + b;
      JoinAppend(sep, a[1..], b);
    }
  }

  /** Every part is non-empty and has no whitespace at either end. */
  predicate CleanParts(parts: seq<string>) {
    forall i :: 0 <= i < |parts| ==> parts[i] != [] && Stripped(parts[i])
  }

  lemma CleanPartsCons(s: string, parts: seq<string>)
    requires s != [] && Stripped(s) && CleanParts(parts)
    ensures CleanParts([s] + parts)
  {
    forall i | 0 <= i < |parts| + 1
      ensures ([s] + parts)[i] != [] && Stripped(([s] + parts)[i])
    {
      if i > 0 {
        assert ([s] + parts)[i] == parts[i - 1];
      }
    }
  }

  /** When the first and last parts are non-empty and stripped, so is the joined string, whatever the separator. */
  lemma JoinOuterStripped(sep: string, parts: seq<string>)
    requires parts != [] && parts[0] != [] && Stripped(parts[0])
    requires parts[|parts| - 1] != [] && Stripped(parts[|parts| - 1])
    ensures Join(sep, parts) != [] && Stripped(Join(sep, parts))
  {
    JoinEndsWithLast(sep, parts);
    JoinStartsWithFirst(sep, parts);
    var r := Join(sep, parts);
    var last := parts[|parts| - 1];
    assert r[|r| - 1] == r[|r| - |last|..][|last| - 1];
    assert r[0] == r[..|parts[0]|][0];
  }

  /** Joining non-empty stripped parts yields a stripped string, whatever the separator. */
  lemma JoinStripped(sep: string, parts: seq<string>)
    ensures CleanParts(parts) ==> Stripped(Join(sep, parts))
  {
    if parts != [] && CleanParts(parts) {
      JoinOuterStripped(sep, parts);
    }
  }

  /** Every part is stripped (empty parts allowed). */
  predicate AllStripped(parts: seq<string>) {
    forall i :: 0 <= i < |parts| ==> Stripped(parts[i])
  }

  /** Every part is the empty string. */
  predicate AllEmpty(parts: seq<string>) {
    forall i :: 0 <= i < |parts| ==> parts[i] == []
  }

  lemma AllEmptyAppend(a: seq<string>, b: seq<string>)
    requires AllEmpty(a) && AllEmpty(b)
    ensures AllEmpty(a + b)
  {
    assert forall i :: |a| <= i < |a + b| ==> (a + b)[i] == b[i - |a|];
  }

  /** The parts without their leading empty strings. */
  function DropLeadingEmpties(parts: seq<string>): (r: seq<string>)
    ensures |r| <= |parts| && r == parts[|parts| - |r|..]
    ensures AllEmpty(parts[..|parts| - |r|])
    ensures r == [] || r[0] != []
  {
    if parts != [] && parts[0] == [] then
      var r := DropLeadingEmpties(parts[1..]);
      assert parts[..|parts| - |r|] == [parts[0]] + parts[1..][..|parts| - 1 - |r|];
      AllEmptyAppend([parts[0]], parts[1..][..|parts| - 1 - |r|]);
      r
    else parts
  }

  /** The parts without their trailing empty strings. */
  function DropTrailingEmpties(parts: seq<string>): (r: seq<string>)
    ensures |r| <= |parts| && r == parts[..|r|]
    ensures AllEmpty(parts[|r|..])
    ensures r == [] || r[|r| - 1] != []
    ensures parts != [] && parts[0] != [] ==> r != [] && r[0] == parts[0]
  {
    if parts != [] && parts[|parts| - 1] == [] then
      var r := DropTrailingEmpties(parts[..|parts| - 1]);
      assert parts[|r|..] == parts[..|parts| - 1][|r|..] + [parts[|parts| - 1]];
      AllEmptyAppend(parts[..|parts| - 1][|r|..], [parts[|parts| - 1]]);
      r
    else parts
  }

  /** The parts without the empty strings at either end; inner empty strings stay. */
  function TrimEmpties(parts: seq<string>): seq<string> {
    DropTrailingEmpties(DropLeadingEmpties(parts))
  }

  lemma JoinEmptyHead(sep: string, parts: seq<string>)
    requires |parts| > 1 && parts[0] == []
    ensures Join(sep, parts) == sep + Join(sep, parts[1..])
  {
    var rest := Join(sep, parts[1..]);
    assert Join(sep, parts) == parts[0] + sep + rest;
  }

  /**
   * Joining with a whitespace separator: the leading empty parts only add
   * whitespace `w` in front of the join of the rest.
   */
  lemma {:induction false} JoinDropLeading(sep: string, parts: seq<string>) returns (w: string)
    requires AllSpace(sep)
    ensures AllSpace(w)
    ensures DropLeadingEmpties(parts) == [] ==> Join(sep, parts) == w
    ensures DropLeadingEmpties(parts) != [] ==> Join(sep, parts) == w + Join(sep, DropLeadingEmpties(parts))
    decreases |parts|
  {
    if parts == [] || parts[0] != [] {
      w := [];
      assert [] + Join(sep, parts) == Join(sep, parts);
    } else if |parts| == 1 {
      w := [];
    } else {
      var w' := JoinDropLeading(sep, parts[1..]);
      JoinEmptyHead(sep, parts);
      AllSpaceAppend(sep, w');
      w := sep + w';
      AppendAssoc(sep, w', Join(sep, DropLeadingEmpties(parts)));
    }
  }

  /**
   * Joining with a whitespace separator: the trailing empty parts only add
   * whitespace `w` after the join of the rest.
   */
  lemma {:induction false} JoinDropTrailing(sep: string, parts: seq<string>) returns (w: string)
    requires AllSpace(sep)
    ensures AllSpace(w)
    ensures DropTrailingEmpties(parts) == [] ==> Join(sep, parts) == w
    ensures DropTrailingEmpties(parts) != [] ==> Join(sep, parts) == Join(sep, DropTrailingEmpties(parts)) + w
    decreases |parts|
  {
    if parts == [] || parts[|parts| - 1] != [] {
      w := [];
      assert Join(sep, parts) + [] == Join(sep, parts);
    } else if |parts| == 1 {
      w := [];
    } else {
      var init := parts[..|parts| - 1];
      var w' := JoinDropTrailing(sep, init);
      assert parts == init + [[]];
      JoinAppend(sep, init, [[]]);
      AllSpaceAppend(w', sep);
      w := w' + sep;
    }
  }

  /**
   * `sep.join(parts).strip()` with a whitespace separator and stripped parts:
   * the join of the parts without the empty ones at either end. Empty parts
   * in between still add their separators.
   */
  lemma StripJoin(sep: string, parts: seq<string>)
    requires AllSpace(sep) && AllStripped(parts)
    ensures Strip(Join(sep, parts)) == Join(sep, TrimEmpties(parts))
  {
    var lead := DropLeadingEmpties(parts);
    var w1 := JoinDropLeading(sep, parts);
    if lead == [] {
      assert TrimEmpties(parts) == [];
    } else {
      var core := DropTrailingEmpties(lead);
      var w2 := JoinDropTrailing(sep, lead);
      assert lead[0] != [];
      assert core[0] == lead[0] == parts[|parts| - |lead|];
      assert core[|core| - 1] == parts[|parts| - |lead| + |core| - 1];
      JoinOuterStripped(sep, core);
      var joined := Join(sep, core);
      assert Join(sep, lead) == joined + w2;
      assert Join(sep, parts) == w1 + (joined + w2);
      AppendAssoc(w1, joined, w2);
      StripPadded(w1, Join(sep, core), w2);
    }
  }

  /** The number of characters in `sep.join(parts)`. */
  function TotalLength(parts: seq<string>): nat {
    if parts == [] then 0 else |parts[0]| + TotalLength(parts[1..])
  }

  lemma {:induction false} JoinLength(sep: string, parts: seq<string>)
    requires parts != []
    ensures |Join(sep, parts)| == TotalLength(parts) + (|parts| - 1) * |sep|
  {
    if |parts| > 1 {
      JoinLength(sep, parts[1..]);
    }
  }

  /** ASCII case mapping of `str.lower`. */
  function LowerChar(c: char): (r: char)
    ensures !('A' <= r <= 'Z')
    ensures ('A' <= c <= 'Z') || r == c
  {
    if 'A' <= c <= 'Z' then (c as int - 'A' as int + 'a' as int) as char else c
  }

  /** `s.lower()`, restricted to ASCII letters. */
  function Lower(s: string): (r: string)
    ensures |r| == |s|
    ensures forall i :: 0 <= i < |s| ==> r[i] == LowerChar(s[i])
  {
    seq(|s|, i requires 0 <= i < |s| => LowerChar(s[i]))
  }

  /** `s.replace(' ', '_')`: each single space becomes one underscore. */
  function SpacesToUnderscores(s: string): (r: string)
    ensures |r| == |s|
    ensures forall i :: 0 <= i < |s| ==> r[i] == (if s[i] == ' ' then '_' else s[i])
  {
    seq(|s|, i requires 0 <= i < |s| => if s[i] == ' ' then '_' else s[i])
  }

  predicate IsDigit(c: char) {
    '0' <= c <= '9'
  }

  function DigitChar(d: nat): (c: char)
    requires d < 10
    ensures IsDigit(c)
  {
    ('0' as int + d) as char
  }

  function DigitValue(c: char): (d: nat)
    requires IsDigit(c)
    ensures d < 10 && DigitChar(d) == c
  {
    c as int - '0' as int
  }

  predicate AllDigits(s: string) {
    forall i :: 0 <= i < |s| ==> IsDigit(s[i])
  }

  /** `str(n)` for a non-negative integer: no sign and no leading zero. */
  function NatToString(n: nat): (r: string)
    ensures r != [] && AllDigits(r)
    ensures |r| > 1 ==> r[0] != '0'
  {
    if n < 10 then [DigitChar(n)] else NatToString(n / 10) + [DigitChar(n % 10)]
  }

  /** `int(s)` for a string of decimal digits. */
  function ParseNat(s: string): nat
    requires AllDigits(s)
  {
    if s == [] then 0 else ParseNat(s[..|s| - 1]) * 10 + DigitValue(s[|s| - 1])
  }

  lemma {:induction false} ParseNatToString(n: nat)
    ensures ParseNat(NatToString(n)) == n
  {
    var r := NatToString(n);
    if n >= 10 {
      assert r[..|r| - 1] == NatToString(n / 10);
      ParseNatToString(n / 10);
    }
  }
}
