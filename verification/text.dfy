/**
 * The parts of Python's `str` that the requirement tools use: searching,
 * prefix tests, stripping, lower-casing, splitting and joining.
 */
module Text {

  /** Python's `str.isspace` for one character. */
  predicate IsSpace(c: char) {
    c == ' ' || c == '\t' || c == '\n' || c == '\r' || c == '\U{B}' || c == '\U{C}'
    || c == '\U{1C}' || c == '\U{1D}' || c == '\U{1E}' || c == '\U{1F}'
    || c == '\U{85}' || c == '\U{A0}' || c == '\U{1680}'
    || ('\U{2000}' <= c <= '\U{200A}')
    || c == '\U{2028}' || c == '\U{2029}' || c == '\U{202F}' || c == '\U{205F}' || c == '\U{3000}'
  }

  /** A character at which Python's `str.splitlines` ends a line. */
  predicate IsLineBreak(c: char) {
    c == '\n' || c == '\r' || c == '\U{B}' || c == '\U{C}' || c == '\U{1C}' || c == '\U{1D}'
    || c == '\U{1E}' || c == '\U{85}' || c == '\U{2028}' || c == '\U{2029}'
  }

  predicate StartsWith(s: string, p: string) {
    |p| <= |s| && s[..|p|] == p
  }

  predicate EndsWith(s: string, p: string) {
    |p| <= |s| && s[|s| - |p|..] == p
  }

  /** `t` occurs in `s` at index `j`. */
  predicate MatchAt(s: string, t: string, j: int) {
    0 <= j && j + |t| <= |s| && s[j..j + |t|] == t
  }

  /** Python's `s.find(t)`: the first index where `t` occurs, or -1. */
  function IndexOf(s: string, t: string): (r: int)
    ensures -1 <= r <= |s|
    ensures r >= 0 ==> MatchAt(s, t, r) && forall j :: 0 <= j < r ==> !MatchAt(s, t, j)
    ensures r < 0 ==> forall j :: !MatchAt(s, t, j)
  {
    IndexOfFrom(s, t, 0)
  }

  function IndexOfFrom(s: string, t: string, i: nat): (r: int)
    requires i <= |s| + 1
    ensures -1 <= r <= |s|
    ensures r >= 0 ==> i <= r && MatchAt(s, t, r) && forall j :: i <= j < r ==> !MatchAt(s, t, j)
    ensures r < 0 ==> forall j :: i <= j ==> !MatchAt(s, t, j)
    decreases |s| + 1 - i
  {
    if i + |t| > |s| then -1
    else if s[i..i + |t|] == t then i
    else IndexOfFrom(s, t, i + 1)
  }

  /** Python's `t in s`. */
  predicate Contains(s: string, t: string) {
    IndexOf(s, t) >= 0
  }

  lemma ContainsIff(s: string, t: string)
    ensures Contains(s, t) <==> exists j :: MatchAt(s, t, j)
  {
  }

  /** Python's `s.find(c, 0, hi)` for one character: the first index below `hi`, or -1. */
  function FindChar(s: string, c: char, hi: int): (r: int)
    requires 0 <= hi <= |s|
    ensures -1 <= r < hi
    ensures r >= 0 ==> s[r] == c && forall j :: 0 <= j < r ==> s[j] != c
    ensures r < 0 ==> forall j :: 0 <= j < hi ==> s[j] != c
  {
    FindCharFrom(s, c, 0, hi)
  }

  function FindCharFrom(s: string, c: char, i: nat, hi: int): (r: int)
    requires i <= hi <= |s|
    ensures -1 <= r < hi
    ensures r >= 0 ==> i <= r && s[r] == c && forall j :: i <= j < r ==> s[j] != c
    ensures r < 0 ==> forall j :: i <= j < hi ==> s[j] != c
    decreases hi - i
  {
    if i == hi then -1 else if s[i] == c then i else FindCharFrom(s, c, i + 1, hi)
  }

  /** The first `c` below `hi` is at `i` (or there is none, when `i == hi`). */
  lemma FindCharAt(s: string, c: char, hi: int, i: int)
    requires 0 <= i <= hi <= |s|
    requires forall j :: 0 <= j < i ==> s[j] != c
    requires i < hi ==> s[i] == c
    ensures FindChar(s, c, hi) == (if i < hi then i else -1)
  {
    var r := FindChar(s, c, hi);
    assert r >= 0 ==> s[r] == c;
  }

  /** `c not in s`. */
  predicate NoChar(s: string, c: char) {
    forall j :: 0 <= j < |s| ==> s[j] != c
  }

  lemma NoCharConcat(a: string, b: string, c: char)
    requires NoChar(a, c) && NoChar(b, c)
    ensures NoChar(a + b, c)
  {
    forall j | 0 <= j < |a + b| ensures (a + b)[j] != c {
      if j >= |a| { assert (a + b)[j] == b[j - |a|]; }
    }
  }

  /** In `p + rest`, where `p` has no `c` and `rest` starts with `c` (or is empty), the first `c` ends `p`. */
  lemma FindCharAfter(p: string, rest: string, c: char)
    requires NoChar(p, c) && (rest == [] || rest[0] == c)
    ensures FindChar(p + rest, c, |p + rest|) == (if rest == [] then -1 else |p|)
  {
    var s := p + rest;
    assert forall j :: 0 <= j < |p| ==> s[j] == p[j];
    FindCharAt(s, c, |s|, |p|);
  }

  /** The first `c` below `hi` is at `i`, given by the prefix before it. */
  lemma FindCharFirst(s: string, c: char, hi: int, i: int)
    requires 0 <= i < hi <= |s| && NoChar(s[..i], c) && s[i] == c
    ensures FindChar(s, c, hi) == i
  {
    assert forall j :: 0 <= j < i ==> s[j] == s[..i][j];
    FindCharAt(s, c, hi, i);
  }

  /** No `c` below `hi`. */
  lemma FindCharNone(s: string, c: char, hi: int)
    requires 0 <= hi <= |s| && NoChar(s[..hi], c)
    ensures FindChar(s, c, hi) == -1
  {
    assert forall j :: 0 <= j < hi ==> s[j] == s[..hi][j];
    FindCharAt(s, c, hi, hi);
  }

  /** Python's `str.lstrip()`. */
  function LStrip(s: string): string {
    if |s| > 0 && IsSpace(s[0]) then LStrip(s[1..]) else s
  }

  /** `lstrip` removes exactly the leading whitespace. */
  lemma {:induction false} LStripSpec(s: string)
    ensures var r := LStrip(s);
      && |r| <= |s| && r == s[|s| - |r|..]
      && (r == [] || !IsSpace(r[0]))
      && forall j :: 0 <= j < |s| - |r| ==> IsSpace(s[j])
  {
    if |s| > 0 && IsSpace(s[0]) {
      LStripSpec(s[1..]);
    }
  }

  /** Python's `str.rstrip()`. */
  function RStrip(s: string): string {
    if |s| > 0 && IsSpace(s[|s| - 1]) then RStrip(s[..|s| - 1]) else s
  }

  /** `rstrip` removes exactly the trailing whitespace. */
  lemma {:induction false} RStripSpec(s: string)
    ensures var r := RStrip(s);
      && |r| <= |s| && r == s[..|r|]
      && (r == [] || !IsSpace(r[|r| - 1]))
      && forall j :: |r| <= j < |s| ==> IsSpace(s[j])
  {
    if |s| > 0 && IsSpace(s[|s| - 1]) {
      RStripSpec(s[..|s| - 1]);
    }
  }

  /** Python's `str.strip()`. */
  function Strip(s: string): string {
    LStrip(RStrip(s))
  }

  /** `strip` leaves a slice of the text that neither starts nor ends with whitespace. */
  lemma StripSpec(s: string)
    ensures var r := Strip(s);
      && |r| <= |s|
      && (r == [] || (!IsSpace(r[0]) && !IsSpace(r[|r| - 1])))
  {
    RStripSpec(s);
    LStripSpec(RStrip(s));
  }

  /** Every character is whitespace. */
  predicate AllSpace(s: string) {
    forall k :: 0 <= k < |s| ==> IsSpace(s[k])
  }

  /** `s.strip()` is empty exactly when `s` is all whitespace. */
  lemma StripEmpty(s: string)
    ensures Strip(s) == "" <==> AllSpace(s)
  {
    RStripSpec(s);
    var r := RStrip(s);
    LStripSpec(r);
    if r != "" {
      assert !IsSpace(r[|r| - 1]);
    }
  }

  /** Python's `str.lstrip(chars)`. */
  function LStripChars(s: string, chars: set<char>): (r: string)
    ensures |r| <= |s| && r == s[|s| - |r|..]
    ensures r == [] || r[0] !in chars
    ensures forall j :: 0 <= j < |s| - |r| ==> s[j] in chars
  {
    if |s| > 0 && s[0] in chars then LStripChars(s[1..], chars) else s
  }

  function LowerChar(c: char): char {
    if 'A' <= c <= 'Z' then (c as int + 32) as char else c
  }

  /** Python's `str.lower()`, restricted to ASCII letters. */
  function Lower(s: string): (r: string)
    ensures |r| == |s|
    ensures forall j :: 0 <= j < |s| ==> r[j] == LowerChar(s[j])
  {
    seq(|s|, j requires 0 <= j < |s| => LowerChar(s[j]))
  }

  lemma LowerIdempotent(s: string)
    ensures Lower(Lower(s)) == Lower(s)
  {
  }

  /** The concatenation of a list of strings: Python's `''.join(parts)`. */
  function Concat(parts: seq<string>): (r: string)
  {
    if parts == [] then "" else parts[0] + Concat(parts[1..])
  }

  lemma {:induction false} ConcatAppend(a: seq<string>, b: seq<string>)
    ensures Concat(a + b) == Concat(a) + Concat(b)
  {
    if a == [] {
      assert a + b == b;
    } else {
      assert (a + b)[1..] == a[1..] + b;
      ConcatAppend(a[1..], b);
    }
  }

  /** Python's `sep.join(parts)`. */
  function Join(parts: seq<string>, sep: string): string
  {
    if |parts| == 0 then ""
    else if |parts| == 1 then parts[0]
    else parts[0] + sep + Join(parts[1..], sep)
  }

  /** Python's `s.split(sep)` for a non-empty separator. */
  function Split(s: string, sep: string): (r: seq<string>)
    requires |sep| > 0
    ensures |r| >= 1
    decreases |s|
  {
    var i := IndexOf(s, sep);
    if i < 0 then [s] else [s[..i]] + Split(s[i + |sep|..], sep)
  }

  lemma JoinCons(a: string, tail: seq<string>, sep: string)
    requires |tail| >= 1
    ensures Join([a] + tail, sep) == a + sep + Join(tail, sep)
  {
    assert ([a] + tail)[1..] == tail;
  }

  /** A match inside a prefix is a match in the whole text. */
  lemma MatchInPrefix(s: string, t: string, i: nat, j: int)
    requires i <= |s| && MatchAt(s[..i], t, j)
    ensures MatchAt(s, t, j)
  {
    assert s[..i][j..j + |t|] == s[j..j + |t|];
  }

  /** Splitting and joining with the same separator gives the text back. */
  lemma {:induction false} JoinSplit(s: string, sep: string)
    requires |sep| > 0
    ensures Join(Split(s, sep), sep) == s
    decreases |s|
  {
    var i := IndexOf(s, sep);
    if i < 0 {
      assert Split(s, sep) == [s];
    } else {
      var rest := s[i + |sep|..];
      var tail := Split(rest, sep);
      assert Split(s, sep) == [s[..i]] + tail;
      JoinSplit(rest, sep);
      JoinCons(s[..i], tail, sep);
      assert MatchAt(s, sep, i);
      assert s == s[..i] + sep + rest;
    }
  }

  /** No part of a split still holds the separator. */
  lemma {:induction false} SplitPartsFree(s: string, sep: string)
    requires |sep| > 0
    ensures forall k :: 0 <= k < |Split(s, sep)| ==> !Contains(Split(s, sep)[k], sep)
    decreases |s|
  {
    var i := IndexOf(s, sep);
    if i >= 0 {
      SplitPartsFree(s[i + |sep|..], sep);
      var head := s[..i];
      if Contains(head, sep) {
        var j := IndexOf(head, sep);
        MatchInPrefix(s, sep, i, j);
        assert false;
      }
    }
  }

  /** The first part of a split starts the text. */
  lemma SplitHead(s: string, sep: string)
    requires |sep| > 0
    ensures StartsWith(s, Split(s, sep)[0])
  {
    var i := IndexOf(s, sep);
    if i >= 0 {
      assert Split(s, sep)[0] == s[..i];
    }
  }

  /** With two parts or more, the text starts with the first part, the separator and the second part. */
  lemma SplitFirstTwo(s: string, sep: string)
    requires |sep| > 0 && |Split(s, sep)| >= 2
    ensures StartsWith(s, Split(s, sep)[0] + sep + Split(s, sep)[1])
  {
    var i := IndexOf(s, sep);
    SplitFound(s, sep);
    var rest := s[i + |sep|..];
    SplitHead(rest, sep);
    assert MatchAt(s, sep, i);
    assert s == (s[..i] + sep) + rest;
    StartsWithPrepend(s[..i] + sep, rest, Split(rest, sep)[0]);
  }

  /** A split in two parts or more cut at the first occurrence of the separator. */
  lemma SplitFound(s: string, sep: string)
    requires |sep| > 0 && |Split(s, sep)| >= 2
    ensures IndexOf(s, sep) >= 0
    ensures Split(s, sep) == [s[..IndexOf(s, sep)]] + Split(s[IndexOf(s, sep) + |sep|..], sep)
  {
  }

  lemma StartsWithPrepend(a: string, rest: string, b: string)
    requires StartsWith(rest, b)
    ensures StartsWith(a + rest, a + b)
  {
    assert (a + rest)[..|a + b|] == a + rest[..|b|];
  }

  /** `re.split('[...]', s)`: split at every character of `cs`. */
  function SplitAny(s: string, cs: set<char>): (r: seq<string>)
    ensures |r| >= 1
    ensures forall k, j :: 0 <= k < |r| && 0 <= j < |r[k]| ==> r[k][j] !in cs
    decreases |s|
  {
    if s == [] then [""]
    else
      var rest := SplitAny(s[1..], cs);
      if s[0] in cs then [""] + rest else [[s[0]] + rest[0]] + rest[1..]
  }

  /** The length of the first line of `s`, its line break included. */
  function FirstLineLength(s: string): (n: nat)
    requires s != []
    ensures 0 < n <= |s|
    decreases |s|
  {
    if IsLineBreak(s[0]) then
      (if s[0] == '\r' && |s| >= 2 && s[1] == '\n' then 2 else 1)
    else if |s| == 1 then 1
    else 1 + FirstLineLength(s[1..])
  }

  /** Python's `s.splitlines(True)`: the lines of `s`, each keeping its line break. */
  function SplitLines(s: string): (r: seq<string>)
    ensures forall k :: 0 <= k < |r| ==> r[k] != []
    decreases |s|
  {
    if s == [] then [] else
      var n := FirstLineLength(s);
      [s[..n]] + SplitLines(s[n..])
  }

  /** The lines put back together are the text. */
  lemma {:induction false} SplitLinesConcat(s: string)
    ensures Concat(SplitLines(s)) == s
    decreases |s|
  {
    if s != [] {
      var n := FirstLineLength(s);
      SplitLinesConcat(s[n..]);
      assert s == s[..n] + s[n..];
    }
  }

  predicate IsDigit(c: char) {
    '0' <= c <= '9'
  }

  /** Python's `str.isdigit()`, restricted to ASCII digits. */
  predicate IsDigits(s: string) {
    |s| > 0 && forall j :: 0 <= j < |s| ==> IsDigit(s[j])
  }

  /** Python's `int(s)` for a digit string. */
  function DigitsValue(s: string): nat
    requires forall j :: 0 <= j < |s| ==> IsDigit(s[j])
  {
    if s == [] then 0
    else
      assert IsDigit(s[|s| - 1]);
      10 * DigitsValue(s[..|s| - 1]) + (s[|s| - 1] as int - '0' as int)
  }

  /** Python's `str(n)` for a natural number. */
  function NatToDigits(n: nat): (r: string)
    ensures IsDigits(r)
    ensures |r| > 1 ==> r[0] != '0'
  {
    if n < 10 then [('0' as int + n) as char]
    else NatToDigits(n / 10) + [('0' as int + n % 10) as char]
  }

  /** `int(str(n)) == n`. */
  lemma {:induction false} DigitsRoundTrip(n: nat)
    ensures DigitsValue(NatToDigits(n)) == n
  {
    if n >= 10 {
      DigitsRoundTrip(n / 10);
      var s := NatToDigits(n);
      assert s[..|s| - 1] == NatToDigits(n / 10);
    }
  }
}
