/**
 * versions_overlap_parent.py: a change to the global requirements must
 * keep every updated requirement overlapping the one of the parent commit.
 * A `>` or `<` bound is first turned into the nearest admitted version by
 * bumping a dotted version component up or down.
 */
module Overlap {
  import opened Wrappers
  import opened Text
  import opened Foreign

  // Dotted versions.

  /** Splitting a join of dot-free parts on `.` gives the parts back. */
  lemma {:induction false} SplitJoinDot(xs: seq<string>)
    requires |xs| >= 1 && forall k :: 0 <= k < |xs| ==> NoChar(xs[k], '.')
    ensures Split(Join(xs, "."), ".") == xs
  {
    if |xs| > 1 {
      var a := xs[0];
      var tail := xs[1..];
      JoinCons(a, tail, ".");
      var s := Join(xs, ".");
      assert s == a + "." + Join(tail, ".");
      assert MatchAt(s, ".", |a|) by {
        assert s[|a|..|a| + 1] == ".";
      }
      forall j | 0 <= j < |a|
        ensures !MatchAt(s, ".", j)
      {
        assert s[j] == a[j];
      }
      var i := IndexOf(s, ".");
      assert i == |a|;
      assert s[..i] == a;
      assert s[i + 1..] == Join(tail, ".");
      SplitJoinDot(tail);
      assert xs == [a] + tail;
    } else {
      assert Join(xs, ".") == xs[0];
      var x := xs[0];
      forall j | 0 <= j && j + 1 <= |x|
        ensures !MatchAt(x, ".", j)
      {
        assert x[j..j + 1] == [x[j]];
      }
    }
  }

  /** Every character of a text is a one-character match at its position. */
  lemma CharMatch(x: string, j: nat)
    requires j < |x|
    ensures MatchAt(x, [x[j]], j)
  {
    assert x[j..j + 1] == [x[j]];
  }

  /** The parts of a split on `.` hold no dot. */
  lemma SplitNoDot(v: string)
    ensures forall k :: 0 <= k < |Split(v, ".")| ==> NoChar(Split(v, ".")[k], '.')
  {
    SplitPartsFree(v, ".");
    forall k, j | 0 <= k < |Split(v, ".")| && 0 <= j < |Split(v, ".")[k]|
      ensures Split(v, ".")[k][j] != '.'
    {
      var x := Split(v, ".")[k];
      CharMatch(x, j);
      ContainsIff(x, ".");
    }
  }

  lemma DigitsNoDot(s: string)
    requires IsDigits(s)
    ensures NoChar(s, '.')
  {
    forall j | 0 <= j < |s|
      ensures s[j] != '.'
    {
      assert IsDigit(s[j]);
    }
  }

  /**
   * The right-most position `p` below `hi`, other than position 0, holding
   * a component of digits; 0 when there is none.
   */
  function LastDigits(items: seq<string>, hi: nat): (p: nat)
    requires hi <= |items|
    ensures p == 0 || (1 <= p < hi && IsDigits(items[p]))
    ensures forall j :: p < j < hi && j >= 1 ==> !IsDigits(items[j])
  {
    if hi <= 1 then 0
    else if IsDigits(items[hi - 1]) then hi - 1
    else LastDigits(items, hi - 1)
  }

  /** `items` with the component at `p` incremented, as `str(int(item) + 1)`. */
  function Bump(items: seq<string>, p: nat): seq<string>
    requires 1 <= p < |items| && IsDigits(items[p])
  {
    items[p := NatToDigits(DigitsValue(items[p]) + 1)]
  }

  /** `increase_version(version_string)`. */
  function Increased(v: string): string
  {
    var items := Split(v, ".");
    var p := LastDigits(items, |items|);
    if p == 0 then Join(items, ".") else Join(Bump(items, p), ".")
  }

  /**
   * `decrease_version` on the components below `hi`: from the right, the
   * first component of digits with a positive value is decremented; each
   * zero one met before it becomes `9`. Position 0 is never touched.
   */
  function Borrow(items: seq<string>, hi: nat): (r: seq<string>)
    requires hi <= |items|
    ensures |r| == |items|
    ensures forall j :: 0 <= j < |items| && (j == 0 || j >= hi || !IsDigits(items[j])) ==> r[j] == items[j]
    ensures forall j :: 1 <= j < hi && IsDigits(items[j]) && r[j] != items[j] ==>
      (DigitsValue(items[j]) == 0 && r[j] == "9") || (DigitsValue(items[j]) >= 1 && r[j] == NatToDigits(DigitsValue(items[j]) - 1))
    decreases hi
  {
    if hi <= 1 then items
    else
      var it := items[hi - 1];
      if IsDigits(it) then
        if DigitsValue(it) >= 1 then items[hi - 1 := NatToDigits(DigitsValue(it) - 1)]
        else Borrow(items[hi - 1 := "9"], hi - 1)
      else Borrow(items, hi - 1)
  }

  /** `decrease_version(version_string)`. */
  function Decreased(v: string): string
  {
    var items := Split(v, ".");
    Join(Borrow(items, |items|), ".")
  }

  /** `increase_version`: the loop from the last component down to the second, stopping at the first one of digits. */
  method IncreaseVersion(v: string) returns (r: string)
    ensures r == Increased(v)
  {
    var items := Split(v, ".");
    ghost var p := LastDigits(items, |items|);
    var i := |items| - 1;
    while i > 0
      invariant 0 <= i < |items|
      invariant LastDigits(items, i + 1) == p
      invariant items == Split(v, ".")
    {
      if IsDigits(items[i]) {
        items := items[i := NatToDigits(DigitsValue(items[i]) + 1)];
        assert items == Bump(Split(v, "."), p);
        return Join(items, ".");
      }
      i := i - 1;
    }
    r := Join(items, ".");
  }

  /** `decrease_version`: the same loop, setting underflowing components to `9` and going on. */
  method DecreaseVersion(v: string) returns (r: string)
    ensures r == Decreased(v)
  {
    var items := Split(v, ".");
    ghost var target := Borrow(items, |items|);
    var i := |items| - 1;
    while i > 0
      invariant 0 <= i < |items| && |items| == |Split(v, ".")|
      invariant Borrow(items, i + 1) == target
    {
      if IsDigits(items[i]) {
        var current := DigitsValue(items[i]) - 1;
        if current >= 0 {
          items := items[i := NatToDigits(current)];
          return Join(items, ".");
        } else {
          items := items[i := "9"];
        }
      }
      i := i - 1;
    }
    r := Join(items, ".");
  }

  /**
   * `increase_version` keeps the number of components and changes only the
   * right-most component of digits after the first, to its value plus one;
   * a version with no such component comes back unchanged.
   */
  lemma IncreasedSpec(v: string)
    ensures var xs := Split(v, "."); var p := LastDigits(xs, |xs|);
      && (p == 0 ==> Increased(v) == v)
      && (p != 0 ==>
            && |Split(Increased(v), ".")| == |xs|
            && IsDigits(Split(Increased(v), ".")[p])
            && DigitsValue(Split(Increased(v), ".")[p]) == DigitsValue(xs[p]) + 1
            && forall j :: 0 <= j < |xs| && j != p ==> Split(Increased(v), ".")[j] == xs[j])
  {
    var xs := Split(v, ".");
    var p := LastDigits(xs, |xs|);
    JoinSplit(v, ".");
    if p != 0 {
      var ys := Bump(xs, p);
      SplitNoDot(v);
      DigitsNoDot(ys[p]);
      SplitJoinDot(ys);
      DigitsRoundTrip(DigitsValue(xs[p]) + 1);
    }
  }

  /**
   * `decrease_version` keeps the number of components and the first one,
   * leaves every component not made of digits alone, and changes a
   * component of digits only to its value minus one or, when it is zero, to
   * `9`.
   */
  lemma DecreasedSpec(v: string)
    ensures var xs := Split(v, "."); var ys := Split(Decreased(v), ".");
      && |ys| == |xs| && ys[0] == xs[0]
      && (forall j :: 0 <= j < |xs| && !IsDigits(xs[j]) ==> ys[j] == xs[j])
      && forall j :: 1 <= j < |xs| && IsDigits(xs[j]) && ys[j] != xs[j] ==>
           (DigitsValue(xs[j]) == 0 && ys[j] == "9") || (DigitsValue(xs[j]) >= 1 && ys[j] == NatToDigits(DigitsValue(xs[j]) - 1))
  {
    var xs := Split(v, ".");
    var zs := Borrow(xs, |xs|);
    SplitNoDot(v);
    forall k | 0 <= k < |zs|
      ensures NoChar(zs[k], '.')
    {
      if zs[k] != xs[k] {
        if zs[k] == "9" {
          assert zs[k][0] == '9';
        } else {
          DigitsNoDot(zs[k]);
        }
      }
    }
    SplitJoinDot(zs);
  }

  /** Components above `p` that are not digits are passed over by the borrow. */
  lemma {:induction false} BorrowSkips(items: seq<string>, hi: nat, p: nat)
    requires 1 <= p < hi <= |items|
    requires forall j :: p < j < hi ==> !IsDigits(items[j])
    ensures Borrow(items, hi) == Borrow(items, p + 1)
  {
    if hi > p + 1 {
      BorrowSkips(items, hi - 1, p);
    }
  }

  /**
   * Decreasing undoes increasing whenever the component increasing bumps
   * is written as `str` writes its value (no leading zeros).
   */
  lemma DecreaseIncrease(v: string)
    requires var xs := Split(v, "."); var p := LastDigits(xs, |xs|);
      p != 0 ==> NatToDigits(DigitsValue(xs[p])) == xs[p]
    ensures Decreased(Increased(v)) == v
  {
    var xs := Split(v, ".");
    var p := LastDigits(xs, |xs|);
    JoinSplit(v, ".");
    if p == 0 {
      assert Increased(v) == v;
      BorrowNone(xs, |xs|);
    } else {
      var ys := Bump(xs, p);
      SplitNoDot(v);
      DigitsNoDot(ys[p]);
      SplitJoinDot(ys);
      BorrowBumped(xs, p);
    }
  }

  /** The borrow undoes a bump of the right-most component of digits, written without leading zeros. */
  lemma BorrowBumped(xs: seq<string>, p: nat)
    requires 1 <= p < |xs| && IsDigits(xs[p]) && NatToDigits(DigitsValue(xs[p])) == xs[p]
    requires forall j :: p < j < |xs| ==> !IsDigits(xs[j])
    ensures Borrow(Bump(xs, p), |xs|) == xs
  {
    var ys := Bump(xs, p);
    BorrowSkips(ys, |ys|, p);
    DigitsRoundTrip(DigitsValue(xs[p]) + 1);
    assert Borrow(ys, p + 1) == ys[p := NatToDigits(DigitsValue(xs[p]))];
    assert ys[p := xs[p]] == xs;
  }

  /** With no component of digits after the first, the borrow changes nothing. */
  lemma {:induction false} BorrowNone(items: seq<string>, hi: nat)
    requires hi <= |items|
    requires LastDigits(items, hi) == 0
    ensures Borrow(items, hi) == items
  {
    if hi > 1 {
      BorrowNone(items, hi - 1);
    }
  }

  /** `get_version_required(spec)`: the nearest version a `>` or `<` bound admits, else the bound's own version. */
  function Required(c: Clause): string
  {
    if c.op == ">" then Increased(c.version)
    else if c.op == "<" then Decreased(c.version)
    else c.version
  }

  lemma SplitOneZero()
    ensures Split("1.0", ".") == ["1", "0"]
  {
    var s := "1.0";
    assert MatchAt(s, ".", 1) by {
      assert s[1..2] == ".";
    }
    assert !MatchAt(s, ".", 0) by {
      assert s[0] == '1';
    }
    assert IndexOf(s, ".") == 1;
    assert s[..1] == "1" && s[2..] == "0";
    assert IndexOf("0", ".") < 0;
  }

  /** The versions of the tests: `1.0` is bumped to `1.1` by `>` and to `1.9` by `<`, and left as it is by the other operators. */
  lemma RequiredExamples()
    ensures Required(Clause(">", "1.0")) == "1.1"
    ensures Required(Clause("<", "1.0")) == "1.9"
    ensures Required(Clause("==", "1.0")) == "1.0"
    ensures Required(Clause(">=", "1.0")) == "1.0"
    ensures Required(Clause("<=", "1.0")) == "1.0"
    ensures Required(Clause("!=", "1.0")) == "1.0"
  {
    SplitOneZero();
    var xs := ["1", "0"];
    assert IsDigits(xs[1]) && DigitsValue(xs[1]) == 0;
    assert LastDigits(xs, 2) == 1;
    assert NatToDigits(1) == "1";
    assert Bump(xs, 1) == ["1", "1"];
    assert Join(["1", "1"], ".") == "1.1";
    assert Borrow(xs, 2) == Borrow(["1", "9"], 1) == ["1", "9"];
    assert Join(["1", "9"], ".") == "1.9";
  }

  // Requirement lists.

  /**
   * The text `read_requirements` hands to the parser: the line up to its
   * first `#`, stripped; `None` for a blank line and for tarball-URL, `-e`
   * and `-f` lines.
   */
  function Cleaned(line: string): Option<string>
  {
    var h := IndexOf(line, "#");
    var t := Strip(if h >= 0 then line[..h] else line);
    if t == [] || StartsWith(t, "http://tarballs.openstack.org/") || StartsWith(t, "-e") || StartsWith(t, "-f") then None
    else Some(t)
  }

  /**
   * `read_requirements(req_lines)` from the dictionary `m`: each line kept
   * is parsed and stored under its lower-cased project name, replacing an
   * earlier one; the flag is false once a line fails to parse, which raises
   * in Python with the lines before it already stored.
   */
  function ReadLines(lib: Lib, m: map<string, Parsed>, lines: seq<string>): (map<string, Parsed>, bool)
  {
    if lines == [] then (m, true)
    else
      var prev := ReadLines(lib, m, lines[..|lines| - 1]);
      if !prev.1 then prev
      else
        match Cleaned(lines[|lines| - 1])
        case None => prev
        case Some(t) =>
          match lib.parse(t)
          case None => (prev.0, false)
          case Some(q) => (prev.0[Lower(q.name) := q], true)
  }

  /** The parse of the last kept line of `lines` keyed `k`, if any. */
  function LastFor(lib: Lib, lines: seq<string>, k: string): Option<Parsed>
  {
    if lines == [] then None
    else
      var c := Cleaned(lines[|lines| - 1]);
      if c.Some? && lib.parse(c.value).Some? && Lower(lib.parse(c.value).value.name) == k then lib.parse(c.value)
      else LastFor(lib, lines[..|lines| - 1], k)
  }

  /** Every kept line parses. */
  predicate AllParse(lib: Lib, lines: seq<string>) {
    forall i :: 0 <= i < |lines| && Cleaned(lines[i]).Some? ==> lib.parse(Cleaned(lines[i]).value).Some?
  }

  /**
   * Reading succeeds exactly when every kept line parses; then a key is
   * present when it was before or some kept line has it, and it holds the
   * last such line's requirement: the last entry wins.
   */
  lemma ReadLinesSpec(lib: Lib, m: map<string, Parsed>, lines: seq<string>, k: string)
    ensures ReadLines(lib, m, lines).1 <==> AllParse(lib, lines)
    ensures ReadLines(lib, m, lines).1 ==>
      && (k in ReadLines(lib, m, lines).0 <==> k in m || LastFor(lib, lines, k).Some?)
      && (k in ReadLines(lib, m, lines).0 ==>
            ReadLines(lib, m, lines).0[k] == if LastFor(lib, lines, k).Some? then LastFor(lib, lines, k).value else m[k])
  {
    ReadLinesOk(lib, m, lines);
    if ReadLines(lib, m, lines).1 {
      ReadLinesLast(lib, m, lines, k);
    }
  }

  /** Every kept line parses exactly when the kept lines before the last do and the last one, if kept, parses. */
  lemma AllParseSnoc(lib: Lib, lines: seq<string>)
    requires lines != []
    ensures AllParse(lib, lines) <==>
      AllParse(lib, lines[..|lines| - 1])
      && (Cleaned(lines[|lines| - 1]).Some? ==> lib.parse(Cleaned(lines[|lines| - 1]).value).Some?)
  {
    var n := |lines| - 1;
    assert forall i :: 0 <= i < n ==> lines[..n][i] == lines[i];
  }

  lemma {:induction false} ReadLinesOk(lib: Lib, m: map<string, Parsed>, lines: seq<string>)
    ensures ReadLines(lib, m, lines).1 <==> AllParse(lib, lines)
  {
    if lines != [] {
      ReadLinesOk(lib, m, lines[..|lines| - 1]);
      AllParseSnoc(lib, lines);
    }
  }

  lemma {:induction false} ReadLinesLast(lib: Lib, m: map<string, Parsed>, lines: seq<string>, k: string)
    requires ReadLines(lib, m, lines).1
    ensures k in ReadLines(lib, m, lines).0 <==> k in m || LastFor(lib, lines, k).Some?
    ensures k in ReadLines(lib, m, lines).0 ==>
      ReadLines(lib, m, lines).0[k] == if LastFor(lib, lines, k).Some? then LastFor(lib, lines, k).value else m[k]
  {
    if lines != [] {
      ReadLinesLast(lib, m, lines[..|lines| - 1], k);
    }
  }

  /** Every key of `m` is the lower-cased project name of its requirement. */
  predicate KeyedByName(m: map<string, Parsed>) {
    forall k :: k in m ==> Lower(m[k].name) == k
  }

  /** Reading keeps every requirement under its own lower-cased name. */
  lemma {:induction false} ReadLinesKeyed(lib: Lib, m: map<string, Parsed>, lines: seq<string>)
    requires KeyedByName(m)
    ensures KeyedByName(ReadLines(lib, m, lines).0)
  {
    if lines != [] {
      ReadLinesKeyed(lib, m, lines[..|lines| - 1]);
    }
  }

  /** A list of parsed requirements, as `RequirementsList` keeps it. */
  class RequirementsList {
    var name: string
    var reqs: map<string, Parsed>

    constructor(name: string)
      ensures this.name == name && reqs == map[]
    {
      this.name := name;
      reqs := map[];
    }

    /**
     * `read_requirements(req_lines)`; `ok` is false when a line failed to
     * parse, with the lines before it already stored.
     */
    method ReadRequirements(lib: Lib, reqLines: seq<string>) returns (ok: bool)
      modifies this
      ensures name == old(name)
      ensures (reqs, ok) == ReadLines(lib, old(reqs), reqLines)
    {
      ghost var start := reqs;
      for i := 0 to |reqLines|
        invariant name == old(name)
        invariant ReadLines(lib, start, reqLines[..i]) == (reqs, true)
      {
        assert reqLines[..i + 1][..i] == reqLines[..i];
        var line := reqLines[i];
        var h := IndexOf(line, "#");
        if h >= 0 {
          line := line[..h];
        }
        line := Strip(line);
        if line == [] || StartsWith(line, "http://tarballs.openstack.org/") || StartsWith(line, "-e") || StartsWith(line, "-f") {
          continue;
        }
        var req := lib.parse(line);
        if req.None? {
          ReadLinesStops(lib, start, reqLines, i + 1);
          return false;
        }
        reqs := reqs[Lower(req.value.name) := req.value];
      }
      assert reqLines[..|reqLines|] == reqLines;
      return true;
    }
  }

  /** Once a line fails to parse, the lines after it change nothing. */
  lemma {:induction false} ReadLinesStops(lib: Lib, m: map<string, Parsed>, lines: seq<string>, i: nat)
    requires i <= |lines| && !ReadLines(lib, m, lines[..i]).1
    ensures ReadLines(lib, m, lines) == ReadLines(lib, m, lines[..i])
    decreases |lines| - i
  {
    if i < |lines| {
      assert lines[..i + 1][..i] == lines[..i];
      ReadLinesStops(lib, m, lines, i + 1);
    } else {
      assert lines[..i] == lines;
    }
  }

  // Comparing with the parent commit.

  /**
   * `req == parent_req`: pkg_resources requirements are equal when their
   * keys (the lower-cased project names), URLs, specifier sets, extras and
   * markers are.
   */
  predicate Same(lib: Lib, a: Parsed, b: Parsed) {
    && Lower(a.name) == Lower(b.name)
    && a.url == b.url
    && lib.sameSpecifier(a.specifier, b.specifier)
    && a.extras == b.extras
    && a.marker == b.marker
  }

  /**
   * A head requirement overlaps the parent: the parent has no requirement
   * of that name, or an equal one, or one admitting, pre-releases included
   * as `Requirement.__contains__` does, the version every clause of the
   * head requirement requires.
   */
  predicate Overlaps(lib: Lib, parent: map<string, Parsed>, q: Parsed) {
    var name := Lower(q.name);
    name !in parent || Same(lib, q, parent[name])
    || forall c :: c in q.clauses ==> lib.containsPre(parent[name].specifier, Required(c))
  }

  /** Every clause's required version is admitted by the parent requirement. */
  method ClausesAdmitted(lib: Lib, parentReq: Parsed, clauses: seq<Clause>) returns (ok: bool)
    ensures ok <==> forall c :: c in clauses ==> lib.containsPre(parentReq.specifier, Required(c))
  {
    ok := true;
    for i := 0 to |clauses|
      invariant ok <==> forall j :: 0 <= j < i ==> lib.containsPre(parentReq.specifier, Required(clauses[j]))
    {
      var version := Required(clauses[i]);
      if !lib.containsPre(parentReq.specifier, version) {
        ok := false;
      }
    }
  }

  /**
   * `compare_reqs(parent_reqs, head_reqs)`: every head requirement is
   * checked, and the call fails at the end exactly when some head
   * requirement does not overlap the parent.
   */
  method CompareReqs(lib: Lib, parentReqs: RequirementsList, headReqs: RequirementsList) returns (r: Result<()>)
    ensures r.Success? <==> forall k :: k in headReqs.reqs ==> Overlaps(lib, parentReqs.reqs, headReqs.reqs[k])
  {
    var parent := parentReqs.reqs;
    var head := headReqs.reqs;
    var failed := false;
    var rest := head.Keys;
    while rest != {}
      invariant rest <= head.Keys
      invariant !failed <==> forall k :: k in head.Keys - rest ==> Overlaps(lib, parent, head[k])
      decreases rest
    {
      var k :| k in rest;
      var req := head[k];
      var name := Lower(req.name);
      rest := rest - {k};
      if name !in parent {
        continue;
      }
      var parentReq := parent[name];
      if Same(lib, req, parentReq) {
        continue;
      }
      var ok := ClausesAdmitted(lib, parentReq, req.clauses);
      if !ok {
        failed := true;
      }
    }
    if failed {
      return Failure("Problem with requirements, check previous output.");
    }
    return Success(());
  }

  /** Comparing a list with itself never fails: every requirement meets its equal. */
  lemma CompareSelf(lib: Lib, m: map<string, Parsed>)
    requires SpecifierEquality(lib) && KeyedByName(m)
    ensures forall k :: k in m ==> Overlaps(lib, m, m[k])
  {
  }
}
