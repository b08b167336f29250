/**
 * The constraint generator of openstack_requirements/cmds/generate.py:
 * reading `pip freeze` output, combining the freezes of several Python
 * versions into one constraints list with environment markers, and
 * duplicating freezes under mapped Python versions.
 */
module Generate {
  import opened Wrappers
  import opened Text
  import opened Sorting
  import opened Listing
  import opened Requirement
  import Names

  /** A frozen `(package, version)` pair. */
  type Pin = (string, string)

  /**
   * One line of a freeze, as `_parse_freeze` reads it: an error for a line
   * starting with `-` and for a line without `==` (the tuple unpacking
   * fails), nothing for a comment or blank line, else the text before the
   * first `==` and the text between it and the next one.
   */
  function FreezeLine(raw: string): Result<Option<Pin>>
  {
    var line := Strip(raw);
    if StartsWith(line, "-") then Failure("Irregular line: " + line)
    else if StartsWith(line, "#") || line == "" then Success(None)
    else
      var parts := Split(line, "==");
      if |parts| < 2 then Failure("not enough values to unpack (expected 2, got 1)")
      else Success(Some((parts[0], parts[1])))
  }

  /** What a freeze line contributes to the result. */
  function Kept(o: Option<Pin>): Option<Pin> {
    o
  }

  /**
   * `_parse_freeze` of the given lines: the pairs of the lines in order, or
   * the error of the first line refused.
   */
  function Freeze(lines: seq<string>): Result<seq<Pin>>
  {
    match ApplyAll(FreezeLine, lines)
    case Failure(e) => Failure(e)
    case Success(os) => Success(Emit(os, Kept))
  }

  /**
   * `_parse_freeze(text)`.  The source splits with `splitlines()` and strips
   * each line; every line break is whitespace to `strip`, so splitting with
   * the breaks kept gives the same stripped lines.
   */
  method ParseFreeze(text: string) returns (r: Result<seq<Pin>>)
    ensures r == Freeze(SplitLines(text))
  {
    var lines := SplitLines(text);
    var result: seq<Pin> := [];
    ghost var os: seq<Option<Pin>> := [];
    var i := 0;
    while i < |lines|
      invariant 0 <= i <= |lines|
      invariant ApplyAll(FreezeLine, lines[..i]) == Success(os)
      invariant result == Emit(os, Kept)
    {
      ApplyAllSnoc(FreezeLine, lines, i);
      var c := FreezeLine(lines[i]);
      if c.Failure? {
        ApplyAllStops(FreezeLine, lines, i + 1);
        return Failure(c.error);
      }
      EmitSnoc(os, c.value, Kept);
      if c.value.Some? {
        result := result + [c.value.value];
      }
      os := os + [c.value];
      i := i + 1;
    }
    assert lines[..i] == lines;
    return Success(result);
  }

  /** Splitting at `==` finds two parts exactly when the text holds `==`. */
  lemma SplitTwoParts(line: string)
    ensures |Split(line, "==")| >= 2 <==> Contains(line, "==")
  {
  }

  /**
   * How a line is read: skipped when blank or a comment, refused when it
   * starts with `-` or has no `==`, a pair otherwise.
   */
  lemma FreezeLineOutcome(raw: string)
    ensures var line := Strip(raw);
      && (FreezeLine(raw) == Success(None) <==> line == [] || line[0] == '#')
      && (FreezeLine(raw).Failure? <==>
            line != [] && (line[0] == '-' || (line[0] != '#' && !Contains(line, "=="))))
  {
    SplitTwoParts(Strip(raw));
  }

  /**
   * A pair read from a line is the text before the first `==` and the text
   * up to the next one: the stripped line starts with `p == v`, and neither
   * part holds `==`.
   */
  lemma FreezeLineShape(raw: string)
    requires FreezeLine(raw).Success? && FreezeLine(raw).value.Some?
    ensures StartsWith(Strip(raw), FreezeLine(raw).value.value.0 + "==" + FreezeLine(raw).value.value.1)
    ensures !Contains(FreezeLine(raw).value.value.0, "==") && !Contains(FreezeLine(raw).value.value.1, "==")
  {
    var line := Strip(raw);
    SplitFirstTwo(line, "==");
    SplitPartsFree(line, "==");
  }

  /** A pair `pip freeze` can print: a name and a version without `=`, blanks or line breaks at the edges. */
  predicate Printable(p: Pin) {
    && p.0 != [] && !IsSpace(p.0[0]) && p.0[0] != '-' && p.0[0] != '#'
    && (p.1 == [] || !IsSpace(p.1[|p.1| - 1]))
    && NoChar(p.0, '=') && NoChar(p.1, '=')
    && NoLineBreak(p.0) && NoLineBreak(p.1)
  }

  /** The line `pip freeze` prints for a pair. */
  function FreezeText(p: Pin): string {
    p.0 + "==" + p.1 + "\n"
  }

  lemma NoMatchWithout(s: string, j: int)
    requires NoChar(s, '=')
    ensures !MatchAt(s, "==", j)
  {
    if 0 <= j && j + 2 <= |s| {
      assert s[j..j + 2][0] == s[j];
    }
  }

  /** Splitting `p == v` at `==` gives back `p` and `v`. */
  lemma SplitPrinted(p: string, v: string)
    requires NoChar(p, '=') && NoChar(v, '=')
    ensures Split(p + "==" + v, "==") == [p, v]
  {
    var s := p + "==" + v;
    assert MatchAt(s, "==", |p|) by {
      assert s[|p|..|p| + 2] == "==";
    }
    forall j | 0 <= j < |p|
      ensures !MatchAt(s, "==", j)
    {
      if j + 2 <= |s| {
        assert s[j..j + 2][0] == s[j] == p[j];
      }
    }
    var i := IndexOf(s, "==");
    assert s[i + 2..] == v;
    if IndexOf(v, "==") >= 0 {
      NoMatchWithout(v, IndexOf(v, "=="));
    }
    assert s[..i] == p;
  }

  /** The printed line of a pair is read back as that pair. */
  lemma FreezeLineOf(p: Pin)
    requires Printable(p)
    ensures FreezeLine(FreezeText(p)) == Success(Some(p))
  {
    var body := p.0 + "==" + p.1;
    var raw := body + "\n";
    assert raw[..|raw| - 1] == body;
    assert RStrip(raw) == RStrip(body);
    assert body[|body| - 1] == (if p.1 == [] then '=' else p.1[|p.1| - 1]);
    assert RStrip(body) == body;
    assert body[0] == p.0[0];
    assert Strip(raw) == body;
    SplitPrinted(p.0, p.1);
  }

  lemma EmitKept(os: seq<Option<Pin>>, pins: seq<Pin>)
    requires |os| == |pins| && forall k :: 0 <= k < |os| ==> os[k] == Some(pins[k])
    ensures Emit(os, Kept) == pins
  {
    if os != [] {
      EmitKept(os[..|os| - 1], pins[..|pins| - 1]);
    }
  }

  /** Printed pairs, each on its own line, are read back in order. */
  lemma ParseFreezeRoundTrip(pins: seq<Pin>)
    requires forall k :: 0 <= k < |pins| ==> Printable(pins[k])
    ensures Freeze(SplitLines(Concat(seq(|pins|, k requires 0 <= k < |pins| => FreezeText(pins[k]))))) == Success(pins)
  {
    var ls := seq(|pins|, k requires 0 <= k < |pins| => FreezeText(pins[k]));
    forall k | 0 <= k < |ls|
      ensures ls[k] != [] && ls[k][|ls[k]| - 1] == '\n' && NoLineBreak(ls[k][..|ls[k]| - 1])
    {
      var body := pins[k].0 + "==" + pins[k].1;
      assert ls[k][..|ls[k]| - 1] == body;
      NoLineBreakConcat(pins[k].0, "==");
      NoLineBreakConcat(pins[k].0 + "==", pins[k].1);
    }
    SplitLinesOfTerminated(ls);
    forall k | 0 <= k < |ls|
      ensures FreezeLine(ls[k]) == Success(Some(pins[k]))
    {
      FreezeLineOf(pins[k]);
    }
    ApplyAllEach(FreezeLine, ls);
    EmitKept(ApplyAll(FreezeLine, ls).value, pins);
  }

  /**
   * The lines are read exactly when none is refused, and then a pair is in
   * the result exactly when some line reads as it.
   */
  lemma FreezeMembers(lines: seq<string>, p: Pin)
    ensures Freeze(lines).Success? <==> forall k :: 0 <= k < |lines| ==> FreezeLine(lines[k]).Success?
    ensures Freeze(lines).Success? ==>
      (p in Freeze(lines).value <==> exists k :: 0 <= k < |lines| && FreezeLine(lines[k]) == Success(Some(p)))
  {
    ApplyAllEach(FreezeLine, lines);
    if Freeze(lines).Success? {
      var os := ApplyAll(FreezeLine, lines).value;
      EmitMembers(os, Kept, p);
      if exists i :: 0 <= i < |os| && Kept(os[i]) == Some(p) {
        var i :| 0 <= i < |os| && Kept(os[i]) == Some(p);
        assert FreezeLine(lines[i]) == Success(Some(p));
      }
      if exists k :: 0 <= k < |lines| && FreezeLine(lines[k]) == Success(Some(p)) {
        var k :| 0 <= k < |lines| && FreezeLine(lines[k]) == Success(Some(p));
        assert Kept(os[k]) == Some(p);
      }
    }
  }

  /** The Python versions that froze each version of a package, by version. */
  type Versions = map<string, seq<string>>

  /** `packages` of `_combine_freezes`: package name to its `Versions`. */
  type Packages = map<string, Versions>

  /** Records `py` under one package and version, creating the levels that are missing. */
  function AddPin(pk: Packages, py: string, p: Pin): Packages {
    var vs := if p.0 in pk then pk[p.0] else map[];
    var pys := if p.1 in vs then vs[p.1] else [];
    pk[p.0 := vs[p.1 := pys + [py]]]
  }

  /** Every pair of one freeze recorded under its Python version. */
  function AddFreeze(pk: Packages, py: string, pins: seq<Pin>): Packages {
    if pins == [] then pk
    else AddPin(AddFreeze(pk, py, pins[..|pins| - 1]), py, pins[|pins| - 1])
  }

  /** The Python versions of the freezes, in order: `reference_versions`. */
  function Pythons(freezes: seq<(string, seq<Pin>)>): (refs: seq<string>)
    ensures |refs| == |freezes| && forall k :: 0 <= k < |freezes| ==> refs[k] == freezes[k].0
  {
    seq(|freezes|, k requires 0 <= k < |freezes| => freezes[k].0)
  }

  /** The `packages` dictionary once every freeze is recorded. */
  function Collect(freezes: seq<(string, seq<Pin>)>): Packages {
    if freezes == [] then map[]
    else
      var last := freezes[|freezes| - 1];
      AddFreeze(Collect(freezes[..|freezes| - 1]), last.0, last.1)
  }

  predicate Distinct(xs: seq<string>) {
    forall i, j :: 0 <= i < j < |xs| ==> xs[i] != xs[j]
  }

  /** The inner loop of the first half of `_combine_freezes`: one freeze recorded. */
  method RecordFreeze(pk: Packages, py: string, pins: seq<Pin>) returns (r: Packages)
    ensures r == AddFreeze(pk, py, pins)
  {
    r := pk;
    for j := 0 to |pins|
      invariant r == AddFreeze(pk, py, pins[..j])
    {
      assert pins[..j + 1][..j] == pins[..j];
      var (package, version) := pins[j];
      var vs := if package in r then r[package] else map[];
      var pys := if version in vs then vs[version] else [];
      r := r[package := vs[version := pys + [py]]];
    }
    assert pins[..|pins|] == pins;
  }

  /**
   * The first half of `_combine_freezes`: the reference versions and the
   * `packages` dictionary, or the error for the first Python version that
   * repeats an earlier one.
   */
  method CollectFreezes(freezes: seq<(string, seq<Pin>)>) returns (r: Result<(seq<string>, Packages)>)
    ensures r.Failure? <==> !Distinct(Pythons(freezes))
    ensures r.Failure? ==>
      exists i, j :: 0 <= i < j < |freezes| && freezes[i].0 == freezes[j].0 && r.error == "Duplicate python " + freezes[j].0
    ensures r.Success? ==> r.value == (Pythons(freezes), Collect(freezes))
  {
    var refs: seq<string> := [];
    var pk: Packages := map[];
    for i := 0 to |freezes|
      invariant refs == Pythons(freezes[..i]) && Distinct(refs)
      invariant pk == Collect(freezes[..i])
    {
      var (py, freeze) := freezes[i];
      if py in refs {
        var k :| 0 <= k < |refs| && refs[k] == py;
        return Failure("Duplicate python " + py);
      }
      assert freezes[..i + 1][..i] == freezes[..i];
      refs := refs + [py];
      pk := RecordFreeze(pk, py, freeze);
    }
    assert freezes[..|freezes|] == freezes;
    return Success((refs, pk));
  }

  /** Python version `x` is recorded for version `v` of package `p`. */
  predicate Recorded(pk: Packages, p: string, v: string, x: string) {
    p in pk && v in pk[p] && x in pk[p][v]
  }

  lemma {:induction false} AddFreezeMembers(pk: Packages, py: string, pins: seq<Pin>, p: string, v: string, x: string)
    ensures Recorded(AddFreeze(pk, py, pins), p, v, x) <==> Recorded(pk, p, v, x) || (x == py && (p, v) in pins)
  {
    if pins != [] {
      var init := pins[..|pins| - 1];
      AddFreezeMembers(pk, py, init, p, v, x);
      assert pins == init + [pins[|pins| - 1]];
    }
  }

  /**
   * After collecting, a Python version is recorded for a version of a
   * package exactly when that Python's freeze holds the pair.
   */
  lemma {:induction false} CollectMembers(freezes: seq<(string, seq<Pin>)>, p: string, v: string, x: string)
    ensures Recorded(Collect(freezes), p, v, x) <==>
      exists i :: 0 <= i < |freezes| && freezes[i].0 == x && (p, v) in freezes[i].1
  {
    if freezes != [] {
      var init := freezes[..|freezes| - 1];
      var last := freezes[|freezes| - 1];
      CollectMembers(init, p, v, x);
      AddFreezeMembers(Collect(init), last.0, last.1, p, v, x);
      if exists i :: 0 <= i < |freezes| && freezes[i].0 == x && (p, v) in freezes[i].1 {
        var i :| 0 <= i < |freezes| && freezes[i].0 == x && (p, v) in freezes[i].1;
        if i < |init| {
          assert init[i] == freezes[i];
        }
      }
      if exists i :: 0 <= i < |init| && init[i].0 == x && (p, v) in init[i].1 {
        var i :| 0 <= i < |init| && init[i].0 == x && (p, v) in init[i].1;
        assert freezes[i] == init[i];
      }
    }
  }

  /** `pins` holds exactly one pair for package `p`, and it is `(p, v)`. */
  predicate OnceAs(pins: seq<Pin>, p: string, v: string) {
    exists j :: 0 <= j < |pins| && pins[j] == (p, v) && forall k :: 0 <= k < |pins| && k != j ==> pins[k].0 != p
  }

  /** The versions of `p` once Python `py` is recorded for version `v`. */
  function Bump(pk: Packages, p: string, v: string, py: string): Versions {
    var vs := if p in pk then pk[p] else map[];
    vs[v := (if v in vs then vs[v] else []) + [py]]
  }

  lemma {:induction false} AddFreezeOther(pk: Packages, py: string, pins: seq<Pin>, p: string)
    requires forall k :: 0 <= k < |pins| ==> pins[k].0 != p
    ensures (p in AddFreeze(pk, py, pins) <==> p in pk)
    ensures p in pk ==> AddFreeze(pk, py, pins)[p] == pk[p]
  {
    if pins != [] {
      AddFreezeOther(pk, py, pins[..|pins| - 1], p);
    }
  }

  lemma {:induction false} AddFreezeOnce(pk: Packages, py: string, pins: seq<Pin>, p: string, v: string)
    requires OnceAs(pins, p, v)
    ensures p in AddFreeze(pk, py, pins) && AddFreeze(pk, py, pins)[p] == Bump(pk, p, v, py)
  {
    var j :| 0 <= j < |pins| && pins[j] == (p, v) && forall k :: 0 <= k < |pins| && k != j ==> pins[k].0 != p;
    var init := pins[..|pins| - 1];
    if j == |pins| - 1 {
      AddFreezeOther(pk, py, init, p);
    } else {
      assert init[j] == pins[j];
      assert OnceAs(init, p, v);
      AddFreezeOnce(pk, py, init, p, v);
    }
  }

  /**
   * A package every freeze holds exactly once, always as version `v`, is
   * recorded with that one version for all the reference Python versions.
   */
  lemma {:induction false} CollectSingle(freezes: seq<(string, seq<Pin>)>, p: string, v: string)
    requires freezes != [] && forall i :: 0 <= i < |freezes| ==> OnceAs(freezes[i].1, p, v)
    ensures p in Collect(freezes) && Collect(freezes)[p] == map[v := Pythons(freezes)]
  {
    var init := freezes[..|freezes| - 1];
    var last := freezes[|freezes| - 1];
    AddFreezeOnce(Collect(init), last.0, last.1, p, v);
    assert Pythons(freezes) == Pythons(init) + [last.0];
    if init != [] {
      CollectSingle(init, p, v);
    }
  }

  /**
   * A line `_combine_freezes` yields: `package===version`, followed by a
   * `python_version` marker when the line is for one Python version.
   */
  datatype Constraint = Constraint(package: string, version: string, python: Option<string>)
  {
    function Render(): string {
      if python.Some? then package + "===" + version + ";python_version=='" + python.value + "'\n"
      else package + "===" + version + "\n"
    }
  }

  function PackageOf(c: Constraint): string {
    c.package
  }

  /** The sort key of `sorted(py_versions)`: the string itself. */
  function Same(s: string): string {
    s
  }

  /** The marked lines of one version of a package, one per Python version, in the given order. */
  function PythonLines(p: string, v: string, pys: seq<string>): (cs: seq<Constraint>)
    ensures |cs| == |pys|
  {
    seq(|pys|, k requires 0 <= k < |pys| => Constraint(p, v, Some(pys[k])))
  }

  /** The marked lines of a package: for each version of `order`, its Python versions sorted. */
  function MarkerLines(p: string, vs: Versions, order: seq<string>): seq<Constraint>
    requires forall v :: v in order ==> v in vs
  {
    if order == [] then []
    else
      var v := order[|order| - 1];
      MarkerLines(p, vs, order[..|order| - 1]) + PythonLines(p, v, SortBy(vs[v], Same, Below))
  }

  /** The one version of a package frozen at a single version. */
  function Only(vs: Versions): (v: string)
    requires |vs| == 1
    ensures v in vs
  {
    SortSet(vs.Keys)[0]
  }

  /**
   * The lines of one package: a single unmarked line when the package has
   * one version and that version was frozen by exactly the reference Python
   * versions, marked lines otherwise.
   */
  function PackageLines(p: string, vs: Versions, refs: seq<string>): seq<Constraint> {
    if |vs| != 1 || vs[Only(vs)] != refs then MarkerLines(p, vs, SortSet(vs.Keys))
    else [Constraint(p, Only(vs), None)]
  }

  /** `excludes`: the canonical names of the denied packages. */
  function Excludes(blacklist: seq<string>): set<string> {
    set b | b in blacklist :: Names.CanonicalName(b)
  }

  /** The lines of the packages of `order` whose lower-cased names are not excluded. */
  function CombineLines(pk: Packages, refs: seq<string>, excludes: set<string>, order: seq<string>): seq<Constraint>
    requires forall p :: p in order ==> p in pk
  {
    if order == [] then []
    else
      var p := order[|order| - 1];
      CombineLines(pk, refs, excludes, order[..|order| - 1])
      + (if Lower(p) in excludes then [] else PackageLines(p, pk[p], refs))
  }

  /** The second half of `_combine_freezes`: the packages in name order. */
  function Combine(pk: Packages, refs: seq<string>, excludes: set<string>): seq<Constraint> {
    CombineLines(pk, refs, excludes, SortSet(pk.Keys))
  }

  function Rendered(cs: seq<Constraint>): (ls: seq<string>)
    ensures |ls| == |cs| && forall k :: 0 <= k < |cs| ==> ls[k] == cs[k].Render()
  {
    seq(|cs|, k requires 0 <= k < |cs| => cs[k].Render())
  }

  /** One marked line per Python version, in sorted order. */
  method YieldPythons(p: string, v: string, pys: seq<string>) returns (out: seq<Constraint>)
    ensures out == PythonLines(p, v, SortBy(pys, Same, Below))
  {
    var sorted := SortBy(pys, Same, Below);
    out := [];
    for k := 0 to |sorted|
      invariant out == PythonLines(p, v, sorted[..k])
    {
      assert sorted[..k + 1][..k] == sorted[..k];
      out := out + [Constraint(p, v, Some(sorted[k]))];
    }
    assert sorted[..|sorted|] == sorted;
  }

  /** The marked lines of each version, versions in sorted order. */
  method YieldMarked(p: string, vs: Versions) returns (out: seq<Constraint>)
    ensures out == MarkerLines(p, vs, SortSet(vs.Keys))
  {
    var order := SortSet(vs.Keys);
    out := [];
    for k := 0 to |order|
      invariant out == MarkerLines(p, vs, order[..k])
    {
      MarkerLinesSnoc(p, vs, order, k);
      var lines := YieldPythons(p, order[k], vs[order[k]]);
      out := out + lines;
    }
    assert order[..|order|] == order;
  }

  lemma MarkerLinesSnoc(p: string, vs: Versions, order: seq<string>, k: nat)
    requires k < |order| && forall v :: v in order ==> v in vs
    ensures forall v :: v in order[..k + 1] ==> v in vs
    ensures MarkerLines(p, vs, order[..k + 1]) ==
      MarkerLines(p, vs, order[..k]) + PythonLines(p, order[k], SortBy(vs[order[k]], Same, Below))
  {
    assert order[..k + 1][..k] == order[..k];
    assert forall v :: v in order[..k + 1] ==> v in order;
  }

  /** The lines of one package, as the body of the second loop of `_combine_freezes` yields them. */
  method YieldPackage(p: string, vs: Versions, refs: seq<string>) returns (out: seq<Constraint>)
    ensures out == PackageLines(p, vs, refs)
  {
    if |vs| != 1 || vs[Only(vs)] != refs {
      out := YieldMarked(p, vs);
    } else {
      out := [Constraint(p, Only(vs), None)];
    }
  }

  /**
   * `_combine_freezes(freezes, blacklist)`: the error for a repeated Python
   * version, else the constraint lines of every package not denied, in name
   * order.  An absent blacklist is the empty one.
   */
  method CombineFreezes(freezes: seq<(string, seq<Pin>)>, blacklist: seq<string>) returns (r: Result<seq<string>>)
    ensures r.Failure? <==> !Distinct(Pythons(freezes))
    ensures r.Success? ==> r.value == Rendered(Combine(Collect(freezes), Pythons(freezes), Excludes(blacklist)))
  {
    var excludes := set b | b in blacklist :: Names.CanonicalName(b);
    var collected := CollectFreezes(freezes);
    if collected.Failure? {
      return Failure(collected.error);
    }
    var (refs, pk) := collected.value;
    var order := SortSet(pk.Keys);
    var cs: seq<Constraint> := [];
    for i := 0 to |order|
      invariant cs == CombineLines(pk, refs, excludes, order[..i])
    {
      assert order[..i + 1][..i] == order[..i];
      var p := order[i];
      if Lower(p) !in excludes {
        var lines := YieldPackage(p, pk[p], refs);
        cs := cs + lines;
      }
    }
    assert order[..|order|] == order;
    return Success(Rendered(cs));
  }

  /**
   * A package every freeze holds exactly once, always at version `v`, gets
   * the single unmarked line `p===v`.
   */
  lemma SingleVersionUnmarked(freezes: seq<(string, seq<Pin>)>, p: string, v: string)
    requires freezes != [] && forall i :: 0 <= i < |freezes| ==> OnceAs(freezes[i].1, p, v)
    ensures p in Collect(freezes)
    ensures PackageLines(p, Collect(freezes)[p], Pythons(freezes)) == [Constraint(p, v, None)]
  {
    CollectSingle(freezes, p, v);
    PackageLinesSingle(p, v, Pythons(freezes));
  }

  /** A package frozen at one version by exactly the reference Python versions gets one unmarked line. */
  lemma PackageLinesSingle(p: string, v: string, refs: seq<string>)
    ensures PackageLines(p, map[v := refs], refs) == [Constraint(p, v, None)]
  {
    var vs := map[v := refs];
    assert vs.Keys == {v};
  }

  lemma {:induction false} MarkerLinesMembers(p: string, vs: Versions, order: seq<string>, c: Constraint)
    requires forall v :: v in order ==> v in vs
    ensures c in MarkerLines(p, vs, order) <==>
      c.package == p && c.version in order && c.python.Some? && c.python.value in vs[c.version]
  {
    if order != [] {
      var init := order[..|order| - 1];
      var v := order[|order| - 1];
      MarkerLinesMembers(p, vs, init, c);
      var sorted := SortBy(vs[v], Same, Below);
      assert c.python.Some? && c.python.value in sorted <==> c.python.Some? && c.python.value in vs[v] by {
        if c.python.Some? {
          assert c.python.value in multiset(sorted) <==> c.python.value in multiset(vs[v]);
        }
      }
      if c in PythonLines(p, v, sorted) {
        var k :| 0 <= k < |sorted| && PythonLines(p, v, sorted)[k] == c;
      }
      if c.package == p && c.version == v && c.python.Some? && c.python.value in sorted {
        var k :| 0 <= k < |sorted| && sorted[k] == c.python.value;
        assert PythonLines(p, v, sorted)[k] == c;
      }
    }
  }

  /**
   * When a package gets marked lines, there is a line `p===v` for Python
   * `x` exactly when the freeze of `x` holds `p==v`.
   */
  lemma MarkedMembers(freezes: seq<(string, seq<Pin>)>, p: string, v: string, x: string)
    requires p in Collect(freezes)
    requires var vs := Collect(freezes)[p]; |vs| != 1 || vs[Only(vs)] != Pythons(freezes)
    ensures Constraint(p, v, Some(x)) in PackageLines(p, Collect(freezes)[p], Pythons(freezes)) <==>
      exists i :: 0 <= i < |freezes| && freezes[i].0 == x && (p, v) in freezes[i].1
  {
    var vs := Collect(freezes)[p];
    MarkerLinesMembers(p, vs, SortSet(vs.Keys), Constraint(p, v, Some(x)));
    CollectMembers(freezes, p, v, x);
  }

  /** Every line of a package names that package. */
  lemma PackageLinesOf(p: string, vs: Versions, refs: seq<string>)
    ensures forall k :: 0 <= k < |PackageLines(p, vs, refs)| ==> PackageLines(p, vs, refs)[k].package == p
  {
    var cs := PackageLines(p, vs, refs);
    if |vs| != 1 || vs[Only(vs)] != refs {
      forall k | 0 <= k < |cs|
        ensures cs[k].package == p
      {
        MarkerLinesMembers(p, vs, SortSet(vs.Keys), cs[k]);
      }
    }
  }

  lemma {:induction false} CombineLinesHaving(pk: Packages, refs: seq<string>, excludes: set<string>, order: seq<string>, p: string)
    requires Distinct(order) && forall q :: q in order ==> q in pk
    ensures Having(CombineLines(pk, refs, excludes, order), PackageOf, p) ==
      if p in order && Lower(p) !in excludes then PackageLines(p, pk[p], refs) else []
  {
    if order != [] {
      var init := order[..|order| - 1];
      var q := order[|order| - 1];
      assert Distinct(init);
      CombineLinesHaving(pk, refs, excludes, init, p);
      var block := if Lower(q) in excludes then [] else PackageLines(q, pk[q], refs);
      HavingAppend(CombineLines(pk, refs, excludes, init), block, PackageOf, p);
      PackageLinesOf(q, pk[q], refs);
      if q == p {
        assert p !in init;
        HavingAll(block, PackageOf, p);
      } else {
        HavingNone(block, PackageOf, p);
        assert p in order <==> p in init;
      }
    }
  }

  lemma SortSetDistinct(s: set<string>)
    ensures Distinct(SortSet(s))
  {
    SortSetIncreasing(s);
    var r := SortSet(s);
    forall i, j | 0 <= i < j < |r|
      ensures r[i] != r[j]
    {
      BelowIrreflexive(r[i]);
    }
  }

  /**
   * The lines of a package in the output: none when the package was never
   * frozen or its lower-cased name is denied, else exactly its own lines.
   */
  lemma CombinePackage(pk: Packages, refs: seq<string>, excludes: set<string>, p: string)
    ensures Having(Combine(pk, refs, excludes), PackageOf, p) ==
      if p in pk && Lower(p) !in excludes then PackageLines(p, pk[p], refs) else []
  {
    SortSetDistinct(pk.Keys);
    CombineLinesHaving(pk, refs, excludes, SortSet(pk.Keys), p);
  }

  lemma {:induction false} CombineLinesFrom(pk: Packages, refs: seq<string>, excludes: set<string>, order: seq<string>)
    requires forall q :: q in order ==> q in pk
    ensures forall k :: 0 <= k < |CombineLines(pk, refs, excludes, order)| ==>
      CombineLines(pk, refs, excludes, order)[k].package in order
  {
    if order != [] {
      var init := order[..|order| - 1];
      var q := order[|order| - 1];
      CombineLinesFrom(pk, refs, excludes, init);
      PackageLinesOf(q, pk[q], refs);
    }
  }

  lemma BelowAsymmetric(a: string, b: string)
    requires Below(a, b)
    ensures !Below(b, a)
  {
    if Below(b, a) {
      BelowTransitive(a, b, a);
      BelowIrreflexive(a);
    }
  }

  /** Lines ordered by package, followed by lines of a later package, stay ordered. */
  lemma SortedThen(head: seq<Constraint>, block: seq<Constraint>, q: string)
    requires SortedBy(head, PackageOf, Below)
    requires forall k :: 0 <= k < |head| ==> Below(head[k].package, q)
    requires forall k :: 0 <= k < |block| ==> block[k].package == q
    ensures SortedBy(head + block, PackageOf, Below)
  {
    var cs := head + block;
    forall i, j | 0 <= i < j < |cs|
      ensures !Below(PackageOf(cs[j]), PackageOf(cs[i]))
    {
      if j < |head| {
        assert cs[i] == head[i] && cs[j] == head[j];
      } else if i >= |head| {
        assert cs[i] == block[i - |head|] && cs[j] == block[j - |head|];
        BelowIrreflexive(q);
      } else {
        assert cs[i] == head[i] && cs[j] == block[j - |head|];
        BelowAsymmetric(head[i].package, q);
      }
    }
  }

  lemma {:induction false} CombineLinesOrdered(pk: Packages, refs: seq<string>, excludes: set<string>, order: seq<string>)
    requires forall q :: q in order ==> q in pk
    requires forall i, j :: 0 <= i < j < |order| ==> Below(order[i], order[j])
    ensures SortedBy(CombineLines(pk, refs, excludes, order), PackageOf, Below)
  {
    if order != [] {
      var init := order[..|order| - 1];
      var q := order[|order| - 1];
      var head := CombineLines(pk, refs, excludes, init);
      var block := if Lower(q) in excludes then [] else PackageLines(q, pk[q], refs);
      CombineLinesOrdered(pk, refs, excludes, init);
      CombineLinesFrom(pk, refs, excludes, init);
      PackageLinesOf(q, pk[q], refs);
      forall k | 0 <= k < |head|
        ensures Below(head[k].package, q)
      {
        var n :| 0 <= n < |init| && init[n] == head[k].package;
      }
      SortedThen(head, block, q);
    }
  }

  /** The output is ordered by package name. */
  lemma CombineOrdered(pk: Packages, refs: seq<string>, excludes: set<string>)
    ensures SortedBy(Combine(pk, refs, excludes), PackageOf, Below)
  {
    var order := SortSet(pk.Keys);
    SortSetIncreasing(pk.Keys);
    forall i, j | 0 <= i < j < |order|
      ensures Below(order[i], order[j])
    {
      assert Below(SortSet(pk.Keys)[i], SortSet(pk.Keys)[j]);
    }
    CombineLinesOrdered(pk, refs, excludes, order);
  }

  /** The Python versions that have a freeze. */
  function VersionSet(freezes: seq<(string, seq<Pin>)>): set<string> {
    set k | 0 <= k < |freezes| :: freezes[k].0
  }

  /** Freeze `k` is a copy of the earlier freeze `j` under the version mapped from `j`'s. */
  predicate CopyAt(freezes: seq<(string, seq<Pin>)>, versionMap: map<string, string>, k: int, j: int) {
    0 <= j < k < |freezes| && freezes[j].0 in versionMap && freezes[k] == (versionMap[freezes[j].0], freezes[j].1)
  }

  /** The version of freeze `t` maps to `v`. */
  predicate MapsTo(freezes: seq<(string, seq<Pin>)>, versionMap: map<string, string>, t: int, v: string) {
    0 <= t < |freezes| && freezes[t].0 in versionMap && versionMap[freezes[t].0] == v
  }

  /**
   * Freeze `k` is a copy of an earlier freeze, the first in the list whose
   * version maps to `k`'s version.
   */
  ghost predicate Copied(freezes: seq<(string, seq<Pin>)>, versionMap: map<string, string>, k: int) {
    exists j :: CopyAt(freezes, versionMap, k, j)
      && forall t :: 0 <= t < j ==> !MapsTo(freezes, versionMap, t, freezes[k].0)
  }

  /**
   * Appending the copy of freeze `i` under its mapped version, which no
   * freeze has yet, keeps every appended freeze a copy of the first freeze
   * mapping to it.
   */
  lemma CopiedAppend(before: seq<(string, seq<Pin>)>, versionMap: map<string, string>, start: nat, i: nat)
    requires i < |before| && before[i].0 in versionMap
    requires forall k :: 0 <= k < |before| ==> before[k].0 != versionMap[before[i].0]
    requires forall k :: start <= k < |before| ==> Copied(before, versionMap, k)
    requires forall j :: 0 <= j < i && before[j].0 in versionMap ==> versionMap[before[j].0] in VersionSet(before)
    ensures forall k :: start <= k <= |before| ==>
      Copied(before + [(versionMap[before[i].0], before[i].1)], versionMap, k)
  {
    var nv := versionMap[before[i].0];
    var out := before + [(nv, before[i].1)];
    forall k | start <= k <= |before|
      ensures Copied(out, versionMap, k)
    {
      if k == |before| {
        assert CopyAt(out, versionMap, k, i);
        forall t | 0 <= t < i
          ensures !MapsTo(out, versionMap, t, nv)
        {
          assert out[t] == before[t];
          assert before[t].0 in versionMap ==> versionMap[before[t].0] in VersionSet(before);
        }
      } else {
        assert Copied(before, versionMap, k);
        var j :| CopyAt(before, versionMap, k, j)
          && forall t :: 0 <= t < j ==> !MapsTo(before, versionMap, t, before[k].0);
        assert out[j] == before[j] && out[k] == before[k];
        assert CopyAt(out, versionMap, k, j);
        forall t | 0 <= t < j
          ensures !MapsTo(out, versionMap, t, out[k].0)
        {
          assert out[t] == before[t];
          assert !MapsTo(before, versionMap, t, before[k].0);
        }
      }
    }
  }

  /**
   * `_clone_versions(freezes, options)`: walks the list while it grows, and
   * appends a copy of each freeze under the version `version_map` gives for
   * its Python version when no freeze has that version yet.  The result
   * keeps the input as a prefix; each appended freeze is a copy of the
   * first freeze whose version maps to it, under a version no earlier
   * freeze has; and at the end every mapped version of a freeze has a
   * freeze.
   */
  method CloneVersions(freezes: seq<(string, seq<Pin>)>, versionMap: map<string, string>)
    returns (out: seq<(string, seq<Pin>)>)
    ensures |out| >= |freezes| && out[..|freezes|] == freezes
    ensures forall k :: |freezes| <= k < |out| ==> Copied(out, versionMap, k)
    ensures forall k, j :: |freezes| <= k < |out| && 0 <= j < k ==> out[j].0 != out[k].0
    ensures forall j :: 0 <= j < |out| && out[j].0 in versionMap ==> versionMap[out[j].0] in VersionSet(out)
  {
    out := freezes;
    var i := 0;
    while i < |out|
      invariant i <= |out| && |out| >= |freezes| && out[..|freezes|] == freezes
      invariant forall k :: |freezes| <= k < |out| ==> Copied(out, versionMap, k)
      invariant forall k, j :: |freezes| <= k < |out| && 0 <= j < k ==> out[j].0 != out[k].0
      invariant forall j :: 0 <= j < i && out[j].0 in versionMap ==> versionMap[out[j].0] in VersionSet(out)
      decreases versionMap.Values - VersionSet(out), |out| - i
    {
      var versions := seq(|out|, k requires 0 <= k < |out| => out[k].0);
      var (version, freeze) := out[i];
      if version in versionMap && versionMap[version] !in versions {
        var before := out;
        var nv := versionMap[version];
        assert nv in versionMap.Values;
        forall k | 0 <= k < |before|
          ensures before[k].0 != nv
        {
          assert versions[k] == before[k].0;
        }
        out := out + [(nv, freeze)];
        assert out[..|freezes|] == before[..|freezes|];
        assert VersionSet(out) == VersionSet(before) + {nv} by {
          assert out[|before|].0 == nv;
          forall k | 0 <= k < |before| ensures out[k].0 == before[k].0 { }
        }
        assert out[i] == before[i];
        assert out[|before|] == (versionMap[out[i].0], out[i].1);
        CopiedAppend(before, versionMap, |freezes|, i);
        forall k, j | |freezes| <= k < |out| && 0 <= j < k
          ensures out[j].0 != out[k].0
        {
          if k == |before| {
            assert out[j].0 in VersionSet(before);
          } else {
            assert out[j] == before[j] && out[k] == before[k];
          }
        }
      } else if version in versionMap {
        var k :| 0 <= k < |out| && versions[k] == versionMap[version];
        assert out[k].0 == versionMap[version];
      }
      i := i + 1;
    }
    assert out[..|freezes|] == freezes;
  }
}
