/**
 * The synchroniser of openstack_requirements/cmds/update.py: a project's
 * parsed requirements file is rewritten against the global requirements,
 * recording each version change and reporting unknown packages.
 *
 * `SyncRequirementsFile` walks the lines once, as the source does, keeping
 * the set of packages already processed.  It is proved against `Walk`, a
 * stateless account in which line `i` contributes `LineOut(.., i)` and the
 * processed set is replaced by "no earlier line had this key" (`FirstOf`).
 */
module UpdateCmd {
  import opened Wrappers
  import opened Text
  import opened Requirement
  import opened Project

  /** A version change of one package; the old and new lines are kept stripped. */
  datatype Change = Change(name: string, oldLine: string, newLine: string)

  /** `Change(name, old, new)`: the constructor strips both lines. */
  function NewChange(name: string, oldLine: string, newLine: string): Change {
    Change(name, Strip(oldLine), Strip(newLine))
  }

  function Spaces(n: nat): (s: string)
    ensures |s| == n && forall k :: 0 <= k < n ==> s[k] == ' '
  {
    seq(n, _ => ' ')
  }

  /** `%-30.30s`: at most 30 characters of `s`, padded with spaces to 30. */
  function Column30(s: string): string {
    var cut := if |s| > 30 then s[..30] else s;
    cut + Spaces(30 - |cut|)
  }

  /** `repr(change)`: the old line in a 30-wide column, an arrow, the new line. */
  function ChangeRepr(c: Change): (r: string)
    ensures |r| == 36 + |c.newLine|
    ensures forall k :: 0 <= k < 30 ==> r[k] == (if k < |c.oldLine| then c.oldLine[k] else ' ')
    ensures r[30..36] == " ->   " && r[36..] == c.newLine
  {
    Column30(c.oldLine) + " ->   " + c.newLine
  }

  /** What a project holds of the files `_check_setup_py` looks at. */
  datatype Proj = Proj(setupPy: Option<string>, setupCfg: Option<string>)

  /** The `setup.py` written into projects that use pbr. */
  const SetupPyText: string :=
    "# Copyright (c) 2013 Hewlett-Packard Development Company, L.P.\n"
    + "#\n"
    + "# Licensed under the Apache License, Version 2.0 (the \"License\");\n"
    + "# you may not use this file except in compliance with the License.\n"
    + "# You may obtain a copy of the License at\n"
    + "#\n"
    + "#    http://www.apache.org/licenses/LICENSE-2.0\n"
    + "#\n"
    + "# Unless required by applicable law or agreed to in writing, software\n"
    + "# distributed under the License is distributed on an \"AS IS\" BASIS,\n"
    + "# WITHOUT WARRANTIES OR CONDITIONS OF ANY KIND, either express or\n"
    + "# implied.\n"
    + "# See the License for the specific language governing permissions and\n"
    + "# limitations under the License.\n"
    + "\n"
    + "# THIS FILE IS MANAGED BY THE GLOBAL REQUIREMENTS REPO - DO NOT EDIT\n"
    + "import setuptools\n"
    + "\n"
    + "setuptools.setup(\n"
    + "    setup_requires=['pbr>=2.0.0'],\n"
    + "    pbr=True)\n"

  /** `_check_setup_py`, writing `text` into `setup.py`. */
  function SetupPyActions(proj: Proj, text: string): seq<Action> {
    if proj.setupPy.None? then []
    else if !Contains(proj.setupPy.value, "pbr") then []
    else if proj.setupCfg.Some? && Contains(proj.setupCfg.value, "name = pbr") then []
    else [Verbose("Syncing setup.py"), File("setup.py", text)]
  }

  /**
   * `_check_setup_py`: nothing to do without a `setup.py`, for one that
   * does not mention pbr, or for pbr itself; otherwise `setup.py` is
   * rewritten with the managed text.
   */
  function CheckSetupPy(proj: Proj): (actions: seq<Action>)
    ensures actions == [] <==>
      (proj.setupPy.None? || !Contains(proj.setupPy.value, "pbr")
       || (proj.setupCfg.Some? && Contains(proj.setupCfg.value, "name = pbr")))
    ensures actions != [] ==> actions == [Verbose("Syncing setup.py"), File("setup.py", SetupPyText)]
  {
    SetupPyActions(proj, SetupPyText)
  }

  /** The switches of a synchronisation run; `blacklist` holds the names of the blacklist file. */
  datatype Options = Options(softupdate: bool, hacking: bool, blacklist: set<string>)

  /** What a walk produces: actions, recorded changes and the output records. */
  datatype Out = Out(actions: seq<Action>, changes: seq<Change>, reqs: seq<Requirement>)

  /** A line the walk looks up: not a header line, parsed, with a package name. */
  predicate Counted(line: Line) {
    line.text !in ReqsHeader && line.req.Some? && line.req.value.package != ""
  }

  /** The keys of the counted lines of `lines`: the processed set once they are walked. */
  function Keys(lines: seq<Line>): set<string> {
    if lines == [] then {}
    else
      var last := lines[|lines| - 1];
      Keys(lines[..|lines| - 1]) + (if Counted(last) then {Key(last.req.value)} else {})
  }

  /** Line `i` is the first counted line with its key. */
  predicate FirstOf(dest: seq<Line>, i: nat)
    requires i < |dest|
  {
    Counted(dest[i]) && Key(dest[i].req.value) !in Keys(dest[..i])
  }

  /** Packages the projects align on their own: `hacking` unless asked for, and the blacklist. */
  predicate Exempt(opts: Options, q: Requirement) {
    (q.package == "hacking" && !opts.hacking) || q.package in opts.blacklist
  }

  /** `source_reqs.get(k)` is a non-empty list. */
  predicate Known(source: map<string, seq<Entry>>, k: string) {
    k in source && source[k] != []
  }

  /** The record an unparsable line becomes: no package, the line as comment. */
  function Unparsable(text: string): Requirement {
    Requirement("", "", "", "", RStrip(text), {})
  }

  function UnknownError(package: string): Action {
    Error("'" + package + "' is not in global-requirements.txt or blacklist.txt")
  }

  /** The number of pairs `zip_longest` yields. */
  function Longest(a: seq<Entry>, r: seq<Entry>): nat {
    if |a| < |r| then |r| else |a|
  }

  /** The global entry `j`, carrying the extras of the project entry paired with it. */
  function Paired(a: seq<Entry>, r: seq<Entry>, j: nat): Requirement
    requires j < |r|
  {
    if j < |a| then r[j].req.(extras := a[j].req.extras) else r[j].req
  }

  /** `pair(0) + ... + pair(n - 1)`: what the first `n` rounds of a loop append. */
  function Collect<T>(pair: nat -> seq<T>, n: nat): seq<T> {
    if n == 0 then [] else Collect(pair, n - 1) + pair(n - 1)
  }

  /** A global entry the project lacks, recorded as added. */
  function Added(e: Entry): Change {
    NewChange(e.req.package, "", e.text)
  }

  /** A project entry the global list lacks, recorded as removed. */
  function Removed(e: Entry): Change {
    NewChange(e.req.package, e.text, "")
  }

  /** The change pair `j` of `zip_longest(actual, reference)` records, if any. */
  function PairChanges(a: seq<Entry>, r: seq<Entry>, j: nat): seq<Change> {
    if j >= Longest(a, r) then []
    else if j >= |a| then [Added(r[j])]
    else if j >= |r| then [Removed(a[j])]
    else if a[j].req != r[j].req && a[j].req != Paired(a, r, j) then
      [NewChange(a[j].req.package, a[j].text, ToLine(Paired(a, r, j)))]
    else []
  }

  /** The record pair `j` outputs: the global entry, if there is one. */
  function PairReqs(a: seq<Entry>, r: seq<Entry>, j: nat): seq<Requirement> {
    if j < |r| then [Paired(a, r, j)] else []
  }

  /** The changes of the first `n` pairs. */
  function ZipChanges(a: seq<Entry>, r: seq<Entry>, n: nat): seq<Change> {
    Collect(j => PairChanges(a, r, j), n)
  }

  /** The records the first `n` pairs output. */
  function ZipReqs(a: seq<Entry>, r: seq<Entry>, n: nat): seq<Requirement> {
    Collect(j => PairReqs(a, r, j), n)
  }

  /** What line `i` of `dest` contributes to the walk. */
  function LineOut(source: map<string, seq<Entry>>, dest: seq<Line>, opts: Options, i: nat): Out
    requires i < |dest|
  {
    var line := dest[i];
    if line.text in ReqsHeader then Out([], [], [])
    else if line.req.None? then Out([], [], [Unparsable(line.text)])
    else
      var q := line.req.value;
      if q.package == "" then Out([], [], [q])
      else if Key(q) in Keys(dest[..i]) then Out([], [], [])
      else if Exempt(opts, q) then Out([], [], [q])
      else if Known(source, Key(q)) then
        var a, r := Group(dest, Key(q)), source[Key(q)];
        Out([], ZipChanges(a, r, Longest(a, r)), ZipReqs(a, r, Longest(a, r)))
      else if opts.softupdate then Out([], [], [q])
      else Out([UnknownError(q.package)], [], [])
  }

  /** What each line of `dest` contributes. */
  function Outs(source: map<string, seq<Entry>>, dest: seq<Line>, opts: Options): (os: seq<Out>)
    ensures |os| == |dest|
  {
    seq(|dest|, i requires 0 <= i < |dest| => LineOut(source, dest, opts, i))
  }

  /** The first `n` contributions, joined in order. */
  function Gather(os: seq<Out>, n: nat): Out
    requires n <= |os|
  {
    if n == 0 then Out([], [], [])
    else
      var w := Gather(os, n - 1);
      Out(w.actions + os[n - 1].actions, w.changes + os[n - 1].changes, w.reqs + os[n - 1].reqs)
  }

  /** The contributions of the first `n` lines, in order. */
  function Walk(source: map<string, seq<Entry>>, dest: seq<Line>, opts: Options, n: nat): Out
    requires n <= |dest|
  {
    Gather(Outs(source, dest, opts), n)
  }

  /** The report printed when something changed: the names, the file, one line per change. */
  function Summary(changes: seq<Change>, destLabel: string): (r: seq<Action>)
    ensures r == [] <==> changes == []
    ensures changes != [] ==> |r| == 2 + |changes|
    ensures forall k :: 0 <= k < |r| ==> r[k].StdOut?
  {
    if changes == [] then []
    else
      [StdOut("Version change for: " + Join(seq(|changes|, k requires 0 <= k < |changes| => changes[k].name), ", ") + "\n"),
       StdOut("Updated " + destLabel + ":\n")]
      + seq(|changes|, k requires 0 <= k < |changes| => ReportLine(changes[k]))
  }

  /** The report line of one change. */
  function ReportLine(c: Change): Action {
    StdOut("    " + ChangeRepr(c) + "\n")
  }

  /** The actions `_sync_requirements_file` returns. */
  function SyncActions(source: map<string, seq<Entry>>, dest: seq<Line>, destLabel: string, opts: Options): seq<Action> {
    var w := Walk(source, dest, opts, |dest|);
    w.actions + Summary(w.changes, destLabel)
  }

  lemma KeysStep(dest: seq<Line>, i: nat)
    requires i < |dest|
    ensures Keys(dest[..i + 1]) == Keys(dest[..i]) + (if Counted(dest[i]) then {Key(dest[i].req.value)} else {})
  {
    assert dest[..i + 1][..i] == dest[..i];
  }

  /** A parsed line's key has a non-empty group. */
  lemma GroupOfLine(dest: seq<Line>, i: nat)
    requires i < |dest| && dest[i].req.Some?
    ensures Group(dest, Key(dest[i].req.value)) != []
  {
    var e := Entry(dest[i].req.value, dest[i].text);
    GroupMembers(dest, Key(e.req), e);
  }

  lemma WalkStep(source: map<string, seq<Entry>>, dest: seq<Line>, opts: Options, i: nat)
    requires i < |dest|
    ensures Walk(source, dest, opts, i + 1).actions == Walk(source, dest, opts, i).actions + LineOut(source, dest, opts, i).actions
    ensures Walk(source, dest, opts, i + 1).changes == Walk(source, dest, opts, i).changes + LineOut(source, dest, opts, i).changes
    ensures Walk(source, dest, opts, i + 1).reqs == Walk(source, dest, opts, i).reqs + LineOut(source, dest, opts, i).reqs
  {
    assert Outs(source, dest, opts)[i] == LineOut(source, dest, opts, i);
  }

  lemma ZipStep(a: seq<Entry>, r: seq<Entry>, j: nat)
    ensures ZipChanges(a, r, j + 1) == ZipChanges(a, r, j) + PairChanges(a, r, j)
    ensures ZipReqs(a, r, j + 1) == ZipReqs(a, r, j) + PairReqs(a, r, j)
  {
  }

  /**
   * The `zip_longest` loop of `_sync_requirements_file` for one package:
   * `actual` are the project's entries for it, `reference` the global ones.
   */
  method ZipWithGlobal(actual: seq<Entry>, reference: seq<Entry>) returns (changes: seq<Change>, output: seq<Requirement>)
    ensures changes == ZipChanges(actual, reference, Longest(actual, reference))
    ensures output == ZipReqs(actual, reference, Longest(actual, reference))
  {
    changes, output := [], [];
    var j := 0;
    while j < Longest(actual, reference)
      invariant 0 <= j <= Longest(actual, reference)
      invariant changes == ZipChanges(actual, reference, j)
      invariant output == ZipReqs(actual, reference, j)
    {
      ZipStep(actual, reference, j);
      var req := if j < |actual| then Some(actual[j]) else None;
      var ref := if j < |reference| then Some(reference[j]) else None;
      if req.None? {
        changes := changes + [NewChange(ref.value.req.package, "", ref.value.text)];
      } else if ref.None? {
        changes := changes + [NewChange(req.value.req.package, req.value.text, "")];
      } else if req.value.req != ref.value.req {
        var r := ref.value.req;
        var merged := Requirement(r.package, r.location, r.specifiers, r.markers, r.comment, req.value.req.extras);
        assert merged == Paired(actual, reference, j);
        ref := Some(Entry(merged, ToLine(merged)));
        if req.value.req != merged {
          changes := changes + [NewChange(req.value.req.package, req.value.text, ToLine(merged))];
        }
      } else {
        assert req.value.req == Paired(actual, reference, j);
      }
      if ref.Some? {
        output := output + [ref.value.req];
      }
      j := j + 1;
    }
  }

  /** The closing report of `_sync_requirements_file`, printed only when something changed. */
  method Report(changes: seq<Change>, destLabel: string) returns (actions: seq<Action>)
    ensures actions == Summary(changes, destLabel)
  {
    actions := [];
    if changes != [] {
      var names := seq(|changes|, k requires 0 <= k < |changes| => changes[k].name);
      var head := [StdOut("Version change for: " + Join(names, ", ") + "\n"), StdOut("Updated " + destLabel + ":\n")];
      actions := head;
      var c := 0;
      while c < |changes|
        invariant 0 <= c <= |changes|
        invariant |actions| == 2 + c && actions[..2] == head
        invariant forall k :: 0 <= k < c ==> actions[2 + k] == ReportLine(changes[k])
      {
        actions := actions + [ReportLine(changes[c])];
        c := c + 1;
      }
      assert actions == head + seq(|changes|, k requires 0 <= k < |changes| => ReportLine(changes[k]));
    }
  }

  /**
   * `_sync_requirements_file`: the actions to take and the records of the
   * rewritten file.  `source` is the global store's grouping; `dest` the
   * project file's parsed lines.
   */
  method SyncRequirementsFile(source: map<string, seq<Entry>>, dest: seq<Line>, destLabel: string, opts: Options)
    returns (actions: seq<Action>, output: seq<Requirement>)
    ensures actions == SyncActions(source, dest, destLabel, opts)
    ensures output == Walk(source, dest, opts, |dest|).reqs
  {
    actions := [];
    var destReqs := ToDict(dest);
    var changes: seq<Change> := [];
    output := [];
    var processed: set<string> := {};
    var i := 0;
    while i < |dest|
      invariant 0 <= i <= |dest|
      invariant processed == Keys(dest[..i])
      invariant actions == Walk(source, dest, opts, i).actions
      invariant changes == Walk(source, dest, opts, i).changes
      invariant output == Walk(source, dest, opts, i).reqs
    {
      KeysStep(dest, i);
      WalkStep(source, dest, opts, i);
      var line := dest[i];
      if line.text in ReqsHeader {
        // the header is written afresh
      } else if line.req.None? {
        output := output + [Unparsable(line.text)];
      } else if line.req.value.package == "" {
        output := output + [line.req.value];
      } else if Key(line.req.value) in processed {
        // a later entry of a package already handled
      } else {
        var q := line.req.value;
        var k := Key(q);
        processed := processed + {k};
        if q.package == "hacking" && !opts.hacking {
          output := output + [q];
        } else if q.package in opts.blacklist {
          output := output + [q];
        } else if k in source && source[k] != [] {
          GroupOfLine(dest, i);
          var zipChanges, zipOutput := ZipWithGlobal(destReqs.groups[k], source[k]);
          changes := changes + zipChanges;
          output := output + zipOutput;
        } else if opts.softupdate {
          output := output + [q];
        } else {
          actions := actions + [UnknownError(q.package)];
        }
      }
      i := i + 1;
    }
    assert dest[..i] == dest;
    var report := Report(changes, destLabel);
    actions := actions + report;
  }

  /** The project entries of a package already equal the global ones, extras aside. */
  predicate InSync(a: seq<Entry>, r: seq<Entry>) {
    |a| == |r| && forall j :: 0 <= j < |a| ==> a[j].req == r[j].req.(extras := a[j].req.extras)
  }

  lemma {:induction false} CollectEmpty<T>(pair: nat -> seq<T>, n: nat)
    ensures Collect(pair, n) == [] <==> forall j :: 0 <= j < n ==> pair(j) == []
  {
    if n > 0 {
      CollectEmpty(pair, n - 1);
    }
  }

  /** Rounds that append one element each append those elements, in order. */
  lemma {:induction false} CollectSingles<T>(pair: nat -> seq<T>, m: nat, xs: seq<T>, n: nat)
    requires m <= n <= m + |xs|
    requires forall j :: m <= j < m + |xs| ==> pair(j) == [xs[j - m]]
    ensures Collect(pair, n) == Collect(pair, m) + xs[..n - m]
  {
    if n > m {
      CollectSingles(pair, m, xs, n - 1);
      assert xs[..n - m] == xs[..n - 1 - m] + [xs[n - 1 - m]];
    }
  }

  /** Rounds that append nothing leave the result as it was. */
  lemma {:induction false} CollectNothing<T>(pair: nat -> seq<T>, m: nat, n: nat)
    requires m <= n
    requires forall j :: m <= j < n ==> pair(j) == []
    ensures Collect(pair, n) == Collect(pair, m)
  {
    if n > m {
      CollectNothing(pair, m, n - 1);
    }
  }

  lemma ZipReqsPaired(a: seq<Entry>, r: seq<Entry>)
    ensures ZipReqs(a, r, Longest(a, r)) == seq(|r|, j requires 0 <= j < |r| => Paired(a, r, j))
  {
    var pair := (j: nat) => PairReqs(a, r, j);
    var xs := seq(|r|, j requires 0 <= j < |r| => Paired(a, r, j));
    assert forall j :: 0 <= j < |r| ==> pair(j) == [xs[j]];
    CollectSingles(pair, 0, xs, |r|);
    assert forall j :: |r| <= j < Longest(a, r) ==> pair(j) == [];
    CollectNothing(pair, |r|, Longest(a, r));
    assert xs[..|r|] == xs;
  }

  /**
   * The output for a package is exactly its global entries, in global
   * order, each with the extras of the project entry in the same position.
   */
  lemma ZipReqsGlobal(a: seq<Entry>, r: seq<Entry>)
    ensures |ZipReqs(a, r, Longest(a, r))| == |r|
    ensures forall j :: 0 <= j < |r| ==>
      var q := ZipReqs(a, r, Longest(a, r))[j];
      q.package == r[j].req.package && q.location == r[j].req.location
      && q.specifiers == r[j].req.specifiers && q.markers == r[j].req.markers
      && q.comment == r[j].req.comment
      && q.extras == (if j < |a| then a[j].req.extras else r[j].req.extras)
  {
    ZipReqsPaired(a, r);
  }

  /** No change is recorded for a package exactly when it is already in sync. */
  lemma ZipInSync(a: seq<Entry>, r: seq<Entry>)
    ensures ZipChanges(a, r, Longest(a, r)) == [] <==> InSync(a, r)
  {
    var pair := (j: nat) => PairChanges(a, r, j);
    CollectEmpty(pair, Longest(a, r));
    forall j | 0 <= j < Longest(a, r)
      ensures pair(j) == [] <==> j < |a| && j < |r| && a[j].req == r[j].req.(extras := a[j].req.extras)
    {
      if j < |a| && j < |r| && a[j].req == r[j].req {
        assert Paired(a, r, j) == a[j].req;
      }
    }
  }

  /**
   * Past the shorter list, each surplus global entry is recorded as added
   * and each surplus project entry as removed, in order.
   */
  lemma ZipSurplus(a: seq<Entry>, r: seq<Entry>)
    ensures ZipChanges(a, r, Longest(a, r)) == ZipChanges(a, r, Shortest(a, r))
      + (if |a| < |r| then seq(|r| - |a|, k requires 0 <= k < |r| - |a| => Added(r[|a| + k]))
         else seq(|a| - |r|, k requires 0 <= k < |a| - |r| => Removed(a[|r| + k])))
  {
    var pair := (j: nat) => PairChanges(a, r, j);
    var xs := if |a| < |r| then seq(|r| - |a|, k requires 0 <= k < |r| - |a| => Added(r[|a| + k]))
      else seq(|a| - |r|, k requires 0 <= k < |a| - |r| => Removed(a[|r| + k]));
    CollectSingles(pair, Shortest(a, r), xs, Longest(a, r));
    assert xs[..Longest(a, r) - Shortest(a, r)] == xs;
  }

  /** The number of pairs in which both lists have an entry. */
  function Shortest(a: seq<Entry>, r: seq<Entry>): nat {
    if |a| < |r| then |a| else |r|
  }

  /** A key has been processed exactly when some earlier counted line has it. */
  lemma {:induction false} KeysMember(lines: seq<Line>, k: string)
    ensures k in Keys(lines) <==> exists i :: 0 <= i < |lines| && Counted(lines[i]) && Key(lines[i].req.value) == k
  {
    if lines != [] {
      var init := lines[..|lines| - 1];
      KeysMember(init, k);
      if exists i :: 0 <= i < |init| && Counted(init[i]) && Key(init[i].req.value) == k {
        var i :| 0 <= i < |init| && Counted(init[i]) && Key(init[i].req.value) == k;
        assert lines[i] == init[i];
      }
      if exists i :: 0 <= i < |lines| && Counted(lines[i]) && Key(lines[i].req.value) == k {
        var i :| 0 <= i < |lines| && Counted(lines[i]) && Key(lines[i].req.value) == k;
        if i < |init| {
          assert init[i] == lines[i];
        }
      }
    }
  }

  /** A package is handled at its first line only: a later line with the same key adds nothing. */
  lemma LaterOccurrence(source: map<string, seq<Entry>>, dest: seq<Line>, opts: Options, i: nat, j: nat)
    requires i < j < |dest| && Counted(dest[i]) && Counted(dest[j])
    requires Key(dest[i].req.value) == Key(dest[j].req.value)
    ensures !FirstOf(dest, j)
    ensures LineOut(source, dest, opts, j) == Out([], [], [])
  {
    KeysMember(dest[..j], Key(dest[j].req.value));
    assert dest[..j][i] == dest[i];
  }

  /**
   * Header lines give nothing; an unparsable line gives a record with no
   * package and the right-stripped line as comment; comment-only records,
   * hacking, blacklisted packages and, under soft-update, unknown packages
   * are kept as they are, with no change and no action.
   */
  lemma LineOutKept(source: map<string, seq<Entry>>, dest: seq<Line>, opts: Options, i: nat)
    requires i < |dest|
    ensures dest[i].text in ReqsHeader ==> LineOut(source, dest, opts, i) == Out([], [], [])
    ensures dest[i].text !in ReqsHeader && dest[i].req.None? ==>
      var o := LineOut(source, dest, opts, i);
      o.actions == [] && o.changes == [] && |o.reqs| == 1
      && o.reqs[0].package == "" && o.reqs[0].specifiers == "" && o.reqs[0].markers == ""
      && o.reqs[0].comment == RStrip(dest[i].text)
    ensures dest[i].text !in ReqsHeader && dest[i].req.Some? && dest[i].req.value.package == "" ==>
      LineOut(source, dest, opts, i) == Out([], [], [dest[i].req.value])
    ensures FirstOf(dest, i) && Exempt(opts, dest[i].req.value) ==>
      LineOut(source, dest, opts, i) == Out([], [], [dest[i].req.value])
    ensures FirstOf(dest, i) && !Known(source, Key(dest[i].req.value)) && opts.softupdate ==>
      LineOut(source, dest, opts, i) == Out([], [], [dest[i].req.value])
  {
  }

  /**
   * A package in the global store is replaced by its global entries, in
   * global order, each with the extras of the project entry in its place.
   */
  lemma KnownPackageOutput(source: map<string, seq<Entry>>, dest: seq<Line>, opts: Options, i: nat)
    requires i < |dest| && FirstOf(dest, i)
    requires !Exempt(opts, dest[i].req.value) && Known(source, Key(dest[i].req.value))
    ensures var k := Key(dest[i].req.value);
      var o, a, r := LineOut(source, dest, opts, i), Group(dest, k), source[k];
      o.actions == [] && |o.reqs| == |r|
      && forall j :: 0 <= j < |r| ==>
        o.reqs[j].package == r[j].req.package && o.reqs[j].location == r[j].req.location
        && o.reqs[j].specifiers == r[j].req.specifiers && o.reqs[j].markers == r[j].req.markers
        && o.reqs[j].comment == r[j].req.comment
        && o.reqs[j].extras == (if j < |a| then a[j].req.extras else r[j].req.extras)
  {
    var k := Key(dest[i].req.value);
    ZipReqsGlobal(Group(dest, k), source[k]);
  }

  /** Line `i` is the first line of a package that is neither exempt nor in the global store. */
  predicate Unknown(source: map<string, seq<Entry>>, dest: seq<Line>, opts: Options, i: nat)
    requires i < |dest|
  {
    FirstOf(dest, i) && !Exempt(opts, dest[i].req.value) && !Known(source, Key(dest[i].req.value))
  }

  lemma {:induction false} GatherActions(os: seq<Out>, n: nat, x: Action)
    requires n <= |os|
    ensures x in Gather(os, n).actions <==> exists i :: 0 <= i < n && x in os[i].actions
  {
    if n > 0 {
      GatherActions(os, n - 1, x);
    }
  }

  lemma {:induction false} GatherNoChanges(os: seq<Out>, n: nat)
    requires n <= |os|
    ensures Gather(os, n).changes == [] <==> forall i :: 0 <= i < n ==> os[i].changes == []
  {
    if n > 0 {
      GatherNoChanges(os, n - 1);
    }
  }

  lemma LineActions(source: map<string, seq<Entry>>, dest: seq<Line>, opts: Options, i: nat, x: Action)
    requires i < |dest|
    ensures x in Outs(source, dest, opts)[i].actions <==>
      !opts.softupdate && Unknown(source, dest, opts, i) && x == UnknownError(dest[i].req.value.package)
  {
    assert Outs(source, dest, opts)[i] == LineOut(source, dest, opts, i);
  }

  /**
   * The actions of the walk are one `Error` per unknown package, naming
   * it, unless soft-update is on; then there are none.
   */
  lemma WalkErrors(source: map<string, seq<Entry>>, dest: seq<Line>, opts: Options, x: Action)
    ensures x in Walk(source, dest, opts, |dest|).actions <==>
      !opts.softupdate && exists i :: 0 <= i < |dest| && Unknown(source, dest, opts, i) && x == UnknownError(dest[i].req.value.package)
  {
    var os := Outs(source, dest, opts);
    GatherActions(os, |dest|, x);
    forall i | 0 <= i < |dest|
      ensures x in os[i].actions <==> !opts.softupdate && Unknown(source, dest, opts, i) && x == UnknownError(dest[i].req.value.package)
    {
      LineActions(source, dest, opts, i, x);
    }
  }

  /** An unknown package outside soft-update is dropped from the output. */
  lemma UnknownDropped(source: map<string, seq<Entry>>, dest: seq<Line>, opts: Options, i: nat)
    requires i < |dest| && Unknown(source, dest, opts, i) && !opts.softupdate
    ensures LineOut(source, dest, opts, i).reqs == []
    ensures LineOut(source, dest, opts, i).actions == [UnknownError(dest[i].req.value.package)]
  {
  }

  /** Line `i` leaves its package as it is: the project entries already match the global ones. */
  predicate LineInSync(source: map<string, seq<Entry>>, dest: seq<Line>, opts: Options, i: nat)
    requires i < |dest|
  {
    FirstOf(dest, i) && !Exempt(opts, dest[i].req.value) && Known(source, Key(dest[i].req.value))
    ==> InSync(Group(dest, Key(dest[i].req.value)), source[Key(dest[i].req.value)])
  }

  lemma LineChanges(source: map<string, seq<Entry>>, dest: seq<Line>, opts: Options, i: nat)
    requires i < |dest|
    ensures LineOut(source, dest, opts, i).changes == [] <==> LineInSync(source, dest, opts, i)
  {
    var line := dest[i];
    if FirstOf(dest, i) && !Exempt(opts, line.req.value) && Known(source, Key(line.req.value)) {
      ZipInSync(Group(dest, Key(line.req.value)), source[Key(line.req.value)]);
    }
  }

  /**
   * No change is recorded, and so nothing is reported, exactly when every
   * package looked up in the global store is already in sync with it.
   */
  lemma WalkNoChanges(source: map<string, seq<Entry>>, dest: seq<Line>, opts: Options)
    ensures Walk(source, dest, opts, |dest|).changes == [] <==> forall i :: 0 <= i < |dest| ==> LineInSync(source, dest, opts, i)
  {
    var os := Outs(source, dest, opts);
    GatherNoChanges(os, |dest|);
    forall i | 0 <= i < |dest|
      ensures os[i].changes == [] <==> LineInSync(source, dest, opts, i)
    {
      assert os[i] == LineOut(source, dest, opts, i);
      LineChanges(source, dest, opts, i);
    }
  }

  /** Re-running on files already in sync reports nothing. */
  lemma SyncedReportsNothing(source: map<string, seq<Entry>>, dest: seq<Line>, destLabel: string, opts: Options)
    requires forall i :: 0 <= i < |dest| ==> LineInSync(source, dest, opts, i)
    ensures forall x :: x in SyncActions(source, dest, destLabel, opts) ==> x.Error?
  {
    WalkNoChanges(source, dest, opts);
    forall x | x in SyncActions(source, dest, destLabel, opts)
      ensures x.Error?
    {
      WalkErrors(source, dest, opts, x);
    }
  }
}
