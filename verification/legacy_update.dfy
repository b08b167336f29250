/**
 * The older synchroniser, openstack_requirements/update.py.  Its parser,
 * renderer, grouping and `setup.cfg` merge are those of `Requirement` and
 * `Project` (the same code under older names); what differs is modelled
 * here: the `setup.py` it writes, and a synchronisation with no blacklist,
 * no carrying over of extras, unparsable lines kept verbatim and a shorter
 * error message.
 */
module LegacyUpdate {
  import opened Wrappers
  import opened Text
  import opened Requirement
  import opened Project
  import UpdateCmd

  /** The `setup.py` the older tool writes into projects that use pbr. */
  const LegacySetupPyText: string :=
    "# Copyright (c) 2013 Hewlett-Packard Development Company, L.P.\n"
    + "#\n"
    + "# Licensed under the Apache License, Version 2.0 (the \"License\");\n"
    + "# you may not use this file except in compliance with the License.\n"
    + "# You may obtain a copy of the License at\n"
    + "#\n"
    + "#    http://www.apache.org/licenses/LICENSE-2.0\n"
    + "#\n"
    + "# Unless required by applicable law or agreed to in writing, software\n"
    + "# distributed under the License is distributed on an \"AS IS\" BASIS,\n"
    + "# WITHOUT WARRANTIES OR CONDITIONS OF ANY KIND, either express or\n"
    + "# implied.\n"
    + "# See the License for the specific language governing permissions and\n"
    + "# limitations under the License.\n"
    + "\n"
    + "# THIS FILE IS MANAGED BY THE GLOBAL REQUIREMENTS REPO - DO NOT EDIT\n"
    + "import setuptools\n"
    + "\n"
    + "# In python < 2.7.4, a lazy loading of package `pbr` will break\n"
    + "# setuptools if some other modules registered functions in `atexit`.\n"
    + "# solution from: http://bugs.python.org/issue15881#msg170215\n"
    + "try:\n"
    + "    import multiprocessing  # noqa\n"
    + "except ImportError:\n"
    + "    pass\n"
    + "\n"
    + "setuptools.setup(\n"
    + "    setup_requires=['pbr'],\n"
    + "    pbr=True)\n"

  /** `_check_setup_py` of the older tool: the same test, its own `setup.py`. */
  function CheckSetupPy(proj: UpdateCmd.Proj): (actions: seq<Action>)
    ensures actions == [] <==>
      (proj.setupPy.None? || !Contains(proj.setupPy.value, "pbr")
       || (proj.setupCfg.Some? && Contains(proj.setupCfg.value, "name = pbr")))
    ensures actions != [] ==> actions == [Verbose("Syncing setup.py"), File("setup.py", LegacySetupPyText)]
  {
    UpdateCmd.SetupPyActions(proj, LegacySetupPyText)
  }

  /** The record an unparsable line becomes: no package, the whole line as comment. */
  function Unparsable(text: string): Requirement {
    Requirement("", "", "", "", text, {})
  }

  function UnknownError(package: string): Action {
    Error("'" + package + "' is not in global-requirements.txt")
  }

  /** `hacking` is left to the projects unless asked for. */
  predicate Exempt(hacking: bool, q: Requirement) {
    q.package == "hacking" && !hacking
  }

  /** The change pair `j` of `izip_longest(actual, reference)` records, if any. */
  function PairChanges(a: seq<Entry>, r: seq<Entry>, j: nat): seq<UpdateCmd.Change> {
    if j >= UpdateCmd.Longest(a, r) then []
    else if j >= |a| then [UpdateCmd.Added(r[j])]
    else if j >= |r| then [UpdateCmd.Removed(a[j])]
    else if a[j].req != r[j].req then [UpdateCmd.NewChange(a[j].req.package, a[j].text, r[j].text)]
    else []
  }

  /** The record pair `j` outputs: the global record, if there is one. */
  function PairReqs(r: seq<Entry>, j: nat): seq<Requirement> {
    if j < |r| then [r[j].req] else []
  }

  /** The changes of the first `n` pairs. */
  function ZipChanges(a: seq<Entry>, r: seq<Entry>, n: nat): seq<UpdateCmd.Change> {
    UpdateCmd.Collect(j => PairChanges(a, r, j), n)
  }

  /** The records the first `n` pairs output. */
  function ZipReqs(r: seq<Entry>, n: nat): seq<Requirement> {
    UpdateCmd.Collect(j => PairReqs(r, j), n)
  }

  /** What line `i` of `dest` contributes to the walk. */
  function LineOut(source: map<string, seq<Entry>>, dest: seq<Line>, softupdate: bool, hacking: bool, i: nat): UpdateCmd.Out
    requires i < |dest|
  {
    var line := dest[i];
    if line.text in ReqsHeader then UpdateCmd.Out([], [], [])
    else if line.req.None? then UpdateCmd.Out([], [], [Unparsable(line.text)])
    else
      var q := line.req.value;
      if q.package == "" then UpdateCmd.Out([], [], [q])
      else if Key(q) in UpdateCmd.Keys(dest[..i]) then UpdateCmd.Out([], [], [])
      else if Exempt(hacking, q) then UpdateCmd.Out([], [], [q])
      else if UpdateCmd.Known(source, Key(q)) then
        var a, r := Group(dest, Key(q)), source[Key(q)];
        UpdateCmd.Out([], ZipChanges(a, r, UpdateCmd.Longest(a, r)), ZipReqs(r, UpdateCmd.Longest(a, r)))
      else if softupdate then UpdateCmd.Out([], [], [q])
      else UpdateCmd.Out([UnknownError(q.package)], [], [])
  }

  /** What each line of `dest` contributes. */
  function Outs(source: map<string, seq<Entry>>, dest: seq<Line>, softupdate: bool, hacking: bool): (os: seq<UpdateCmd.Out>)
    ensures |os| == |dest|
  {
    seq(|dest|, i requires 0 <= i < |dest| => LineOut(source, dest, softupdate, hacking, i))
  }

  /** The contributions of the first `n` lines, in order. */
  function Walk(source: map<string, seq<Entry>>, dest: seq<Line>, softupdate: bool, hacking: bool, n: nat): UpdateCmd.Out
    requires n <= |dest|
  {
    UpdateCmd.Gather(Outs(source, dest, softupdate, hacking), n)
  }

  /** The actions `_sync_requirements_file` returns. */
  function SyncActions(source: map<string, seq<Entry>>, dest: seq<Line>, destLabel: string, softupdate: bool, hacking: bool): seq<Action> {
    var w := Walk(source, dest, softupdate, hacking, |dest|);
    w.actions + UpdateCmd.Summary(w.changes, destLabel)
  }

  lemma WalkStep(source: map<string, seq<Entry>>, dest: seq<Line>, softupdate: bool, hacking: bool, i: nat)
    requires i < |dest|
    ensures Walk(source, dest, softupdate, hacking, i + 1).actions
      == Walk(source, dest, softupdate, hacking, i).actions + LineOut(source, dest, softupdate, hacking, i).actions
    ensures Walk(source, dest, softupdate, hacking, i + 1).changes
      == Walk(source, dest, softupdate, hacking, i).changes + LineOut(source, dest, softupdate, hacking, i).changes
    ensures Walk(source, dest, softupdate, hacking, i + 1).reqs
      == Walk(source, dest, softupdate, hacking, i).reqs + LineOut(source, dest, softupdate, hacking, i).reqs
  {
    assert Outs(source, dest, softupdate, hacking)[i] == LineOut(source, dest, softupdate, hacking, i);
  }

  lemma ZipStep(a: seq<Entry>, r: seq<Entry>, j: nat)
    ensures ZipChanges(a, r, j + 1) == ZipChanges(a, r, j) + PairChanges(a, r, j)
    ensures ZipReqs(r, j + 1) == ZipReqs(r, j) + PairReqs(r, j)
  {
  }

  /** The `izip_longest` loop of the older `_sync_requirements_file` for one package. */
  method ZipWithGlobal(actual: seq<Entry>, reference: seq<Entry>) returns (changes: seq<UpdateCmd.Change>, output: seq<Requirement>)
    ensures changes == ZipChanges(actual, reference, UpdateCmd.Longest(actual, reference))
    ensures output == ZipReqs(reference, UpdateCmd.Longest(actual, reference))
  {
    changes, output := [], [];
    var j := 0;
    while j < UpdateCmd.Longest(actual, reference)
      invariant 0 <= j <= UpdateCmd.Longest(actual, reference)
      invariant changes == ZipChanges(actual, reference, j)
      invariant output == ZipReqs(reference, j)
    {
      ZipStep(actual, reference, j);
      var req := if j < |actual| then Some(actual[j]) else None;
      var ref := if j < |reference| then Some(reference[j]) else None;
      if req.None? {
        changes := changes + [UpdateCmd.NewChange(ref.value.req.package, "", ref.value.text)];
      } else if ref.None? {
        changes := changes + [UpdateCmd.NewChange(req.value.req.package, req.value.text, "")];
      } else if req.value.req != ref.value.req {
        changes := changes + [UpdateCmd.NewChange(req.value.req.package, req.value.text, ref.value.text)];
      }
      if ref.Some? {
        output := output + [ref.value.req];
      }
      j := j + 1;
    }
  }

  /**
   * The older `_sync_requirements_file`: the actions to take and the
   * records of the rewritten file.
   */
  method SyncRequirementsFile(source: map<string, seq<Entry>>, dest: seq<Line>, destLabel: string, softupdate: bool, hacking: bool)
    returns (actions: seq<Action>, output: seq<Requirement>)
    ensures actions == SyncActions(source, dest, destLabel, softupdate, hacking)
    ensures output == Walk(source, dest, softupdate, hacking, |dest|).reqs
  {
    actions := [];
    var destReqs := ToDict(dest);
    var changes: seq<UpdateCmd.Change> := [];
    output := [];
    var processed: set<string> := {};
    var i := 0;
    while i < |dest|
      invariant 0 <= i <= |dest|
      invariant processed == UpdateCmd.Keys(dest[..i])
      invariant actions == Walk(source, dest, softupdate, hacking, i).actions
      invariant changes == Walk(source, dest, softupdate, hacking, i).changes
      invariant output == Walk(source, dest, softupdate, hacking, i).reqs
    {
      UpdateCmd.KeysStep(dest, i);
      WalkStep(source, dest, softupdate, hacking, i);
      var line := dest[i];
      if line.text in ReqsHeader {
        // the header is written afresh
      } else if line.req.None? {
        output := output + [Unparsable(line.text)];
      } else if line.req.value.package == "" {
        output := output + [line.req.value];
      } else if Key(line.req.value) in processed {
        // a later entry of a package already handled
      } else {
        var q := line.req.value;
        var k := Key(q);
        processed := processed + {k};
        if q.package == "hacking" && !hacking {
          output := output + [q];
        } else if k in source && source[k] != [] {
          UpdateCmd.GroupOfLine(dest, i);
          var zipChanges, zipOutput := ZipWithGlobal(destReqs.groups[k], source[k]);
          changes := changes + zipChanges;
          output := output + zipOutput;
        } else if softupdate {
          output := output + [q];
        } else {
          actions := actions + [UnknownError(q.package)];
        }
      }
      i := i + 1;
    }
    assert dest[..i] == dest;
    var report := UpdateCmd.Report(changes, destLabel);
    actions := actions + report;
  }

  /** The records of `r`, in order. */
  function Records(r: seq<Entry>): (qs: seq<Requirement>)
    ensures |qs| == |r| && forall j :: 0 <= j < |r| ==> qs[j] == r[j].req
  {
    seq(|r|, j requires 0 <= j < |r| => r[j].req)
  }

  /** The output for a package is exactly its global records, in global order. */
  lemma ZipReqsGlobal(a: seq<Entry>, r: seq<Entry>)
    ensures ZipReqs(r, UpdateCmd.Longest(a, r)) == Records(r)
  {
    var pair := (j: nat) => PairReqs(r, j);
    var xs := Records(r);
    assert forall j :: 0 <= j < |r| ==> pair(j) == [xs[j]];
    UpdateCmd.CollectSingles(pair, 0, xs, |r|);
    assert forall j :: |r| <= j < UpdateCmd.Longest(a, r) ==> pair(j) == [];
    UpdateCmd.CollectNothing(pair, |r|, UpdateCmd.Longest(a, r));
    assert xs[..|r|] == xs;
  }

  /** The project records of a package equal the global ones, position by position. */
  predicate Same(a: seq<Entry>, r: seq<Entry>) {
    |a| == |r| && forall j :: 0 <= j < |a| ==> a[j].req == r[j].req
  }

  /** No change is recorded for a package exactly when its records equal the global ones. */
  lemma ZipSame(a: seq<Entry>, r: seq<Entry>)
    ensures ZipChanges(a, r, UpdateCmd.Longest(a, r)) == [] <==> Same(a, r)
  {
    var pair := (j: nat) => PairChanges(a, r, j);
    UpdateCmd.CollectEmpty(pair, UpdateCmd.Longest(a, r));
    assert forall j :: 0 <= j < UpdateCmd.Longest(a, r) ==>
      (pair(j) == [] <==> j < |a| && j < |r| && a[j].req == r[j].req);
  }

  /**
   * Within the shorter list a differing entry is recorded with the global
   * line; past it each surplus global entry is recorded as added and each
   * surplus project entry as removed, in order.
   */
  lemma ZipRecorded(a: seq<Entry>, r: seq<Entry>)
    ensures forall j :: 0 <= j < UpdateCmd.Shortest(a, r) && a[j].req != r[j].req ==>
      PairChanges(a, r, j) == [UpdateCmd.Change(a[j].req.package, Strip(a[j].text), Strip(r[j].text))]
    ensures ZipChanges(a, r, UpdateCmd.Longest(a, r)) == ZipChanges(a, r, UpdateCmd.Shortest(a, r))
      + (if |a| < |r| then seq(|r| - |a|, k requires 0 <= k < |r| - |a| => UpdateCmd.Added(r[|a| + k]))
         else seq(|a| - |r|, k requires 0 <= k < |a| - |r| => UpdateCmd.Removed(a[|r| + k])))
  {
    var pair := (j: nat) => PairChanges(a, r, j);
    var xs := if |a| < |r| then seq(|r| - |a|, k requires 0 <= k < |r| - |a| => UpdateCmd.Added(r[|a| + k]))
      else seq(|a| - |r|, k requires 0 <= k < |a| - |r| => UpdateCmd.Removed(a[|r| + k]));
    UpdateCmd.CollectSingles(pair, UpdateCmd.Shortest(a, r), xs, UpdateCmd.Longest(a, r));
    assert xs[..UpdateCmd.Longest(a, r) - UpdateCmd.Shortest(a, r)] == xs;
  }

  /**
   * Header lines give nothing; an unparsable line is kept verbatim as a
   * comment; comment-only records, `hacking` and, under soft-update,
   * unknown packages are kept as they are, with no change and no action.
   */
  lemma LineOutKept(source: map<string, seq<Entry>>, dest: seq<Line>, softupdate: bool, hacking: bool, i: nat)
    requires i < |dest|
    ensures dest[i].text in ReqsHeader ==> LineOut(source, dest, softupdate, hacking, i) == UpdateCmd.Out([], [], [])
    ensures dest[i].text !in ReqsHeader && dest[i].req.None? ==>
      var o := LineOut(source, dest, softupdate, hacking, i);
      o.actions == [] && o.changes == [] && |o.reqs| == 1
      && o.reqs[0].package == "" && o.reqs[0].specifiers == "" && o.reqs[0].markers == ""
      && o.reqs[0].comment == dest[i].text
    ensures dest[i].text !in ReqsHeader && dest[i].req.Some? && dest[i].req.value.package == "" ==>
      LineOut(source, dest, softupdate, hacking, i) == UpdateCmd.Out([], [], [dest[i].req.value])
    ensures UpdateCmd.FirstOf(dest, i) && Exempt(hacking, dest[i].req.value) ==>
      LineOut(source, dest, softupdate, hacking, i) == UpdateCmd.Out([], [], [dest[i].req.value])
    ensures UpdateCmd.FirstOf(dest, i) && !UpdateCmd.Known(source, Key(dest[i].req.value)) && softupdate ==>
      LineOut(source, dest, softupdate, hacking, i) == UpdateCmd.Out([], [], [dest[i].req.value])
  {
  }

  /** A package in the global store is replaced by its global records, unchanged. */
  lemma KnownPackageOutput(source: map<string, seq<Entry>>, dest: seq<Line>, softupdate: bool, hacking: bool, i: nat)
    requires i < |dest| && UpdateCmd.FirstOf(dest, i)
    requires !Exempt(hacking, dest[i].req.value) && UpdateCmd.Known(source, Key(dest[i].req.value))
    ensures var o, r := LineOut(source, dest, softupdate, hacking, i), source[Key(dest[i].req.value)];
      o.actions == [] && |o.reqs| == |r| && forall j :: 0 <= j < |r| ==> o.reqs[j] == r[j].req
  {
    var k := Key(dest[i].req.value);
    ZipReqsGlobal(Group(dest, k), source[k]);
  }

  /** Line `i` is the first line of a package that is neither exempt nor in the global store. */
  predicate Unknown(source: map<string, seq<Entry>>, dest: seq<Line>, hacking: bool, i: nat)
    requires i < |dest|
  {
    UpdateCmd.FirstOf(dest, i) && !Exempt(hacking, dest[i].req.value) && !UpdateCmd.Known(source, Key(dest[i].req.value))
  }

  lemma LineActions(source: map<string, seq<Entry>>, dest: seq<Line>, softupdate: bool, hacking: bool, i: nat, x: Action)
    requires i < |dest|
    ensures x in Outs(source, dest, softupdate, hacking)[i].actions <==>
      !softupdate && Unknown(source, dest, hacking, i) && x == UnknownError(dest[i].req.value.package)
  {
    assert Outs(source, dest, softupdate, hacking)[i] == LineOut(source, dest, softupdate, hacking, i);
  }

  /**
   * The actions of the walk are one `Error` per unknown package, naming
   * it, unless soft-update is on; then there are none.
   */
  lemma WalkErrors(source: map<string, seq<Entry>>, dest: seq<Line>, softupdate: bool, hacking: bool, x: Action)
    ensures x in Walk(source, dest, softupdate, hacking, |dest|).actions <==>
      !softupdate && exists i :: 0 <= i < |dest| && Unknown(source, dest, hacking, i) && x == UnknownError(dest[i].req.value.package)
  {
    var os := Outs(source, dest, softupdate, hacking);
    UpdateCmd.GatherActions(os, |dest|, x);
    forall i | 0 <= i < |dest|
      ensures x in os[i].actions <==> !softupdate && Unknown(source, dest, hacking, i) && x == UnknownError(dest[i].req.value.package)
    {
      LineActions(source, dest, softupdate, hacking, i, x);
    }
  }

  /** Line `i` leaves its package as it is: the project records already equal the global ones. */
  predicate LineSame(source: map<string, seq<Entry>>, dest: seq<Line>, hacking: bool, i: nat)
    requires i < |dest|
  {
    UpdateCmd.FirstOf(dest, i) && !Exempt(hacking, dest[i].req.value) && UpdateCmd.Known(source, Key(dest[i].req.value))
    ==> Same(Group(dest, Key(dest[i].req.value)), source[Key(dest[i].req.value)])
  }

  lemma LineChanges(source: map<string, seq<Entry>>, dest: seq<Line>, softupdate: bool, hacking: bool, i: nat)
    requires i < |dest|
    ensures LineOut(source, dest, softupdate, hacking, i).changes == [] <==> LineSame(source, dest, hacking, i)
  {
    var line := dest[i];
    if UpdateCmd.FirstOf(dest, i) && !Exempt(hacking, line.req.value) && UpdateCmd.Known(source, Key(line.req.value)) {
      ZipSame(Group(dest, Key(line.req.value)), source[Key(line.req.value)]);
    }
  }

  /**
   * No change is recorded, and so nothing is reported, exactly when every
   * package looked up in the global store already has the global records.
   */
  lemma WalkNoChanges(source: map<string, seq<Entry>>, dest: seq<Line>, softupdate: bool, hacking: bool)
    ensures Walk(source, dest, softupdate, hacking, |dest|).changes == [] <==>
      forall i :: 0 <= i < |dest| ==> LineSame(source, dest, hacking, i)
  {
    var os := Outs(source, dest, softupdate, hacking);
    UpdateCmd.GatherNoChanges(os, |dest|);
    forall i | 0 <= i < |dest|
      ensures os[i].changes == [] <==> LineSame(source, dest, hacking, i)
    {
      assert os[i] == LineOut(source, dest, softupdate, hacking, i);
      LineChanges(source, dest, softupdate, hacking, i);
    }
  }
}
