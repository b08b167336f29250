/**
 * The constraint-file validators of openstack_requirements/constraints.py:
 * coverage of the global list by the constraints and the denylist
 * (`blacklist.txt`), the `===` pin format, and compatibility of each pinned
 * version with the global specifiers.
 */
module Constraints {
  import opened Wrappers
  import opened Text
  import opened Foreign
  import opened Requirement
  import opened Sorting
  import opened Listing

  /** Names that need no constraint; the blank name stands for blank lines. */
  const Unconstrainable: set<string> := {"argparse", "pip", "setuptools", "wmi", "pywin32", "pymi", "wheel", ""}

  /** Python's `%r` of a name or a specifier (text without quotes or backslashes). */
  function Repr(s: string): string {
    "'" + s + "'"
  }

  /** Python's `str()` of a list of strings. */
  function ReprList(xs: seq<string>): string {
    "[" + Join(seq(|xs|, i requires 0 <= i < |xs| => Repr(xs[i])), ", ") + "]"
  }

  /** A message the validators yield, kept as its parts. */
  datatype Message =
    | Uncovered(name: string, listName: string)
    | Denylisted(name: string, listName: string)
    | Unpinned(name: string, line: string)
    | Incompatible(version: string, name: string, tested: seq<string>)
  {
    /** The message text. */
    function Render(): string {
      match this
      case Uncovered(name, listName) =>
        Repr(name) + " appears in global-requirements.txt but not " + listName + " or blacklist.txt"
      case Denylisted(name, listName) =>
        Repr(name) + " appears in both blacklist.txt and " + listName
      case Unpinned(name, line) =>
        "Invalid constraint for " + name + " does not have 3 \"=\": " + line
      case Incompatible(version, name, tested) =>
        "Constraint " + version + " for " + name + " does not match requirement " + ReprList(tested)
    }
  }

  /** The constrained names: those of the constraints, the blank one excepted. */
  function Constrained(constraints: Store): (names: set<string>)
    ensures "" !in names
    ensures forall n :: n in names <==> n != "" && n in constraints.groups
  {
    constraints.groups.Keys - {""}
  }

  /** Global names neither denylisted, exempt nor constrained. */
  function Unconstrained(global: Store, constraints: Store, blacklist: Store): (names: set<string>)
    ensures "" !in names
    ensures forall n :: n in names <==>
      n in global.groups && n !in blacklist.groups && n !in Unconstrainable && n !in constraints.groups
  {
    global.groups.Keys - blacklist.groups.Keys - Unconstrainable - Constrained(constraints)
  }

  /** Constrained names that the denylist also holds. */
  function Dupes(constraints: Store, blacklist: Store): (names: set<string>)
    ensures "" !in names
    ensures forall n :: n in names <==> n != "" && n in constraints.groups && n in blacklist.groups
  {
    Constrained(constraints) * blacklist.groups.Keys
  }

  /** One `Uncovered` message per name, in order. */
  function UncoveredAll(names: seq<string>, listName: string): (ms: seq<Message>)
    ensures |ms| == |names|
    ensures forall i :: 0 <= i < |names| ==> ms[i] == Uncovered(names[i], listName)
  {
    if names == [] then [] else UncoveredAll(names[..|names| - 1], listName) + [Uncovered(names[|names| - 1], listName)]
  }

  /** One `Denylisted` message per name, in order. */
  function DenylistedAll(names: seq<string>, listName: string): (ms: seq<Message>)
    ensures |ms| == |names|
    ensures forall i :: 0 <= i < |names| ==> ms[i] == Denylisted(names[i], listName)
  {
    if names == [] then [] else DenylistedAll(names[..|names| - 1], listName) + [Denylisted(names[|names| - 1], listName)]
  }

  /**
   * Python's iteration over a set: every element once, in an order that
   * depends on string hashing and is left open here.
   */
  method IterationOrder(s: set<string>) returns (names: seq<string>)
    ensures |names| == |s|
    ensures forall x :: x in names <==> x in s
    ensures forall i, j :: 0 <= i < j < |names| ==> names[i] != names[j]
  {
    names := [];
    var rest := s;
    while rest != {}
      invariant rest <= s
      invariant |names| + |rest| == |s|
      invariant forall x :: x in names <==> x in s - rest
      invariant forall i, j :: 0 <= i < j < |names| ==> names[i] != names[j]
      decreases rest
    {
      var x :| x in rest;
      assert s - (rest - {x}) == (s - rest) + {x};
      names := names + [x];
      rest := rest - {x};
    }
  }

  /** The `Uncovered` messages for `names`, yielded in turn. */
  method YieldUncovered(names: seq<string>, listName: string) returns (msgs: seq<Message>)
    ensures msgs == UncoveredAll(names, listName)
  {
    msgs := [];
    var i := 0;
    while i < |names|
      invariant 0 <= i <= |names|
      invariant msgs == UncoveredAll(names[..i], listName)
    {
      assert names[..i + 1][..i] == names[..i];
      msgs := msgs + [Uncovered(names[i], listName)];
      i := i + 1;
    }
    assert names[..i] == names;
  }

  /** The `Denylisted` messages for `names`, yielded in turn. */
  method YieldDenylisted(names: seq<string>, listName: string) returns (msgs: seq<Message>)
    ensures msgs == DenylistedAll(names, listName)
  {
    msgs := [];
    var i := 0;
    while i < |names|
      invariant 0 <= i <= |names|
      invariant msgs == DenylistedAll(names[..i], listName)
    {
      assert names[..i + 1][..i] == names[..i];
      msgs := msgs + [Denylisted(names[i], listName)];
      i := i + 1;
    }
    assert names[..i] == names;
  }

  /** One `Uncovered` message per name of `names`, in strictly increasing name order. */
  ghost predicate SortedReport(msgs: seq<Message>, names: set<string>, listName: string)
  {
    && |msgs| == |names|
    && (forall i :: 0 <= i < |msgs| ==> msgs[i].Uncovered? && msgs[i].listName == listName)
    && (forall x :: x in names <==> Uncovered(x, listName) in msgs)
    && (forall i, j :: 0 <= i < j < |msgs| ==> Below(msgs[i].name, msgs[j].name))
  }

  /** One `Denylisted` message per name of `names`, in some order. */
  ghost predicate DupeReport(msgs: seq<Message>, names: set<string>, listName: string)
  {
    && |msgs| == |names|
    && (forall k :: 0 <= k < |msgs| ==> msgs[k].Denylisted? && msgs[k].name in names && msgs[k].listName == listName)
    && (forall d :: d in names ==> Denylisted(d, listName) in msgs)
  }

  /**
   * The report of `check_blacklist_coverage`: the sorted report of the
   * uncovered names, then the report of the names in both lists.
   */
  ghost predicate CoverageReport(msgs: seq<Message>, uncovered: set<string>, dupes: set<string>, listName: string)
  {
    && |uncovered| <= |msgs|
    && SortedReport(msgs[..|uncovered|], uncovered, listName)
    && DupeReport(msgs[|uncovered|..], dupes, listName)
  }

  lemma SortedReportOf(u: seq<string>, names: set<string>, listName: string)
    requires |u| == |names| && (forall x :: x in u <==> x in names)
    requires forall i, j :: 0 <= i < j < |u| ==> Below(u[i], u[j])
    ensures SortedReport(UncoveredAll(u, listName), names, listName)
  {
    var msgs := UncoveredAll(u, listName);
    forall x | x in names
      ensures Uncovered(x, listName) in msgs
    {
      var k :| 0 <= k < |u| && u[k] == x;
      assert msgs[k] == Uncovered(x, listName);
    }
  }

  lemma DupeReportOf(dupes: seq<string>, names: set<string>, listName: string)
    requires |dupes| == |names| && (forall x :: x in dupes <==> x in names)
    ensures DupeReport(DenylistedAll(dupes, listName), names, listName)
  {
    var msgs := DenylistedAll(dupes, listName);
    forall d | d in names
      ensures Denylisted(d, listName) in msgs
    {
      var k :| 0 <= k < |dupes| && dupes[k] == d;
      assert msgs[k] == Denylisted(d, listName);
    }
  }

  /**
   * `check_blacklist_coverage`: one message per unconstrained global name,
   * in sorted order, then one per name both constrained and denylisted, in
   * the set's iteration order.
   */
  method CheckBlacklistCoverage(global: Store, constraints: Store, blacklist: Store, listName: string)
    returns (msgs: seq<Message>)
    ensures CoverageReport(msgs, Unconstrained(global, constraints, blacklist), Dupes(constraints, blacklist), listName)
  {
    var u := SortedNames(Unconstrained(global, constraints, blacklist));
    var uncovered := YieldUncovered(u, listName);
    var dupes := IterationOrder(Dupes(constraints, blacklist));
    var denylisted := YieldDenylisted(dupes, listName);
    SortedReportOf(u, Unconstrained(global, constraints, blacklist), listName);
    DupeReportOf(dupes, Dupes(constraints, blacklist), listName);
    msgs := uncovered + denylisted;
    assert msgs[..|u|] == uncovered && msgs[|u|..] == denylisted;
  }

  /** `check_format`'s test for one entry: a message unless its specifiers start with `===`. */
  function FormatIssue(p: (string, Entry)): Option<Message> {
    if StartsWith(p.1.req.specifiers, "===") then None
    else Some(Unpinned(p.0, p.1.text))
  }

  /** The messages `check_format` yields for the entries of one name. */
  method FormatGroup(name: string, specList: seq<Entry>) returns (msgs: seq<Message>)
    ensures msgs == Emit(Tag(name, specList), FormatIssue)
  {
    msgs := [];
    var j := 0;
    while j < |specList|
      invariant 0 <= j <= |specList|
      invariant msgs == Emit(Tag(name, specList[..j]), FormatIssue)
    {
      EmitTagStep(name, specList, j, FormatIssue);
      var e := specList[j];
      if !StartsWith(e.req.specifiers, "===") {
        msgs := msgs + [Unpinned(name, e.text)];
      }
      j := j + 1;
    }
    assert specList[..j] == specList;
  }

  /** `check_format`: one message per entry not pinned with `===`, in dictionary order. */
  method CheckFormat(constraints: Store) returns (msgs: seq<Message>)
    requires constraints.Valid()
    ensures msgs == Emit(Pairs(constraints.order, constraints.groups), FormatIssue)
  {
    var order, groups := constraints.order, constraints.groups;
    msgs := [];
    var i := 0;
    while i < |order|
      invariant 0 <= i <= |order|
      invariant msgs == Emit(Pairs(order[..i], groups), FormatIssue)
    {
      var name := order[i];
      var group := FormatGroup(name, groups[name]);
      PairsStep(order, groups, i);
      EmitAppend(Pairs(order[..i], groups), Tag(name, groups[name]), FormatIssue);
      msgs := msgs + group;
      i := i + 1;
    }
    assert order[..i] == order;
  }

  /** A message names an entry of the constraints exactly when that entry is not a `===` pin. */
  lemma FormatMessages(constraints: Store, m: Message)
    requires constraints.Valid()
    ensures m in Emit(Pairs(constraints.order, constraints.groups), FormatIssue)
        <==> exists i :: 0 <= i < |Pairs(constraints.order, constraints.groups)|
                && var p := Pairs(constraints.order, constraints.groups)[i];
                   !StartsWith(p.1.req.specifiers, "===")
                   && m == Unpinned(p.0, p.1.text)
  {
    EmitMembers(Pairs(constraints.order, constraints.groups), FormatIssue, m);
  }

  /** `constraint.specifiers[3:]`: the version of a `===` pin. */
  function PinnedVersion(specifiers: string): string {
    if |specifiers| >= 3 then specifiers[3..] else ""
  }

  /** Some entry's specifier set contains the version, pre-releases allowed. */
  predicate Admits(lib: Lib, entries: seq<Entry>, version: string) {
    exists i :: 0 <= i < |entries| && lib.containsPre(entries[i].req.specifiers, version)
  }

  /** The specifier texts of the entries, in order. */
  function Specifiers(entries: seq<Entry>): (specs: seq<string>)
    ensures |specs| == |entries|
  {
    seq(|entries|, i requires 0 <= i < |entries| => entries[i].req.specifiers)
  }

  /**
   * `check_compatible`'s test for one constraint: a message when its package,
   * looked up as written, is in the global dictionary and none of the global
   * entries' specifier sets contains its version, pre-releases allowed.
   */
  function Mismatch(lib: Lib, global: Store): ((string, Entry)) -> Option<Message> {
    (p: (string, Entry)) =>
      var name, version := p.1.req.package, PinnedVersion(p.1.req.specifiers);
      if name in global.groups && !Admits(lib, global.groups[name], version)
      then Some(Incompatible(version, name, Specifiers(global.groups[name])))
      else None
  }

  /**
   * The nested `satisfied` helper: a name absent from the global dictionary
   * passes; otherwise the entries are tried in order and the first whose
   * specifier set contains the version, pre-releases allowed by policy,
   * passes.  On failure the message lists every specifier tried.
   */
  method Satisfied(lib: Lib, global: Store, name: string, version: string) returns (failure: Option<Message>)
    ensures failure.None? <==> name !in global.groups || Admits(lib, global.groups[name], version)
    ensures failure.Some? ==> failure.value == Incompatible(version, name, Specifiers(global.groups[name]))
  {
    if name !in global.groups {
      return None;
    }
    var entries := global.groups[name];
    var tested := [];
    var i := 0;
    while i < |entries|
      invariant 0 <= i <= |entries|
      invariant tested == Specifiers(entries[..i])
      invariant forall t :: 0 <= t < i ==> !lib.containsPre(entries[t].req.specifiers, version)
    {
      if lib.containsPre(entries[i].req.specifiers, version) {
        return None;
      }
      tested := tested + [entries[i].req.specifiers];
      i := i + 1;
    }
    assert entries[..i] == entries;
    return Some(Incompatible(version, name, tested));
  }

  /** The failures `check_compatible` records for the constraint entries of one name. */
  method CompatibleGroup(lib: Lib, global: Store, name: string, pkgConstraints: seq<Entry>) returns (failures: seq<Message>)
    ensures failures == Emit(Tag(name, pkgConstraints), Mismatch(lib, global))
  {
    failures := [];
    var j := 0;
    while j < |pkgConstraints|
      invariant 0 <= j <= |pkgConstraints|
      invariant failures == Emit(Tag(name, pkgConstraints[..j]), Mismatch(lib, global))
    {
      var constraint := pkgConstraints[j].req;
      var failure := Satisfied(lib, global, constraint.package, PinnedVersion(constraint.specifiers));
      EmitTagStep(name, pkgConstraints, j, Mismatch(lib, global));
      failures := failures + Yield(failure);
      j := j + 1;
    }
    assert pkgConstraints[..j] == pkgConstraints;
  }

  /** `check_compatible`: one failure per constraint entry, in dictionary order, that `Mismatch` rejects. */
  method CheckCompatible(lib: Lib, global: Store, constraints: Store) returns (failures: seq<Message>)
    requires constraints.Valid()
    ensures failures == Emit(Pairs(constraints.order, constraints.groups), Mismatch(lib, global))
  {
    var order, groups := constraints.order, constraints.groups;
    failures := [];
    var i := 0;
    while i < |order|
      invariant 0 <= i <= |order|
      invariant failures == Emit(Pairs(order[..i], groups), Mismatch(lib, global))
    {
      var name := order[i];
      var group := CompatibleGroup(lib, global, name, groups[name]);
      PairsStep(order, groups, i);
      EmitAppend(Pairs(order[..i], groups), Tag(name, groups[name]), Mismatch(lib, global));
      failures := failures + group;
      i := i + 1;
    }
    assert order[..i] == order;
  }

  /**
   * A failure is reported exactly for a constraint whose package is in the
   * global dictionary and whose pinned version none of that package's global
   * specifier sets contains, pre-releases allowed.
   */
  lemma CompatibleFailures(lib: Lib, global: Store, constraints: Store, m: Message)
    requires constraints.Valid()
    ensures m in Emit(Pairs(constraints.order, constraints.groups), Mismatch(lib, global))
        <==> exists i :: 0 <= i < |Pairs(constraints.order, constraints.groups)|
                && var q := Pairs(constraints.order, constraints.groups)[i].1.req;
                   q.package in global.groups
                   && !Admits(lib, global.groups[q.package], PinnedVersion(q.specifiers))
                   && m == Incompatible(PinnedVersion(q.specifiers), q.package, Specifiers(global.groups[q.package]))
  {
    EmitMembers(Pairs(constraints.order, constraints.groups), Mismatch(lib, global), m);
  }

  /** With no constraint package in the global dictionary, nothing fails. */
  lemma CompatibleAbsent(lib: Lib, global: Store, constraints: Store)
    requires constraints.Valid()
    requires forall i :: 0 <= i < |Pairs(constraints.order, constraints.groups)|
               ==> Pairs(constraints.order, constraints.groups)[i].1.req.package !in global.groups
    ensures Emit(Pairs(constraints.order, constraints.groups), Mismatch(lib, global)) == []
  {
    EmitNone(Pairs(constraints.order, constraints.groups), Mismatch(lib, global));
  }
}
