/**
 * The lower-constraints merger of
 * openstack_requirements/cmds/build_lower_constraints.py: several parsed
 * constraint files are merged into one, keeping for every package the
 * record with the highest version.
 */
module LowerConstraints {
  import opened Wrappers
  import opened Foreign
  import opened Requirement
  import opened Sorting

  /** A clause whose operator holds `>=` or `==` names the version of a requirement. */
  predicate Pinning(c: Clause) {
    Text.Contains(c.op, ">=") || Text.Contains(c.op, "==")
  }

  /** The version of the first naming clause of `cs`, if there is one. */
  function FirstPinned(cs: seq<Clause>): Option<string>
  {
    if cs == [] then None
    else if Pinning(cs[0]) then Some(cs[0].version)
    else FirstPinned(cs[1..])
  }

  /** `get_requirements_version(req)`, the version as text (its comparison is `lib.versionLe`). */
  function RequirementsVersion(lib: Lib, q: Requirement): Result<string> {
    match FirstPinned(lib.clauses(q.specifiers))
    case Some(v) => Success(v)
    case None => Failure("could not find version for " + q.package)
  }

  /** The first naming clause decides: there is a version exactly when some clause names one, and it is the first such clause's. */
  lemma {:induction false} FirstPinnedSpec(cs: seq<Clause>)
    ensures FirstPinned(cs).Some? <==> exists i :: 0 <= i < |cs| && Pinning(cs[i])
    ensures FirstPinned(cs).Some? ==>
      exists i :: 0 <= i < |cs| && Pinning(cs[i]) && cs[i].version == FirstPinned(cs).value
        && forall j :: 0 <= j < i ==> !Pinning(cs[j])
  {
    if cs != [] && !Pinning(cs[0]) {
      FirstPinnedSpec(cs[1..]);
      if exists i :: 0 <= i < |cs| && Pinning(cs[i]) {
        var i :| 0 <= i < |cs| && Pinning(cs[i]);
        assert cs[1..][i - 1] == cs[i];
      }
      if FirstPinned(cs).Some? {
        var i :| 0 <= i < |cs[1..]| && Pinning(cs[1..][i]) && cs[1..][i].version == FirstPinned(cs).value
          && forall j :: 0 <= j < i ==> !Pinning(cs[1..][j]);
        assert cs[i + 1] == cs[1..][i];
        forall j | 0 <= j < i + 1
          ensures !Pinning(cs[j])
        {
          if j > 0 {
            assert cs[j] == cs[1..][j - 1];
          }
        }
      }
    }
  }

  /**
   * `get_requirements_version`: walks the clauses of the specifier set in
   * order and returns the version of the first one whose operator holds
   * `>=` or `==`; fails when there is none.
   */
  method GetRequirementsVersion(lib: Lib, q: Requirement) returns (r: Result<string>)
    ensures r == RequirementsVersion(lib, q)
    ensures var cs := lib.clauses(q.specifiers);
      && (r.Success? <==> exists i :: 0 <= i < |cs| && Pinning(cs[i]))
      && (r.Success? ==>
            exists i :: 0 <= i < |cs| && Pinning(cs[i]) && cs[i].version == r.value && forall j :: 0 <= j < i ==> !Pinning(cs[j]))
  {
    var cs := lib.clauses(q.specifiers);
    FirstPinnedSpec(cs);
    for i := 0 to |cs|
      invariant FirstPinned(cs[i..]) == FirstPinned(cs)
    {
      assert cs[i..][1..] == cs[i + 1..];
      if Pinning(cs[i]) {
        return Success(cs[i].version);
      }
    }
    return Failure("could not find version for " + q.package);
  }

  /** The records of some entries. */
  function Reqs(es: seq<Entry>): (qs: seq<Requirement>)
    ensures |qs| == |es| && forall k :: 0 <= k < |es| ==> qs[k] == es[k].req
  {
    seq(|es|, k requires 0 <= k < |es| => es[k].req)
  }

  /**
   * `max(qs, key=get_requirements_version)` with each record's version:
   * the first record whose version no later one exceeds, or the error of
   * the first record without a version.
   */
  function Highest(lib: Lib, qs: seq<Requirement>): Result<(Requirement, string)>
  {
    if qs == [] then Failure("max() arg is an empty sequence")
    else if |qs| == 1 then
      match RequirementsVersion(lib, qs[0])
      case Failure(e) => Failure(e)
      case Success(v) => Success((qs[0], v))
    else
      match Highest(lib, qs[..|qs| - 1])
      case Failure(e) => Failure(e)
      case Success(best) => Step(lib, best, qs[|qs| - 1])
  }

  /** One comparison of `max`: a later record replaces the best so far only when its version is strictly higher. */
  function Step(lib: Lib, best: (Requirement, string), q: Requirement): Result<(Requirement, string)>
  {
    match RequirementsVersion(lib, q)
    case Failure(e) => Failure(e)
    case Success(v) => if !lib.versionLe(v, best.1) then Success((q, v)) else Success(best)
  }

  lemma HighestSnoc(lib: Lib, qs: seq<Requirement>, i: nat)
    requires 1 <= i < |qs|
    ensures Highest(lib, qs[..i + 1]) ==
      (if Highest(lib, qs[..i]).Failure? then Highest(lib, qs[..i]) else Step(lib, Highest(lib, qs[..i]).value, qs[i]))
  {
    assert qs[..i + 1][..i] == qs[..i];
  }

  /** `max` succeeds exactly when there is a record and every record has a version. */
  lemma {:induction false} HighestSucceeds(lib: Lib, qs: seq<Requirement>)
    ensures Highest(lib, qs).Success? <==> qs != [] && forall k :: 0 <= k < |qs| ==> RequirementsVersion(lib, qs[k]).Success?
  {
    if |qs| > 1 {
      HighestSucceeds(lib, qs[..|qs| - 1]);
      VersionedSnoc(lib, qs);
    }
  }

  /** Every record has a version. */
  predicate Versioned(lib: Lib, qs: seq<Requirement>) {
    forall k :: 0 <= k < |qs| ==> RequirementsVersion(lib, qs[k]).Success?
  }

  /** Every record has a version exactly when all but the last do and the last does. */
  lemma VersionedSnoc(lib: Lib, qs: seq<Requirement>)
    requires qs != []
    ensures Versioned(lib, qs) <==> Versioned(lib, qs[..|qs| - 1]) && RequirementsVersion(lib, qs[|qs| - 1]).Success?
  {
    assert forall k :: 0 <= k < |qs| - 1 ==> qs[..|qs| - 1][k] == qs[k];
  }

  /**
   * When `max` succeeds it picks one of the records, with its version, and
   * no record has a higher one.
   */
  lemma {:induction false} HighestBest(lib: Lib, qs: seq<Requirement>)
    requires VersionOrder(lib) && Highest(lib, qs).Success?
    ensures Highest(lib, qs).value.0 in qs
    ensures RequirementsVersion(lib, Highest(lib, qs).value.0) == Success(Highest(lib, qs).value.1)
    ensures forall k :: 0 <= k < |qs| ==>
      RequirementsVersion(lib, qs[k]).Success? && lib.versionLe(RequirementsVersion(lib, qs[k]).value, Highest(lib, qs).value.1)
  {
    if |qs| > 1 {
      var init := qs[..|qs| - 1];
      HighestBest(lib, init);
      assert init + [qs[|qs| - 1]] == qs;
      StepBest(lib, init, Highest(lib, init).value, qs[|qs| - 1]);
    }
  }

  /** One comparison keeps the best so far a record of the list, with its version and no record above it. */
  lemma StepBest(lib: Lib, qs: seq<Requirement>, best: (Requirement, string), q: Requirement)
    requires VersionOrder(lib)
    requires best.0 in qs && RequirementsVersion(lib, best.0) == Success(best.1)
    requires forall k :: 0 <= k < |qs| ==>
      RequirementsVersion(lib, qs[k]).Success? && lib.versionLe(RequirementsVersion(lib, qs[k]).value, best.1)
    requires Step(lib, best, q).Success?
    ensures Step(lib, best, q).value.0 in qs + [q]
    ensures RequirementsVersion(lib, Step(lib, best, q).value.0) == Success(Step(lib, best, q).value.1)
    ensures forall k :: 0 <= k < |qs + [q]| ==>
      RequirementsVersion(lib, (qs + [q])[k]).Success? && lib.versionLe(RequirementsVersion(lib, (qs + [q])[k]).value, Step(lib, best, q).value.1)
  {
    var v := RequirementsVersion(lib, q).value;
    if !lib.versionLe(v, best.1) {
      assert lib.versionLe(best.1, v);
    }
    assert forall k :: 0 <= k < |qs| ==> (qs + [q])[k] == qs[k];
  }

  /** A record whose version does not exceed the current highest leaves it in place. */
  lemma HighestKeeps(lib: Lib, qs: seq<Requirement>, q: Requirement)
    requires qs != [] && Highest(lib, qs).Success?
    requires RequirementsVersion(lib, q).Success?
    requires lib.versionLe(RequirementsVersion(lib, q).value, Highest(lib, qs).value.1)
    ensures Highest(lib, qs + [q]) == Highest(lib, qs)
  {
    assert (qs + [q])[..|qs|] == qs;
  }

  /**
   * Repeating the records changes nothing: the highest of `qs` followed by
   * a copy of `qs` is the highest of `qs` (the test with two identical
   * files).
   */
  lemma {:induction false} HighestRepeated(lib: Lib, qs: seq<Requirement>, m: nat)
    requires VersionOrder(lib) && m <= |qs| && Highest(lib, qs).Success?
    ensures Highest(lib, qs + qs[..m]) == Highest(lib, qs)
  {
    if m > 0 {
      HighestRepeated(lib, qs, m - 1);
      HighestBest(lib, qs);
      AppendSliceSnoc(qs, qs, m);
      HighestKeeps(lib, qs + qs[..m - 1], qs[m - 1]);
    } else {
      assert qs + qs[..m] == qs;
    }
  }

  /** A failure of `max` on a prefix is its failure on the whole. */
  lemma HighestPrefixFails(lib: Lib, qs: seq<Requirement>, rest: seq<Requirement>)
    requires qs != [] && Highest(lib, qs).Failure?
    ensures Highest(lib, qs + rest) == Highest(lib, qs)
  {
    assert (qs + rest)[..|qs|] == qs;
    HighestStops(lib, qs + rest, |qs|);
  }

  /** The records listed twice over have the same highest record, or the same error, as listed once. */
  lemma HighestTwice(lib: Lib, qs: seq<Requirement>)
    requires VersionOrder(lib)
    ensures Highest(lib, qs + qs) == Highest(lib, qs)
  {
    if qs == [] {
      assert qs + qs == qs;
    } else if Highest(lib, qs).Failure? {
      HighestPrefixFails(lib, qs, qs);
    } else {
      HighestRepeated(lib, qs, |qs|);
      assert qs[..|qs|] == qs;
    }
  }

  /**
   * `max(..., key=get_requirements_version)` computed: the running best
   * is replaced only by a strictly higher version.
   */
  method MaxByVersion(lib: Lib, qs: seq<Requirement>) returns (r: Result<(Requirement, string)>)
    ensures r == Highest(lib, qs)
  {
    if qs == [] {
      return Failure("max() arg is an empty sequence");
    }
    var v0 := GetRequirementsVersion(lib, qs[0]);
    if v0.Failure? {
      assert Highest(lib, qs[..1]) == Failure(v0.error);
      HighestStops(lib, qs, 1);
      return Failure(v0.error);
    }
    var best := (qs[0], v0.value);
    assert qs[..1] == [qs[0]];
    for i := 1 to |qs|
      invariant Highest(lib, qs[..i]) == Success(best)
    {
      HighestSnoc(lib, qs, i);
      var v := GetRequirementsVersion(lib, qs[i]);
      if v.Failure? {
        HighestStops(lib, qs, i + 1);
        return Failure(v.error);
      }
      if !lib.versionLe(v.value, best.1) {
        best := (qs[i], v.value);
      }
    }
    assert qs[..|qs|] == qs;
    return Success(best);
  }

  /** Once a record without a version is met, `max` has failed whatever follows. */
  lemma {:induction false} HighestStops(lib: Lib, qs: seq<Requirement>, i: nat)
    requires 1 <= i <= |qs| && Highest(lib, qs[..i]).Failure?
    ensures Highest(lib, qs) == Highest(lib, qs[..i])
    decreases |qs| - i
  {
    if i < |qs| {
      assert qs[..i + 1][..i] == qs[..i];
      HighestStops(lib, qs, i + 1);
    } else {
      assert qs[..i] == qs;
    }
  }

  /** `all_constraints[name].extend(entries)`; the key is created even for no entries. */
  function Extend(all: map<string, seq<Entry>>, name: string, es: seq<Entry>): map<string, seq<Entry>> {
    all[name := (if name in all then all[name] else []) + es]
  }

  /** One file's names in order, each but the blank one extended by its entries. */
  function GatherFile(all: map<string, seq<Entry>>, order: seq<string>, groups: map<string, seq<Entry>>): map<string, seq<Entry>>
    requires forall k :: k in order ==> k in groups
  {
    if order == [] then all
    else
      var name := order[|order| - 1];
      var prev := GatherFile(all, order[..|order| - 1], groups);
      if name != "" then Extend(prev, name, groups[name]) else prev
  }

  predicate Keyed(s: Store) {
    forall k :: k in s.order ==> k in s.groups
  }

  /** `all_constraints` once every file is gathered. */
  function Gather(sets: seq<Store>): map<string, seq<Entry>>
    requires forall i :: 0 <= i < |sets| ==> Keyed(sets[i])
  {
    if sets == [] then map[]
    else
      var last := sets[|sets| - 1];
      assert Keyed(last);
      assert forall i :: 0 <= i < |sets| - 1 ==> sets[..|sets| - 1][i] == sets[i];
      GatherFile(Gather(sets[..|sets| - 1]), last.order, last.groups)
  }

  /** The lines of `names`, each the record of highest version rendered, or the first error. */
  function MergeNames(lib: Lib, all: map<string, seq<Entry>>, names: seq<string>): Result<seq<string>>
    requires forall k :: k in names ==> k in all
  {
    if names == [] then Success([])
    else
      match MergeNames(lib, all, names[..|names| - 1])
      case Failure(e) => Failure(e)
      case Success(prev) =>
        match Highest(lib, Reqs(all[names[|names| - 1]]))
        case Failure(e) => Failure(e)
        case Success(best) => Success(prev + [ToLine(best.0)])
  }

  /** `merge_constraints_sets(constraints_sets)`, collected into a list. */
  function Merged(lib: Lib, sets: seq<Store>): Result<seq<string>>
    requires forall i :: 0 <= i < |sets| ==> Keyed(sets[i])
  {
    var all := Gather(sets);
    MergeNames(lib, all, SortSet(all.Keys))
  }

  lemma {:induction false} GatherFileMembers(all: map<string, seq<Entry>>, order: seq<string>, groups: map<string, seq<Entry>>, k: string)
    requires forall q :: q in order ==> q in groups
    requires forall i, j :: 0 <= i < j < |order| ==> order[i] != order[j]
    ensures k in GatherFile(all, order, groups) <==> k in all || (k in order && k != "")
    ensures k in GatherFile(all, order, groups) ==>
      GatherFile(all, order, groups)[k] == (if k in all then all[k] else []) + (if k in order && k != "" then groups[k] else [])
  {
    if order != [] {
      var init := order[..|order| - 1];
      var name := order[|order| - 1];
      GatherFileMembers(all, init, groups, k);
      assert k in order <==> k in init || k == name;
      if k == name {
        assert k !in init;
      }
    }
  }

  /** A file whose keys are distinct and all known. */
  predicate Unrepeated(s: Store) {
    forall i, j :: 0 <= i < j < |s.order| ==> s.order[i] != s.order[j]
  }

  /** The entries of one name across the first files: each file's entries for the name, in file order. */
  function EntriesOf(sets: seq<Store>, k: string): seq<Entry>
  {
    if sets == [] then []
    else
      var last := sets[|sets| - 1];
      EntriesOf(sets[..|sets| - 1], k) + (if k in last.order && k in last.groups then last.groups[k] else [])
  }

  /**
   * After gathering, the blank name is absent, every name some file lists
   * is present, and its entries are those files' entries in file order.
   */
  lemma {:induction false} GatherMembers(sets: seq<Store>, k: string)
    requires forall i :: 0 <= i < |sets| ==> Keyed(sets[i])
    requires forall i :: 0 <= i < |sets| ==> Unrepeated(sets[i])
    ensures k in Gather(sets) <==> k != "" && exists i :: 0 <= i < |sets| && k in sets[i].order
    ensures k in Gather(sets) ==> Gather(sets)[k] == EntriesOf(sets, k)
  {
    if sets != [] {
      var init := sets[..|sets| - 1];
      var last := sets[|sets| - 1];
      GatherMembers(init, k);
      GatherFileMembers(Gather(init), last.order, last.groups, k);
      if exists i :: 0 <= i < |sets| && k in sets[i].order {
        var i :| 0 <= i < |sets| && k in sets[i].order;
        if i < |init| {
          assert init[i] == sets[i];
        }
      }
      if exists i :: 0 <= i < |init| && k in init[i].order {
        var i :| 0 <= i < |init| && k in init[i].order;
        assert sets[i] == init[i];
      }
      if k in Gather(sets) && k !in Gather(init) {
        EntriesOfAbsent(init, k);
      }
    }
  }

  lemma {:induction false} EntriesOfAbsent(sets: seq<Store>, k: string)
    requires forall i :: 0 <= i < |sets| ==> k !in sets[i].order
    ensures EntriesOf(sets, k) == []
  {
    if sets != [] {
      EntriesOfAbsent(sets[..|sets| - 1], k);
    }
  }

  /** The records gathered under `k` have a highest one. */
  predicate Mergeable(lib: Lib, all: map<string, seq<Entry>>, k: string)
    requires k in all
  {
    Highest(lib, Reqs(all[k])).Success?
  }

  /** Every name in `names` is mergeable. */
  predicate AllMergeable(lib: Lib, all: map<string, seq<Entry>>, names: seq<string>)
    requires forall k :: k in names ==> k in all
  {
    forall t :: 0 <= t < |names| ==> Mergeable(lib, all, names[t])
  }

  /** The names are merged one by one: success when all are mergeable, then line `t` is name `t`'s highest record. */
  lemma MergeNamesSpec(lib: Lib, all: map<string, seq<Entry>>, names: seq<string>, t: nat)
    requires forall k :: k in names ==> k in all
    ensures MergeNames(lib, all, names).Success? <==> AllMergeable(lib, all, names)
    ensures MergeNames(lib, all, names).Success? ==> |MergeNames(lib, all, names).value| == |names|
    ensures MergeNames(lib, all, names).Success? && t < |names| ==>
      MergeNames(lib, all, names).value[t] == ToLine(Highest(lib, Reqs(all[names[t]])).value.0)
  {
    MergeNamesOk(lib, all, names);
    if MergeNames(lib, all, names).Success? && t < |names| {
      MergeNamesAt(lib, all, names, t);
    }
  }

  lemma {:induction false} MergeNamesOk(lib: Lib, all: map<string, seq<Entry>>, names: seq<string>)
    requires forall k :: k in names ==> k in all
    ensures MergeNames(lib, all, names).Success? <==> AllMergeable(lib, all, names)
    ensures MergeNames(lib, all, names).Success? ==> |MergeNames(lib, all, names).value| == |names|
  {
    if names != [] {
      var n := |names| - 1;
      var init := names[..n];
      MergeNamesOk(lib, all, init);
      AllMergeableSnoc(lib, all, names);
    }
  }

  lemma AllMergeableSnoc(lib: Lib, all: map<string, seq<Entry>>, names: seq<string>)
    requires names != [] && forall k :: k in names ==> k in all
    ensures forall k :: k in names[..|names| - 1] ==> k in all
    ensures AllMergeable(lib, all, names) <==>
      AllMergeable(lib, all, names[..|names| - 1]) && Mergeable(lib, all, names[|names| - 1])
  {
    var n := |names| - 1;
    var init := names[..n];
    assert forall s :: 0 <= s < n ==> init[s] == names[s];
    assert forall k :: k in init ==> k in names;
  }

  lemma {:induction false} MergeNamesAt(lib: Lib, all: map<string, seq<Entry>>, names: seq<string>, t: nat)
    requires forall k :: k in names ==> k in all
    requires MergeNames(lib, all, names).Success? && t < |names|
    ensures |MergeNames(lib, all, names).value| == |names|
    ensures Highest(lib, Reqs(all[names[t]])).Success?
    ensures MergeNames(lib, all, names).value[t] == ToLine(Highest(lib, Reqs(all[names[t]])).value.0)
  {
    MergeNamesLast(lib, all, names);
    if t < |names| - 1 {
      MergeNamesAt(lib, all, names[..|names| - 1], t);
      assert names[..|names| - 1][t] == names[t];
    } else {
      MergeNamesOk(lib, all, names[..|names| - 1]);
    }
  }

  /** A successful merge is the merge of all names but the last, then the last name's line. */
  lemma MergeNamesLast(lib: Lib, all: map<string, seq<Entry>>, names: seq<string>)
    requires names != [] && (forall k :: k in names ==> k in all) && MergeNames(lib, all, names).Success?
    ensures forall k :: k in names[..|names| - 1] ==> k in all
    ensures MergeNames(lib, all, names[..|names| - 1]).Success?
    ensures Highest(lib, Reqs(all[names[|names| - 1]])).Success?
    ensures MergeNames(lib, all, names).value ==
      MergeNames(lib, all, names[..|names| - 1]).value + [ToLine(Highest(lib, Reqs(all[names[|names| - 1]])).value.0)]
  {
    assert forall k :: k in names[..|names| - 1] ==> k in names;
  }

  /**
   * The blank name is never merged, and the merge succeeds exactly when
   * every gathered name has a record of highest version.
   */
  lemma MergedSucceeds(lib: Lib, sets: seq<Store>)
    requires forall i :: 0 <= i < |sets| ==> Keyed(sets[i])
    requires forall i :: 0 <= i < |sets| ==> Unrepeated(sets[i])
    ensures "" !in Gather(sets)
    ensures Merged(lib, sets).Success? <==> AllMergeable(lib, Gather(sets), SortSet(Gather(sets).Keys))
    ensures Merged(lib, sets).Success? ==> |Merged(lib, sets).value| == |Gather(sets).Keys|
  {
    GatherMembers(sets, "");
    MergeNamesSpec(lib, Gather(sets), SortSet(Gather(sets).Keys), 0);
  }

  /**
   * Line `t` of a successful merge renders the highest of all the records
   * filed under the `t`-th name in sorted order, across every file, in file
   * order (what `max` picks from them is described by `HighestSucceeds` and `HighestBest`).
   */
  lemma MergedLine(lib: Lib, sets: seq<Store>, t: nat)
    requires forall i :: 0 <= i < |sets| ==> Keyed(sets[i])
    requires forall i :: 0 <= i < |sets| ==> Unrepeated(sets[i])
    requires Merged(lib, sets).Success? && t < |SortSet(Gather(sets).Keys)|
    ensures |Merged(lib, sets).value| == |SortSet(Gather(sets).Keys)|
    ensures Highest(lib, Reqs(EntriesOf(sets, SortSet(Gather(sets).Keys)[t]))).Success?
    ensures Merged(lib, sets).value[t] == ToLine(Highest(lib, Reqs(EntriesOf(sets, SortSet(Gather(sets).Keys)[t]))).value.0)
  {
    var all := Gather(sets);
    var names := SortSet(all.Keys);
    MergeNamesSpec(lib, all, names, t);
    assert Mergeable(lib, all, names[t]);
    GatherMembers(sets, names[t]);
  }

  /** Names whose records have the same highest record, or the same error, merge to the same lines. */
  lemma {:induction false} MergeNamesAlike(lib: Lib, all: map<string, seq<Entry>>, other: map<string, seq<Entry>>, names: seq<string>)
    requires forall k :: k in names ==> k in all && k in other
    requires forall k :: k in names ==> Highest(lib, Reqs(all[k])) == Highest(lib, Reqs(other[k]))
    ensures MergeNames(lib, all, names) == MergeNames(lib, other, names)
  {
    if names != [] {
      MergeNamesAlike(lib, all, other, names[..|names| - 1]);
    }
  }

  /**
   * Merging a file with a copy of itself gives what the file alone gives:
   * each name's records are listed twice, which changes neither the record
   * `max` picks nor its error.
   */
  lemma MergedTwice(lib: Lib, s: Store)
    requires VersionOrder(lib) && Keyed(s) && Unrepeated(s)
    ensures Merged(lib, [s, s]) == Merged(lib, [s])
  {
    var once := Gather([s]);
    var twice := Gather([s, s]);
    GatherTwice(s);
    var names := SortSet(once.Keys);
    forall k | k in names
      ensures Highest(lib, Reqs(twice[k])) == Highest(lib, Reqs(once[k]))
    {
      ReqsAppend(once[k], once[k]);
      HighestTwice(lib, Reqs(once[k]));
    }
    MergeNamesAlike(lib, twice, once, names);
  }

  lemma ReqsAppend(a: seq<Entry>, b: seq<Entry>)
    ensures Reqs(a + b) == Reqs(a) + Reqs(b)
  {
  }

  /** Gathering a file twice files each of its names' entries twice. */
  lemma GatherTwice(s: Store)
    requires Keyed(s) && Unrepeated(s)
    ensures Gather([s, s]).Keys == Gather([s]).Keys
    ensures forall k :: k in Gather([s]) ==> Gather([s, s])[k] == Gather([s])[k] + Gather([s])[k]
  {
    forall k
      ensures k in Gather([s, s]) <==> k in Gather([s])
      ensures k in Gather([s]) ==> Gather([s, s])[k] == Gather([s])[k] + Gather([s])[k]
    {
      EntriesTwice(s, k);
      GatherMembers([s], k);
      GatherMembers([s, s], k);
    }
  }

  lemma EntriesTwice(s: Store, k: string)
    ensures EntriesOf([s, s], k) == EntriesOf([s], k) + EntriesOf([s], k)
    ensures (exists i :: 0 <= i < |[s, s]| && k in [s, s][i].order) <==> k in s.order
    ensures (exists i :: 0 <= i < |[s]| && k in [s][i].order) <==> k in s.order
  {
    assert [s, s][..1] == [s];
    assert [s][..0] == [];
    if k in s.order {
      assert [s][0] == s;
    }
  }

  /** `for constraints_set in ...: for name, constraint in constraints_set.items(): ...` */
  method GatherSets(sets: seq<Store>) returns (all: map<string, seq<Entry>>)
    requires forall i :: 0 <= i < |sets| ==> Keyed(sets[i])
    ensures all == Gather(sets)
  {
    all := map[];
    for i := 0 to |sets|
      invariant all == Gather(sets[..i])
    {
      assert sets[..i + 1][..i] == sets[..i];
      var s := sets[i];
      ghost var start := all;
      for j := 0 to |s.order|
        invariant all == GatherFile(start, s.order[..j], s.groups)
      {
        assert s.order[..j + 1][..j] == s.order[..j];
        var name := s.order[j];
        if name != "" {
          all := all[name := (if name in all then all[name] else []) + s.groups[name]];
        }
      }
      assert s.order[..|s.order|] == s.order;
    }
    assert sets[..|sets|] == sets;
  }

  /**
   * `merge_constraints_sets(constraints_sets)`: the rendered record of
   * highest version of every name, in sorted name order, or the first error
   * of `max` or of `get_requirements_version`.
   */
  method MergeConstraintsSets(lib: Lib, sets: seq<Store>) returns (r: Result<seq<string>>)
    requires forall i :: 0 <= i < |sets| ==> Keyed(sets[i])
    ensures r == Merged(lib, sets)
  {
    var all := GatherSets(sets);
    var names := SortSet(all.Keys);
    var lines: seq<string> := [];
    for t := 0 to |names|
      invariant MergeNames(lib, all, names[..t]) == Success(lines)
    {
      MergeNamesSnoc(lib, all, names, t);
      var best := MaxByVersion(lib, Reqs(all[names[t]]));
      if best.Failure? {
        MergeNamesStops(lib, all, names, t + 1);
        return Failure(best.error);
      }
      lines := lines + [ToLine(best.value.0)];
    }
    assert names[..|names|] == names;
    return Success(lines);
  }

  lemma MergeNamesSnoc(lib: Lib, all: map<string, seq<Entry>>, names: seq<string>, t: nat)
    requires t < |names| && forall k :: k in names ==> k in all
    ensures MergeNames(lib, all, names[..t + 1]) ==
      match MergeNames(lib, all, names[..t])
      case Failure(e) => Failure(e)
      case Success(prev) =>
        match Highest(lib, Reqs(all[names[t]]))
        case Failure(e) => Failure(e)
        case Success(best) => Success(prev + [ToLine(best.0)])
  {
    assert names[..t + 1][..t] == names[..t];
  }

  lemma {:induction false} MergeNamesStops(lib: Lib, all: map<string, seq<Entry>>, names: seq<string>, i: nat)
    requires i <= |names| && (forall k :: k in names ==> k in all) && MergeNames(lib, all, names[..i]).Failure?
    ensures MergeNames(lib, all, names) == MergeNames(lib, all, names[..i])
    decreases |names| - i
  {
    if i < |names| {
      assert names[..i + 1][..i] == names[..i];
      MergeNamesStops(lib, all, names, i + 1);
    } else {
      assert names[..i] == names;
    }
  }
}
