/**
 * `edit` of openstack_requirements/cmds/edit_constraint.py: replace or
 * remove every constraint of one package, then list all remaining records
 * sorted.
 */
module EditConstraint {
  import opened Sorting
  import opened Listing
  import opened Requirement
  import Names

  /** `order` without `k`. */
  function Without(order: seq<string>, k: string): (r: seq<string>)
    ensures forall q :: q in r <==> q in order && q != k
  {
    if order == [] then []
    else Without(order[..|order| - 1], k) + (if order[|order| - 1] == k then [] else [order[|order| - 1]])
  }

  /** `reqs.pop(key, None)`. */
  function Pop(store: Store, k: string): Store {
    Store(Without(store.order, k), store.groups - {k})
  }

  /** `reqs[key] = entries`: a new key goes last, an existing one keeps its place. */
  function Put(store: Store, k: string, es: seq<Entry>): Store {
    if k in store.groups then store.(groups := store.groups[k := es])
    else Store(store.order + [k], store.groups[k := es])
  }

  /** The record standing for a replacement: every field blank except the comment, which holds the replacement text. */
  function Placeholder(replacement: string): Requirement {
    Requirement("", "", "", "", replacement, {})
  }

  /** The dictionary after the edit of `edit(reqs, name, replacement)`. */
  function Edited(store: Store, name: string, replacement: string): Store {
    var key := Names.CanonicalName(name);
    if replacement == "" then Pop(store, key)
    else Put(store, key, [Entry(Placeholder(replacement), "")])
  }

  /** The records of a dictionary in key order, each key's in order. */
  function Records(store: Store): (qs: seq<Requirement>)
    requires forall k :: k in store.order ==> k in store.groups
  {
    var ps := Pairs(store.order, store.groups);
    seq(|ps|, t requires 0 <= t < |ps| => ps[t].1.req)
  }

  /** The fields a record compares by, in order. */
  function Fields(q: Requirement): seq<string> {
    [q.package, q.location, q.specifiers, q.markers, q.comment]
  }

  lemma {:induction false} WithoutDistinct(order: seq<string>, k: string)
    requires forall i, j :: 0 <= i < j < |order| ==> order[i] != order[j]
    ensures forall i, j :: 0 <= i < j < |Without(order, k)| ==> Without(order, k)[i] != Without(order, k)[j]
  {
    if order != [] {
      var init := order[..|order| - 1];
      WithoutDistinct(init, k);
      var last := order[|order| - 1];
      forall n | 0 <= n < |init|
        ensures init[n] != last
      {
        assert init[n] == order[n];
      }
      var head := Without(init, k);
      var r := Without(order, k);
      assert r == head + (if last == k then [] else [last]);
      forall i, j | 0 <= i < j < |r|
        ensures r[i] != r[j]
      {
        if j >= |head| {
          assert r[j] == last && r[i] == head[i];
          assert head[i] in init;
        } else {
          assert r[i] == head[i] && r[j] == head[j];
        }
      }
    }
  }

  /**
   * The edit keeps the dictionary well formed; removing takes the key out,
   * replacing leaves it with the one placeholder entry; every other key
   * keeps its entries.
   */
  lemma EditedSpec(store: Store, name: string, replacement: string)
    requires store.Valid()
    ensures var e := Edited(store, name, replacement); var key := Names.CanonicalName(name);
      && e.Valid()
      && (replacement == "" ==> key !in e.groups)
      && (replacement != "" ==> key in e.groups && e.groups[key] == [Entry(Placeholder(replacement), "")])
      && (forall k :: k != key ==> (k in e.groups <==> k in store.groups))
      && (forall k :: k != key && k in e.groups ==> e.groups[k] == store.groups[k])
  {
    var key := Names.CanonicalName(name);
    var e := Edited(store, name, replacement);
    if replacement == "" {
      WithoutDistinct(store.order, key);
    } else if key !in store.groups {
      assert e.order == store.order + [key] && key !in store.order;
      forall i, j | 0 <= i < j < |e.order|
        ensures e.order[i] != e.order[j]
      {
        if j == |store.order| {
          assert e.order[i] == store.order[i];
        }
      }
    }
  }

  /** A record is listed exactly when it is the record of an entry of some key. */
  lemma RecordsMembers(store: Store, q: Requirement)
    requires store.Valid()
    ensures q in Records(store) <==> exists k, e :: k in store.groups && e in store.groups[k] && e.req == q
  {
    var ps := Pairs(store.order, store.groups);
    if q in Records(store) {
      var t :| 0 <= t < |ps| && ps[t].1.req == q;
      PairsMembers(store.order, store.groups, ps[t].0, ps[t].1);
    }
    if exists k, e :: k in store.groups && e in store.groups[k] && e.req == q {
      var k, e :| k in store.groups && e in store.groups[k] && e.req == q;
      PairsMembers(store.order, store.groups, k, e);
      var t :| 0 <= t < |ps| && ps[t] == (k, e);
      assert Records(store)[t] == q;
    }
  }

  /** The records of a list of entries. */
  function ReqsOf(es: seq<Entry>): (qs: seq<Requirement>)
    ensures |qs| == |es|
  {
    seq(|es|, t requires 0 <= t < |es| => es[t].req)
  }

  lemma RecordsStep(store: Store, i: nat)
    requires store.Valid() && i < |store.order|
    ensures forall k :: k in store.order[..i + 1] ==> k in store.groups
    ensures Records(Store(store.order[..i + 1], store.groups)) ==
      Records(Store(store.order[..i], store.groups)) + ReqsOf(store.groups[store.order[i]])
  {
    PairsStep(store.order, store.groups, i);
  }

  /** The records of every key's entries, in dictionary order. */
  method CollectRecords(store: Store) returns (result: seq<Requirement>)
    requires store.Valid()
    ensures result == Records(store)
  {
    result := [];
    for i := 0 to |store.order|
      invariant result == Records(Store(store.order[..i], store.groups))
    {
      RecordsStep(store, i);
      result := CollectEntries(result, store.groups[store.order[i]]);
    }
    assert store.order[..|store.order|] == store.order;
  }

  /** The inner loop: the records of one key's entries appended in order. */
  method CollectEntries(start: seq<Requirement>, entries: seq<Entry>) returns (result: seq<Requirement>)
    ensures result == start + ReqsOf(entries)
  {
    result := start;
    for j := 0 to |entries|
      invariant result == start + ReqsOf(entries[..j])
    {
      assert ReqsOf(entries[..j + 1]) == ReqsOf(entries[..j]) + [entries[j].req];
      result := result + [entries[j].req];
    }
    assert entries[..|entries|] == entries;
  }

  /**
   * `edit(reqs, name, replacement)`: the dictionary edited in place (here
   * returned) and every remaining record, sorted.
   */
  method Edit(store: Store, name: string, replacement: string) returns (edited: Store, result: seq<Requirement>)
    requires store.Valid()
    ensures edited == Edited(store, name, replacement)
    ensures result == SortBy(Records(edited), Fields, FieldsBelow)
  {
    var key := Names.CanonicalName(name);
    if replacement == "" {
      edited := Store(Without(store.order, key), store.groups - {key});
    } else if key in store.groups {
      edited := store.(groups := store.groups[key := [Entry(Placeholder(replacement), "")]]);
    } else {
      edited := Store(store.order + [key], store.groups[key := [Entry(Placeholder(replacement), "")]]);
    }
    EditedSpec(store, name, replacement);
    var records := CollectRecords(edited);
    result := SortBy(records, Fields, FieldsBelow);
  }

  /**
   * The result of an edit is sorted by the record fields and holds exactly
   * the records of the edited dictionary, the placeholder among them when
   * the replacement is not empty.
   */
  lemma EditResult(store: Store, name: string, replacement: string, q: Requirement)
    requires store.Valid()
    ensures var result := SortBy(Records(Edited(store, name, replacement)), Fields, FieldsBelow);
      && SortedBy(result, Fields, FieldsBelow)
      && |result| == |Records(Edited(store, name, replacement))|
      && (q in result <==>
            exists k, e :: k in Edited(store, name, replacement).groups && e in Edited(store, name, replacement).groups[k] && e.req == q)
      && (replacement != "" ==> Placeholder(replacement) in result)
  {
    EditedSpec(store, name, replacement);
    var edited := Edited(store, name, replacement);
    var records := Records(edited);
    var result := SortBy(records, Fields, FieldsBelow);
    FieldsOrder();
    SortBySorted(records, Fields, FieldsBelow);
    assert q in result <==> q in records by {
      assert q in multiset(result) <==> q in multiset(records);
    }
    RecordsMembers(edited, q);
    if replacement != "" {
      var p := Placeholder(replacement);
      RecordsMembers(edited, p);
      var key := Names.CanonicalName(name);
      assert Entry(p, "") in edited.groups[key];
      assert p in multiset(result) <==> p in multiset(records);
    }
  }

  /**
   * When the dictionary holds only the edited package, the result is the
   * placeholder alone, or nothing when the replacement is empty.
   */
  lemma EditSole(store: Store, name: string, replacement: string)
    requires store.Valid() && (store.order == [] || store.order == [Names.CanonicalName(name)])
    ensures SortBy(Records(Edited(store, name, replacement)), Fields, FieldsBelow) ==
      if replacement == "" then [] else [Placeholder(replacement)]
  {
    var key := Names.CanonicalName(name);
    EditedSpec(store, name, replacement);
    var edited := Edited(store, name, replacement);
    if replacement == "" {
      WithoutOnly(store.order, key);
      assert Records(edited) == [];
    } else {
      assert edited.order == [key] by {
        if store.order == [] {
          assert key !in store.groups;
        }
      }
      var p := Placeholder(replacement);
      SoleRecord(edited, key, Entry(p, ""));
      SortBySingle(p, Fields, FieldsBelow);
    }
  }

  lemma WithoutOnly(order: seq<string>, k: string)
    requires order == [] || order == [k]
    ensures Without(order, k) == []
  {
    if order == [k] {
      assert order[..0] == [];
    }
  }

  /** A dictionary with one key holding one entry lists that entry's record alone. */
  lemma SoleRecord(store: Store, k: string, e: Entry)
    requires store.order == [k] && k in store.groups && store.groups[k] == [e]
    ensures Records(store) == [e.req]
  {
    assert store.order[..0] == [];
    assert Pairs(store.order, store.groups) == Tag(k, [e]);
  }
}
