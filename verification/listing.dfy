/**
 * Generators over parsed requirement dictionaries: the validators walk a
 * dictionary's `(name, entry)` pairs in key order and yield a message for
 * some of them.
 */
module Listing {
  import opened Wrappers
  import opened Requirement

  /** What one step of a generator yields: nothing or one value. */
  function Yield<M>(o: Option<M>): seq<M> {
    if o.Some? then [o.value] else []
  }

  /** The values a generator yields when it asks `f` about each of `xs` in turn. */
  function Emit<X, M>(xs: seq<X>, f: X -> Option<M>): (ms: seq<M>)
    ensures |ms| <= |xs|
  {
    if xs == [] then [] else Emit(xs[..|xs| - 1], f) + Yield(f(xs[|xs| - 1]))
  }

  lemma EmitSnoc<X, M>(xs: seq<X>, x: X, f: X -> Option<M>)
    ensures Emit(xs + [x], f) == Emit(xs, f) + Yield(f(x))
  {
    assert (xs + [x])[..|xs|] == xs;
  }

  lemma {:induction false} EmitAppend<X, M>(a: seq<X>, b: seq<X>, f: X -> Option<M>)
    ensures Emit(a + b, f) == Emit(a, f) + Emit(b, f)
    decreases |b|
  {
    if b != [] {
      var init := b[..|b| - 1];
      assert a + b == (a + init) + [b[|b| - 1]];
      EmitSnoc(a + init, b[|b| - 1], f);
      EmitAppend(a, init, f);
    } else {
      assert a + b == a;
    }
  }

  /** A value is yielded exactly when `f` yields it for one of the items. */
  lemma {:induction false} EmitMembers<X, M>(xs: seq<X>, f: X -> Option<M>, m: M)
    ensures m in Emit(xs, f) <==> exists i :: 0 <= i < |xs| && f(xs[i]) == Some(m)
  {
    if xs != [] {
      var init := xs[..|xs| - 1];
      EmitMembers(init, f, m);
      if exists i :: 0 <= i < |xs| && f(xs[i]) == Some(m) {
        var i :| 0 <= i < |xs| && f(xs[i]) == Some(m);
        if i < |init| {
          assert init[i] == xs[i];
        }
      }
      if exists i :: 0 <= i < |init| && f(init[i]) == Some(m) {
        var i :| 0 <= i < |init| && f(init[i]) == Some(m);
        assert xs[i] == init[i];
      }
    }
  }

  /** Nothing is yielded when `f` yields for no item. */
  lemma {:induction false} EmitNone<X, M>(xs: seq<X>, f: X -> Option<M>)
    requires forall i :: 0 <= i < |xs| ==> f(xs[i]).None?
    ensures Emit(xs, f) == []
  {
    if xs != [] {
      EmitNone(xs[..|xs| - 1], f);
    }
  }

  /** The entries of one name, each paired with the name. */
  function Tag(k: string, es: seq<Entry>): (ps: seq<(string, Entry)>)
    ensures |ps| == |es|
  {
    seq(|es|, t requires 0 <= t < |es| => (k, es[t]))
  }

  lemma TagStep(k: string, es: seq<Entry>, j: nat)
    requires j < |es|
    ensures Tag(k, es[..j + 1]) == Tag(k, es[..j]) + [(k, es[j])]
  {
  }

  /** What one more entry of a name adds to what a generator yields for its pairs. */
  lemma EmitTagStep<M>(k: string, es: seq<Entry>, j: nat, f: ((string, Entry)) -> Option<M>)
    requires j < |es|
    ensures Emit(Tag(k, es[..j + 1]), f) == Emit(Tag(k, es[..j]), f) + Yield(f((k, es[j])))
  {
    TagStep(k, es, j);
    EmitSnoc(Tag(k, es[..j]), (k, es[j]), f);
  }

  /** The `(name, entry)` pairs of a dictionary, in key order: `for name, spec_list in d.items(): for e in spec_list`. */
  function Pairs(order: seq<string>, groups: map<string, seq<Entry>>): seq<(string, Entry)>
    requires forall k :: k in order ==> k in groups
  {
    if order == [] then []
    else Pairs(order[..|order| - 1], groups) + Tag(order[|order| - 1], groups[order[|order| - 1]])
  }

  lemma PairsStep(order: seq<string>, groups: map<string, seq<Entry>>, i: nat)
    requires i < |order| && forall k :: k in order ==> k in groups
    ensures Pairs(order[..i + 1], groups) == Pairs(order[..i], groups) + Tag(order[i], groups[order[i]])
  {
    assert order[..i + 1][..i] == order[..i];
  }

  /** A pair is listed exactly when its name is a key and its entry one of that key's entries. */
  lemma {:induction false} PairsMembers(order: seq<string>, groups: map<string, seq<Entry>>, k: string, e: Entry)
    requires forall q :: q in order ==> q in groups
    ensures (k, e) in Pairs(order, groups) <==> k in order && e in groups[k]
  {
    if order != [] {
      var init := order[..|order| - 1];
      var q := order[|order| - 1];
      PairsMembers(init, groups, k, e);
      var tag := Tag(q, groups[q]);
      if (k, e) in tag {
        var t :| 0 <= t < |tag| && tag[t] == (k, e);
      }
      if k == q && e in groups[q] {
        var t :| 0 <= t < |groups[q]| && groups[q][t] == e;
        assert tag[t] == (k, e);
      }
      assert k in order <==> k in init || k == q;
    }
  }
}
