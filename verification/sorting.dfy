/**
 * Python's ordering of strings and its `sorted`: strings compare by code
 * point, lexicographically; `sorted(xs, key=...)` is a stable sort.
 */
module Sorting {

  /** Python's `a < b` on strings. */
  predicate Below(a: string, b: string)
  {
    if a == [] then b != []
    else b != [] && (a[0] < b[0] || (a[0] == b[0] && Below(a[1..], b[1..])))
  }

  /** `below` is a strict total order. */
  ghost predicate StrictOrder<K(!new)>(below: (K, K) -> bool)
  {
    && (forall a :: !below(a, a))
    && (forall a, b, c :: below(a, b) && below(b, c) ==> below(a, c))
    && (forall a, b :: a != b ==> below(a, b) || below(b, a))
  }

  lemma {:induction false} BelowIrreflexive(a: string)
    ensures !Below(a, a)
  {
    if a != [] {
      BelowIrreflexive(a[1..]);
    }
  }

  lemma {:induction false} BelowTransitive(a: string, b: string, c: string)
    requires Below(a, b) && Below(b, c)
    ensures Below(a, c)
  {
    if a != [] && b != [] && c != [] && a[0] == b[0] && b[0] == c[0] {
      BelowTransitive(a[1..], b[1..], c[1..]);
    }
  }

  lemma {:induction false} BelowTotal(a: string, b: string)
    requires a != b
    ensures Below(a, b) || Below(b, a)
  {
    if a != [] && b != [] && a[0] == b[0] {
      assert a == [a[0]] + a[1..] && b == [b[0]] + b[1..];
      BelowTotal(a[1..], b[1..]);
    }
  }

  /** Python's string order is a strict total order. */
  lemma StringOrder()
    ensures StrictOrder(Below)
  {
    forall a: string ensures !Below(a, a) {
      BelowIrreflexive(a);
    }
    forall a: string, b: string, c: string | Below(a, b) && Below(b, c)
      ensures Below(a, c)
    {
      BelowTransitive(a, b, c);
    }
    forall a: string, b: string | a != b
      ensures Below(a, b) || Below(b, a)
    {
      BelowTotal(a, b);
    }
  }

  /** Every non-empty finite set has a least element under a strict order. */
  lemma {:induction false} HasLeast<T>(s: set<T>, below: (T, T) -> bool)
    requires s != {}
    requires forall a :: !below(a, a)
    requires forall a, b, c :: below(a, b) && below(b, c) ==> below(a, c)
    ensures exists m :: m in s && forall y :: y in s ==> !below(y, m)
    decreases |s|
  {
    var x :| x in s;
    var rest := s - {x};
    if rest == {} {
      LeastOfOne(s, x, below);
    } else {
      HasLeast(rest, below);
      var m :| m in rest && forall y :: y in rest ==> !below(y, m);
      LeastOfMore(s, x, m, below);
    }
  }

  lemma LeastOfOne<T>(s: set<T>, x: T, below: (T, T) -> bool)
    requires x in s && s - {x} == {} && !below(x, x)
    ensures forall y :: y in s ==> !below(y, x)
  {
    forall y | y in s
      ensures !below(y, x)
    {
      assert y in s - {x} <==> y != x;
    }
  }

  lemma LeastOfMore<T>(s: set<T>, x: T, m: T, below: (T, T) -> bool)
    requires x in s && m in s - {x} && forall y :: y in s - {x} ==> !below(y, m)
    requires !below(x, x)
    requires forall a, b, c :: below(a, b) && below(b, c) ==> below(a, c)
    ensures exists w :: w in s && forall y :: y in s ==> !below(y, w)
  {
    if below(x, m) {
      forall y | y in s
        ensures !below(y, x)
      {
        assert y in s - {x} <==> y != x;
      }
    } else {
      forall y | y in s
        ensures !below(y, m)
      {
        assert y in s - {x} <==> y != x;
      }
    }
  }

  /** The least string of a non-empty set. */
  function Least(s: set<string>): (m: string)
    requires s != {}
    ensures m in s && forall y :: y in s && y != m ==> Below(m, y)
  {
    StringOrder();
    HasLeast(s, Below);
    var m :| m in s && forall y :: y in s ==> !Below(y, m);
    m
  }

  /** Python's `sorted(s)` for a set of strings. */
  function SortSet(s: set<string>): (r: seq<string>)
    ensures |r| == |s|
    ensures forall x :: x in r <==> x in s
    decreases |s|
  {
    if s == {} then []
    else
      var m := Least(s);
      [m] + SortSet(s - {m})
  }

  /** `sorted(s)` is strictly increasing. */
  lemma {:induction false} SortSetIncreasing(s: set<string>)
    ensures forall i, j :: 0 <= i < j < |SortSet(s)| ==> Below(SortSet(s)[i], SortSet(s)[j])
    decreases |s|
  {
    if s != {} {
      var m := Least(s);
      var t := SortSet(s - {m});
      SortSetIncreasing(s - {m});
      assert SortSet(s) == [m] + t;
      ConsIncreasing(m, t, Below);
    }
  }

  /** A strictly increasing sequence stays so with a smaller element in front. */
  lemma ConsIncreasing<T>(m: T, t: seq<T>, below: (T, T) -> bool)
    requires forall i, j :: 0 <= i < j < |t| ==> below(t[i], t[j])
    requires forall x :: x in t ==> below(m, x)
    ensures forall i, j :: 0 <= i < j < |[m] + t| ==> below(([m] + t)[i], ([m] + t)[j])
  {
    var r := [m] + t;
    forall i, j | 0 <= i < j < |r|
      ensures below(r[i], r[j])
    {
      if i == 0 {
        assert r[j] == t[j - 1];
      } else {
        assert r[i] == t[i - 1] && r[j] == t[j - 1];
      }
    }
  }

  /** `sorted(s)` computed: every name once, in strictly increasing order. */
  method SortedNames(s: set<string>) returns (r: seq<string>)
    ensures |r| == |s|
    ensures forall x :: x in r <==> x in s
    ensures forall i, j :: 0 <= i < j < |r| ==> Below(r[i], r[j])
  {
    r := SortSet(s);
    SortSetIncreasing(s);
  }

  /** `xs` is ordered by `key`: no element's key is below an earlier one's. */
  ghost predicate SortedBy<T, K>(xs: seq<T>, key: T -> K, below: (K, K) -> bool)
  {
    forall i, j :: 0 <= i < j < |xs| ==> !below(key(xs[j]), key(xs[i]))
  }

  /** `x` placed in `s` after every element whose key is not above its own. */
  function Insert<T, K>(x: T, s: seq<T>, key: T -> K, below: (K, K) -> bool): (r: seq<T>)
    ensures |r| == |s| + 1
  {
    if s == [] then [x]
    else if below(key(x), key(s[0])) then [x] + s
    else
      assert s == [s[0]] + s[1..];
      [s[0]] + Insert(x, s[1..], key, below)
  }

  /** Python's `sorted(xs, key=key)`: insertion sort, later elements after equal earlier ones. */
  function SortBy<T, K>(xs: seq<T>, key: T -> K, below: (K, K) -> bool): (r: seq<T>)
    ensures multiset(r) == multiset(xs)
    ensures |r| == |xs|
  {
    if xs == [] then []
    else
      assert xs == xs[..|xs| - 1] + [xs[|xs| - 1]];
      InsertPerm(xs[|xs| - 1], SortBy(xs[..|xs| - 1], key, below), key, below);
      Insert(xs[|xs| - 1], SortBy(xs[..|xs| - 1], key, below), key, below)
  }

  /** Sorting one element leaves it alone. */
  lemma SortBySingle<T, K>(x: T, key: T -> K, below: (K, K) -> bool)
    ensures SortBy([x], key, below) == [x]
  {
    assert [x][..0] == [];
  }

  /** Inserting adds exactly the one element. */
  lemma {:induction false} InsertPerm<T, K>(x: T, s: seq<T>, key: T -> K, below: (K, K) -> bool)
    ensures multiset(Insert(x, s, key, below)) == multiset(s) + multiset{x}
  {
    if s != [] && !below(key(x), key(s[0])) {
      InsertPerm(x, s[1..], key, below);
      assert s == [s[0]] + s[1..];
    }
  }

  lemma {:induction false} InsertSorted<T, K(!new)>(x: T, s: seq<T>, key: T -> K, below: (K, K) -> bool)
    requires StrictOrder(below) && SortedBy(s, key, below)
    ensures SortedBy(Insert(x, s, key, below), key, below)
  {
    if s != [] {
      if below(key(x), key(s[0])) {
        InsertFront(x, s, key, below);
      } else {
        SortedTail(s, key, below);
        InsertSorted(x, s[1..], key, below);
        InsertBehind(x, s, key, below);
      }
    }
  }

  /** `x` before the head of a sorted sequence whose head's key is above its own. */
  lemma InsertFront<T, K(!new)>(x: T, s: seq<T>, key: T -> K, below: (K, K) -> bool)
    requires StrictOrder(below) && SortedBy(s, key, below)
    requires s != [] && below(key(x), key(s[0]))
    ensures SortedBy([x] + s, key, below)
  {
    var r := [x] + s;
    forall i, j | 0 <= i < j < |r|
      ensures !below(key(r[j]), key(r[i]))
    {
      if i == 0 {
        assert r[j] == s[j - 1];
        assert j - 1 > 0 ==> !below(key(s[j - 1]), key(s[0]));
      } else {
        assert r[i] == s[i - 1] && r[j] == s[j - 1];
      }
    }
  }

  /** The head of `s` stays in front when `x` goes into its tail. */
  lemma InsertBehind<T, K(!new)>(x: T, s: seq<T>, key: T -> K, below: (K, K) -> bool)
    requires StrictOrder(below) && SortedBy(s, key, below)
    requires s != [] && !below(key(x), key(s[0]))
    requires SortedBy(Insert(x, s[1..], key, below), key, below)
    ensures SortedBy(Insert(x, s, key, below), key, below)
  {
    var rest := Insert(x, s[1..], key, below);
    InsertPerm(x, s[1..], key, below);
    var r := [s[0]] + rest;
    assert Insert(x, s, key, below) == r;
    forall i, j | 0 <= i < j < |r|
      ensures !below(key(r[j]), key(r[i]))
    {
      if i == 0 {
        var e := rest[j - 1];
        assert e in multiset(rest);
        if e != x {
          assert e in multiset(s[1..]);
          var k :| 0 <= k < |s[1..]| && s[1..][k] == e;
          assert s[k + 1] == e;
        }
      } else {
        assert r[i] == rest[i - 1] && r[j] == rest[j - 1];
      }
    }
  }

  /** `sorted` orders its result by the key. */
  lemma {:induction false} SortBySorted<T, K(!new)>(xs: seq<T>, key: T -> K, below: (K, K) -> bool)
    requires StrictOrder(below)
    ensures SortedBy(SortBy(xs, key, below), key, below)
  {
    if xs != [] {
      SortBySorted(xs[..|xs| - 1], key, below);
      InsertSorted(xs[|xs| - 1], SortBy(xs[..|xs| - 1], key, below), key, below);
    }
  }

  /** The elements of `xs` whose key is `k`, in order. */
  function Having<T, K(==)>(xs: seq<T>, key: T -> K, k: K): (r: seq<T>)
    ensures |r| <= |xs|
  {
    if xs == [] then []
    else Having(xs[..|xs| - 1], key, k) + (if key(xs[|xs| - 1]) == k then [xs[|xs| - 1]] else [])
  }

  lemma {:induction false} HavingCons<T, K>(x: T, s: seq<T>, key: T -> K, k: K)
    ensures Having([x] + s, key, k) == (if key(x) == k then [x] else []) + Having(s, key, k)
    decreases |s|
  {
    if s != [] {
      var init := ([x] + s)[..|[x] + s| - 1];
      assert init == [x] + s[..|s| - 1];
      HavingCons(x, s[..|s| - 1], key, k);
    } else {
      assert [x] + s == [x];
      assert [x][..0] == [];
    }
  }

  lemma {:induction false} HavingNone<T, K>(s: seq<T>, key: T -> K, k: K)
    requires forall i :: 0 <= i < |s| ==> key(s[i]) != k
    ensures Having(s, key, k) == []
  {
    if s != [] {
      HavingNone(s[..|s| - 1], key, k);
    }
  }

  /** Inserting `x` adds it after the elements of its key and changes no other key's elements. */
  lemma {:induction false} InsertHaving<T, K(!new)>(x: T, s: seq<T>, key: T -> K, below: (K, K) -> bool, k: K)
    requires (forall a :: !below(a, a)) && SortedBy(s, key, below)
    ensures Having(Insert(x, s, key, below), key, k) == Having(s, key, k) + (if key(x) == k then [x] else [])
  {
    if s == [] {
      assert [x][..0] == [];
    } else if below(key(x), key(s[0])) {
      HavingCons(x, s, key, k);
      if key(x) == k {
        HavingBelowFirst(x, s, key, below, k);
      }
    } else {
      SortedTail(s, key, below);
      InsertHaving(x, s[1..], key, below, k);
      InsertHavingStep(x, s, key, below, k);
    }
  }

  lemma InsertHavingStep<T, K>(x: T, s: seq<T>, key: T -> K, below: (K, K) -> bool, k: K)
    requires s != [] && !below(key(x), key(s[0]))
    requires Having(Insert(x, s[1..], key, below), key, k) == Having(s[1..], key, k) + (if key(x) == k then [x] else [])
    ensures Having(Insert(x, s, key, below), key, k) == Having(s, key, k) + (if key(x) == k then [x] else [])
  {
    var rest := Insert(x, s[1..], key, below);
    assert Insert(x, s, key, below) == [s[0]] + rest;
    assert [s[0]] + s[1..] == s;
    HavingConsAppend(s[0], rest, s[1..], key, k, if key(x) == k then [x] else []);
  }

  lemma HavingConsAppend<T, K>(a: T, t: seq<T>, u: seq<T>, key: T -> K, k: K, extra: seq<T>)
    requires Having(t, key, k) == Having(u, key, k) + extra
    ensures Having([a] + t, key, k) == Having([a] + u, key, k) + extra
  {
    HavingCons(a, t, key, k);
    HavingCons(a, u, key, k);
    ConcatAssoc(if key(a) == k then [a] else [], Having(u, key, k), extra);
  }

  lemma ConcatAssoc<T>(a: seq<T>, b: seq<T>, c: seq<T>)
    ensures a + (b + c) == (a + b) + c
  {
  }

  /** Appending one more element of `s` to a prefix-extended sequence. */
  lemma AppendSliceSnoc<T>(a: seq<T>, s: seq<T>, m: nat)
    requires 0 < m <= |s|
    ensures a + s[..m] == (a + s[..m - 1]) + [s[m - 1]]
  {
    assert s[..m] == s[..m - 1] + [s[m - 1]];
  }

  lemma SortedTail<T, K>(s: seq<T>, key: T -> K, below: (K, K) -> bool)
    requires s != [] && SortedBy(s, key, below)
    ensures SortedBy(s[1..], key, below)
  {
    forall i, j | 0 <= i < j < |s[1..]|
      ensures !below(key(s[1..][j]), key(s[1..][i]))
    {
      assert s[1..][j] == s[j + 1] && s[1..][i] == s[i + 1];
    }
  }

  /** No element of a sorted sequence shares the key of one placed before its head. */
  lemma HavingBelowFirst<T, K(!new)>(x: T, s: seq<T>, key: T -> K, below: (K, K) -> bool, k: K)
    requires (forall a :: !below(a, a)) && SortedBy(s, key, below)
    requires s != [] && below(key(x), key(s[0])) && key(x) == k
    ensures Having(s, key, k) == []
  {
    forall i | 0 <= i < |s|
      ensures key(s[i]) != k
    {
      assert i > 0 ==> !below(key(s[i]), key(s[0]));
    }
    HavingNone(s, key, k);
  }

  /** `sorted` is stable: the elements sharing a key keep their input order. */
  lemma {:induction false} SortByStable<T, K(!new)>(xs: seq<T>, key: T -> K, below: (K, K) -> bool, k: K)
    requires StrictOrder(below)
    ensures Having(SortBy(xs, key, below), key, k) == Having(xs, key, k)
  {
    if xs != [] {
      var init := xs[..|xs| - 1];
      SortByStable(init, key, below, k);
      SortBySorted(init, key, below);
      InsertHaving(xs[|xs| - 1], SortBy(init, key, below), key, below, k);
    }
  }

  lemma {:induction false} HavingAppend<T, K>(a: seq<T>, b: seq<T>, key: T -> K, k: K)
    ensures Having(a + b, key, k) == Having(a, key, k) + Having(b, key, k)
    decreases |b|
  {
    if b == [] {
      assert a + b == a;
    } else {
      var init := b[..|b| - 1];
      assert (a + b)[..|a + b| - 1] == a + init;
      HavingAppend(a, init, key, k);
    }
  }

  lemma {:induction false} HavingAll<T, K>(s: seq<T>, key: T -> K, k: K)
    requires forall i :: 0 <= i < |s| ==> key(s[i]) == k
    ensures Having(s, key, k) == s
  {
    if s != [] {
      HavingAll(s[..|s| - 1], key, k);
    }
  }

  /** Python's `a < b` on tuples of strings: the first differing field decides, a proper prefix is smaller. */
  predicate FieldsBelow(a: seq<string>, b: seq<string>)
  {
    if a == [] then b != []
    else b != [] && (Below(a[0], b[0]) || (a[0] == b[0] && FieldsBelow(a[1..], b[1..])))
  }

  lemma {:induction false} FieldsIrreflexive(a: seq<string>)
    ensures !FieldsBelow(a, a)
  {
    if a != [] {
      BelowIrreflexive(a[0]);
      FieldsIrreflexive(a[1..]);
    }
  }

  lemma {:induction false} FieldsTransitive(a: seq<string>, b: seq<string>, c: seq<string>)
    requires FieldsBelow(a, b) && FieldsBelow(b, c)
    ensures FieldsBelow(a, c)
  {
    if a != [] {
      if Below(a[0], b[0]) && Below(b[0], c[0]) {
        BelowTransitive(a[0], b[0], c[0]);
      } else if a[0] == b[0] && b[0] == c[0] {
        FieldsTransitive(a[1..], b[1..], c[1..]);
      }
    }
  }

  lemma {:induction false} FieldsTotal(a: seq<string>, b: seq<string>)
    requires a != b
    ensures FieldsBelow(a, b) || FieldsBelow(b, a)
  {
    if a != [] && b != [] {
      if a[0] != b[0] {
        BelowTotal(a[0], b[0]);
      } else {
        assert a == [a[0]] + a[1..] && b == [b[0]] + b[1..];
        FieldsTotal(a[1..], b[1..]);
      }
    }
  }

  /** The tuple order is a strict total order. */
  lemma FieldsOrder()
    ensures StrictOrder(FieldsBelow)
  {
    forall a: seq<string> ensures !FieldsBelow(a, a) {
      FieldsIrreflexive(a);
    }
    forall a: seq<string>, b: seq<string>, c: seq<string> | FieldsBelow(a, b) && FieldsBelow(b, c)
      ensures FieldsBelow(a, c)
    {
      FieldsTransitive(a, b, c);
    }
    forall a: seq<string>, b: seq<string> | a != b
      ensures FieldsBelow(a, b) || FieldsBelow(b, a)
    {
      FieldsTotal(a, b);
    }
  }
}
