/** The array built-ins the extractor and the list view use: `sort` with a numeric
    comparator `(a, b) => key(a) - key(b)`, `filter`, and the "push when present" loop
    that collects what a callback yields. The ECMAScript sort is stable (since ES2019),
    so it is modelled as a stable insertion sort: elements with equal keys keep their
    order. */
module Arrays {
  import opened Maybe

  /** Keys never decrease from left to right. */
  predicate SortedBy<T>(xs: seq<T>, key: T -> int) {
    forall i, j :: 0 <= i < j < |xs| ==> key(xs[i]) <= key(xs[j])
  }

  /** Keys strictly increase from left to right. */
  predicate StrictlySortedBy<T>(xs: seq<T>, key: T -> int) {
    forall i, j :: 0 <= i < j < |xs| ==> key(xs[i]) < key(xs[j])
  }

  /** The elements of `xs` whose key is `v`, in their order in `xs`. */
  function WithKey<T>(xs: seq<T>, key: T -> int, v: int): seq<T> {
    if xs == [] then [] else (if key(xs[0]) == v then [xs[0]] else []) + WithKey(xs[1..], key, v)
  }

  /** `x` placed after every element whose key is not greater than its own. */
  function Insert<T>(x: T, xs: seq<T>, key: T -> int): (r: seq<T>)
    ensures |r| == |xs| + 1
    ensures multiset(r) == multiset(xs) + multiset{x}
  {
    if xs == [] then [x]
    else if key(x) < key(xs[0]) then [x] + xs
    else
      assert xs == [xs[0]] + xs[1..];
      [xs[0]] + Insert(x, xs[1..], key)
  }

  /** A lower bound of every key going in bounds every key coming out. */
  lemma {:induction false} InsertBounded<T>(x: T, xs: seq<T>, key: T -> int, lo: int)
    requires lo <= key(x)
    requires forall i :: 0 <= i < |xs| ==> lo <= key(xs[i])
    ensures forall i :: 0 <= i < |Insert(x, xs, key)| ==> lo <= key(Insert(x, xs, key)[i])
  {
    if xs != [] && key(xs[0]) <= key(x) {
      InsertBounded(x, xs[1..], key, lo);
    }
  }

  /** Inserting into sorted input keeps it sorted. */
  lemma {:induction false} InsertSorted<T>(x: T, xs: seq<T>, key: T -> int)
    requires SortedBy(xs, key)
    ensures SortedBy(Insert(x, xs, key), key)
  {
    if xs != [] && key(xs[0]) <= key(x) {
      InsertSorted(x, xs[1..], key);
      InsertBounded(x, xs[1..], key, key(xs[0]));
    }
  }

  /** The stable sort of `xs` by ascending key. */
  function SortBy<T>(xs: seq<T>, key: T -> int): (r: seq<T>)
    ensures |r| == |xs|
    ensures multiset(r) == multiset(xs)
    ensures SortedBy(r, key)
  {
    if xs == [] then []
    else
      var init := xs[..|xs| - 1];
      assert xs == init + [xs[|xs| - 1]];
      InsertSorted(xs[|xs| - 1], SortBy(init, key), key);
      Insert(xs[|xs| - 1], SortBy(init, key), key)
  }

  /** `xs.filter(p)`. */
  function Filter<T>(xs: seq<T>, p: T -> bool): (r: seq<T>)
    ensures |r| <= |xs|
    ensures forall i :: 0 <= i < |r| ==> r[i] in xs && p(r[i])
    ensures forall i :: 0 <= i < |xs| && p(xs[i]) ==> xs[i] in r
    ensures multiset(r) <= multiset(xs)
  {
    if xs == [] then []
    else
      assert xs == [xs[0]] + xs[1..];
      (if p(xs[0]) then [xs[0]] else []) + Filter(xs[1..], p)
  }

  // ---------------------------------------------------------------------------
  // stability

  lemma {:induction false} WithKeyConcat<T>(a: seq<T>, b: seq<T>, key: T -> int, v: int)
    ensures WithKey(a + b, key, v) == WithKey(a, key, v) + WithKey(b, key, v)
  {
    if a != [] {
      assert (a + b)[0] == a[0];
      assert (a + b)[1..] == a[1..] + b;
      WithKeyConcat(a[1..], b, key, v);
    } else {
      assert a + b == b;
    }
  }

  lemma {:induction false} WithKeyNone<T>(xs: seq<T>, key: T -> int, v: int)
    requires forall i :: 0 <= i < |xs| ==> key(xs[i]) != v
    ensures WithKey(xs, key, v) == []
  {
    if xs != [] {
      WithKeyNone(xs[1..], key, v);
    }
  }

  lemma WithKeyCons<T>(x: T, xs: seq<T>, key: T -> int, v: int)
    ensures WithKey([x] + xs, key, v) == (if key(x) == v then [x] else []) + WithKey(xs, key, v)
  {
    var ys := [x] + xs;
    assert ys[0] == x && ys[1..] == xs;
  }

  /** Inserting appends `x` to the elements sharing its key and leaves the others alone. */
  lemma {:induction false} InsertStable<T>(x: T, xs: seq<T>, key: T -> int, v: int)
    requires SortedBy(xs, key)
    ensures WithKey(Insert(x, xs, key), key, v) == WithKey(xs, key, v) + (if key(x) == v then [x] else [])
  {
    if xs == [] {
      WithKeyCons(x, [], key, v);
      assert [x] + [] == [x];
    } else if key(x) < key(xs[0]) {
      InsertStableFront(x, xs, key, v);
    } else {
      InsertStable(x, xs[1..], key, v);
      InsertStableSkip(x, xs, key, v);
    }
  }

  lemma InsertStableFront<T>(x: T, xs: seq<T>, key: T -> int, v: int)
    requires SortedBy(xs, key)
    requires xs != [] && key(x) < key(xs[0])
    ensures WithKey(Insert(x, xs, key), key, v) == WithKey(xs, key, v) + (if key(x) == v then [x] else [])
  {
    assert Insert(x, xs, key) == [x] + xs;
    WithKeyCons(x, xs, key, v);
    if key(x) == v {
      assert forall i :: 0 <= i < |xs| ==> key(xs[0]) <= key(xs[i]);
      WithKeyNone(xs, key, v);
    }
  }

  lemma InsertStableSkip<T>(x: T, xs: seq<T>, key: T -> int, v: int)
    requires xs != [] && key(xs[0]) <= key(x)
    requires WithKey(Insert(x, xs[1..], key), key, v) == WithKey(xs[1..], key, v) + (if key(x) == v then [x] else [])
    ensures WithKey(Insert(x, xs, key), key, v) == WithKey(xs, key, v) + (if key(x) == v then [x] else [])
  {
    assert Insert(x, xs, key) == [xs[0]] + Insert(x, xs[1..], key);
    assert xs == [xs[0]] + xs[1..];
    WithKeyShift(xs[0], Insert(x, xs[1..], key), xs[1..], key, v, if key(x) == v then [x] else []);
  }

  /** Putting the same element in front of two sequences keeps a relation between
      their elements with a key. */
  lemma WithKeyShift<T>(a: T, rest: seq<T>, tail: seq<T>, key: T -> int, v: int, t: seq<T>)
    requires WithKey(rest, key, v) == WithKey(tail, key, v) + t
    ensures WithKey([a] + rest, key, v) == WithKey([a] + tail, key, v) + t
  {
    WithKeyCons(a, rest, key, v);
    WithKeyCons(a, tail, key, v);
    ConcatAssoc(if key(a) == v then [a] else [], WithKey(tail, key, v), t);
  }

  lemma ConcatAssoc<T>(a: seq<T>, b: seq<T>, c: seq<T>)
    ensures a + (b + c) == (a + b) + c
  {
  }

  /** The sort is stable: for every key, the elements carrying it come out in the order
      they went in. */
  lemma {:induction false} SortStable<T>(xs: seq<T>, key: T -> int, v: int)
    ensures WithKey(SortBy(xs, key), key, v) == WithKey(xs, key, v)
  {
    if xs != [] {
      var init := xs[..|xs| - 1];
      var last := xs[|xs| - 1];
      assert xs == init + [last];
      SortStable(init, key, v);
      SortStableStep(init, last, key, v);
    }
  }

  lemma SortStableStep<T>(init: seq<T>, last: T, key: T -> int, v: int)
    requires WithKey(SortBy(init, key), key, v) == WithKey(init, key, v)
    ensures WithKey(SortBy(init + [last], key), key, v) == WithKey(init + [last], key, v)
  {
    var xs := init + [last];
    assert xs[..|xs| - 1] == init && xs[|xs| - 1] == last;
    assert SortBy(xs, key) == Insert(last, SortBy(init, key), key);
    InsertStable(last, SortBy(init, key), key, v);
    WithKeyConcat(init, [last], key, v);
    WithKeyCons(last, [], key, v);
    assert [last] + [] == [last];
  }

  // ---------------------------------------------------------------------------
  // already sorted input

  lemma {:induction false} InsertAtEnd<T>(x: T, xs: seq<T>, key: T -> int)
    requires SortedBy(xs, key)
    requires forall i :: 0 <= i < |xs| ==> key(xs[i]) <= key(x)
    ensures Insert(x, xs, key) == xs + [x]
  {
    if xs != [] {
      InsertAtEnd(x, xs[1..], key);
      assert xs == [xs[0]] + xs[1..];
    }
  }

  /** Sorting input that is already in key order changes nothing. */
  lemma {:induction false} SortSortedIsIdentity<T>(xs: seq<T>, key: T -> int)
    requires SortedBy(xs, key)
    ensures SortBy(xs, key) == xs
  {
    if xs != [] {
      var init := xs[..|xs| - 1];
      var last := xs[|xs| - 1];
      assert xs == init + [last];
      SortSortedIsIdentity(init, key);
      InsertAtEnd(last, init, key);
    }
  }

  /** Filtering keeps the relative order of what it keeps. */
  lemma {:induction false} FilterKeepsSorted<T>(xs: seq<T>, p: T -> bool, key: T -> int)
    requires SortedBy(xs, key)
    ensures SortedBy(Filter(xs, p), key)
  {
    if xs != [] {
      var rest := Filter(xs[1..], p);
      FilterKeepsSorted(xs[1..], p, key);
      assert forall i :: 0 <= i < |xs[1..]| ==> xs[1..][i] == xs[i + 1];
      FilterBounded(xs[1..], p, key, key(xs[0]));
      if p(xs[0]) {
        assert Filter(xs, p) == [xs[0]] + rest;
        ConsSorted(xs[0], rest, key);
      } else {
        assert Filter(xs, p) == rest;
      }
    }
  }

  lemma ConsSorted<T>(x: T, xs: seq<T>, key: T -> int)
    requires SortedBy(xs, key)
    requires forall i :: 0 <= i < |xs| ==> key(x) <= key(xs[i])
    ensures SortedBy([x] + xs, key)
  {
    var r := [x] + xs;
    assert forall i :: 1 <= i < |r| ==> r[i] == xs[i - 1];
  }

  /** A lower bound of every key going in bounds every key filtering keeps. */
  lemma {:induction false} FilterBounded<T>(xs: seq<T>, p: T -> bool, key: T -> int, lo: int)
    requires forall i :: 0 <= i < |xs| ==> lo <= key(xs[i])
    ensures forall i :: 0 <= i < |Filter(xs, p)| ==> lo <= key(Filter(xs, p)[i])
  {
    if xs != [] {
      assert forall i :: 0 <= i < |xs[1..]| ==> xs[1..][i] == xs[i + 1];
      FilterBounded(xs[1..], p, key, lo);
    }
  }

  /** Sorting by a key that no two elements share leaves the keys strictly increasing. */
  lemma DistinctKeysSortStrictly<T>(xs: seq<T>, key: T -> int)
    requires forall i, j :: 0 <= i < j < |xs| ==> key(xs[i]) != key(xs[j])
    ensures StrictlySortedBy(SortBy(xs, key), key)
  {
    var r := SortBy(xs, key);
    forall i, j | 0 <= i < j < |r| ensures key(r[i]) < key(r[j]) {
      if key(r[i]) == key(r[j]) {
        DistinctKeysWithKey(xs, key, key(r[i]));
        SortStable(xs, key, key(r[i]));
        WithKeyHasBoth(r, key, i, j);
        assert false;
      }
    }
  }

  lemma {:induction false} DistinctKeysWithKey<T>(xs: seq<T>, key: T -> int, v: int)
    requires forall i, j :: 0 <= i < j < |xs| ==> key(xs[i]) != key(xs[j])
    ensures |WithKey(xs, key, v)| <= 1
  {
    if xs != [] {
      DistinctKeysWithKey(xs[1..], key, v);
      if key(xs[0]) == v {
        WithKeyNone(xs[1..], key, v);
      }
    }
  }

  lemma {:induction false} WithKeyHasBoth<T>(xs: seq<T>, key: T -> int, i: nat, j: nat)
    requires i < j < |xs| && key(xs[i]) == key(xs[j])
    ensures |WithKey(xs, key, key(xs[i]))| >= 2
  {
    var v := key(xs[i]);
    if i == 0 {
      WithKeyContains(xs[1..], key, j - 1);
    } else {
      WithKeyHasBoth(xs[1..], key, i - 1, j - 1);
    }
  }

  lemma {:induction false} WithKeyContains<T>(xs: seq<T>, key: T -> int, j: nat)
    requires j < |xs|
    ensures |WithKey(xs, key, key(xs[j]))| >= 1
  {
    if j > 0 {
      WithKeyContains(xs[1..], key, j - 1);
    }
  }

  lemma {:induction false} FilterConcat<T>(a: seq<T>, b: seq<T>, p: T -> bool)
    ensures Filter(a + b, p) == Filter(a, p) + Filter(b, p)
  {
    if a == [] {
      assert a + b == b;
    } else {
      assert (a + b)[0] == a[0];
      assert (a + b)[1..] == a[1..] + b;
      FilterConcat(a[1..], b, p);
    }
  }

  /** A filter every element passes keeps everything. */
  lemma {:induction false} FilterAll<T>(xs: seq<T>, p: T -> bool)
    requires forall i :: 0 <= i < |xs| ==> p(xs[i])
    ensures Filter(xs, p) == xs
  {
    if xs != [] {
      FilterAll(xs[1..], p);
    }
  }

  /** Two tests that agree on every element filter alike. */
  lemma {:induction false} SameFilter<T>(xs: seq<T>, p: T -> bool, q: T -> bool)
    requires forall i :: 0 <= i < |xs| ==> p(xs[i]) == q(xs[i])
    ensures Filter(xs, p) == Filter(xs, q)
  {
    if xs != [] {
      SameFilter(xs[1..], p, q);
    }
  }

  /** Filtering twice is filtering once by both tests. */
  lemma {:induction false} FilterTwice<T>(xs: seq<T>, p: T -> bool, q: T -> bool, both: T -> bool)
    requires forall i :: 0 <= i < |xs| ==> both(xs[i]) == (p(xs[i]) && q(xs[i]))
    ensures Filter(Filter(xs, p), q) == Filter(xs, both)
  {
    if xs != [] {
      FilterTwice(xs[1..], p, q, both);
      var head := if p(xs[0]) then [xs[0]] else [];
      FilterConcat(head, Filter(xs[1..], p), q);
      assert Filter(head, q) == if p(xs[0]) && q(xs[0]) then [xs[0]] else [] by {
        if p(xs[0]) {
          assert Filter(head, q) == (if q(xs[0]) then [xs[0]] else []) + Filter(head[1..], q);
        }
      }
    }
  }

  // ---------------------------------------------------------------------------
  // map

  /** `xs.map(f)`. */
  function MapSeq<T, U>(xs: seq<T>, f: T -> U): (r: seq<U>)
    ensures |r| == |xs|
    ensures forall i :: 0 <= i < |xs| ==> r[i] == f(xs[i])
  {
    seq(|xs|, i requires 0 <= i < |xs| => f(xs[i]))
  }

  /** A test on mapped values, read as a test on the original elements. */
  function Pull<T, U>(p: U -> bool, f: T -> U): T -> bool {
    x => p(f(x))
  }

  lemma MapConcat<T, U>(a: seq<T>, b: seq<T>, f: T -> U)
    ensures MapSeq(a + b, f) == MapSeq(a, f) + MapSeq(b, f)
  {
  }

  /** Filtering and then mapping is mapping and then filtering. */
  lemma {:induction false} MapFilter<T, U>(xs: seq<T>, f: T -> U, p: U -> bool)
    ensures MapSeq(Filter(xs, Pull(p, f)), f) == Filter(MapSeq(xs, f), p)
  {
    if xs != [] {
      MapFilter(xs[1..], f, p);
      var q := Pull(p, f);
      assert q(xs[0]) == p(f(xs[0]));
      var head := if q(xs[0]) then [xs[0]] else [];
      var rest := Filter(xs[1..], q);
      assert Filter(xs, q) == head + rest;
      MapConcat(head, rest, f);
      var ys := MapSeq(xs, f);
      assert ys[0] == f(xs[0]);
      assert ys[1..] == MapSeq(xs[1..], f);
      assert MapSeq(head, f) == if p(ys[0]) then [ys[0]] else [];
      assert Filter(ys, p) == (if p(ys[0]) then [ys[0]] else []) + Filter(ys[1..], p);
    }
  }

  /** Mapping two arrangements of the same elements gives arrangements of the same values. */
  lemma {:induction false} MapMultiset<T, U>(a: seq<T>, b: seq<T>, f: T -> U)
    requires multiset(a) == multiset(b)
    ensures multiset(MapSeq(a, f)) == multiset(MapSeq(b, f))
    decreases |a|
  {
    if a != [] {
      var x := a[0];
      assert x in multiset(b);
      var j :| 0 <= j < |b| && b[j] == x;
      var rest := b[..j] + b[j + 1..];
      assert b == b[..j] + [x] + b[j + 1..];
      assert a == [x] + a[1..];
      assert multiset(a[1..]) == multiset(a) - multiset{x};
      assert multiset(rest) == multiset(b) - multiset{x};
      MapMultiset(a[1..], rest, f);
      MapConcat([x], a[1..], f);
      MapConcat(b[..j] + [x], b[j + 1..], f);
      MapConcat(b[..j], [x], f);
      MapConcat(b[..j], b[j + 1..], f);
    }
  }

  // ---------------------------------------------------------------------------
  // collecting what a callback yields

  /** A present value as a one-element sequence, an absent one as the empty sequence. */
  function Emitted<U>(o: Option<U>): (out: seq<U>)
    ensures o.None? ==> out == []
    ensures o.Some? ==> out == [o.value]
  {
    match o
    case None => []
    case Some(u) => [u]
  }

  /** What `f` yields for each element, in order; elements it yields nothing for drop out. */
  function FilterMap<T, U>(xs: seq<T>, f: T -> Option<U>): (r: seq<U>)
    ensures |r| <= |xs|
  {
    if xs == [] then [] else Emitted(f(xs[0])) + FilterMap(xs[1..], f)
  }

  lemma {:induction false} FilterMapConcat<T, U>(a: seq<T>, b: seq<T>, f: T -> Option<U>)
    ensures FilterMap(a + b, f) == FilterMap(a, f) + FilterMap(b, f)
  {
    if a == [] {
      assert a + b == b;
    } else {
      assert (a + b)[0] == a[0];
      assert (a + b)[1..] == a[1..] + b;
      FilterMapConcat(a[1..], b, f);
    }
  }

  /** A value is collected exactly when some element yields it. */
  lemma {:induction false} FilterMapMembers<T, U>(xs: seq<T>, f: T -> Option<U>, u: U)
    ensures u in FilterMap(xs, f) <==> exists k :: 0 <= k < |xs| && f(xs[k]) == Some(u)
  {
    if xs != [] {
      FilterMapMembers(xs[1..], f, u);
      assert forall k :: 1 <= k < |xs| ==> xs[1..][k - 1] == xs[k];
      if f(xs[0]) != Some(u) && u in FilterMap(xs, f) {
        assert u in FilterMap(xs[1..], f);
        var k :| 0 <= k < |xs[1..]| && f(xs[1..][k]) == Some(u);
        assert f(xs[k + 1]) == Some(u);
      }
    }
  }

  /** The same, for the elements from index `start` on. */
  lemma FilterMapMembersFrom<T, U>(xs: seq<T>, start: nat, f: T -> Option<U>, u: U)
    requires start <= |xs|
    ensures u in FilterMap(xs[start..], f) <==> exists k :: start <= k < |xs| && f(xs[k]) == Some(u)
  {
    FilterMapMembers(xs[start..], f, u);
    assert forall k :: start <= k < |xs| ==> xs[start..][k - start] == xs[k];
    if u in FilterMap(xs[start..], f) {
      var k :| 0 <= k < |xs[start..]| && f(xs[start..][k]) == Some(u);
      assert f(xs[k + start]) == Some(u);
    }
  }

  /** The concatenation of what `f` yields for each element, in order. */
  function FlatMap<T, U>(xs: seq<T>, f: T -> seq<U>): seq<U> {
    if xs == [] then [] else f(xs[0]) + FlatMap(xs[1..], f)
  }

  /** A value is in the concatenation exactly when some element yields it. */
  lemma {:induction false} FlatMapMembers<T, U>(xs: seq<T>, f: T -> seq<U>, u: U)
    ensures u in FlatMap(xs, f) <==> exists k :: 0 <= k < |xs| && u in f(xs[k])
  {
    if xs != [] {
      FlatMapMembers(xs[1..], f, u);
      assert forall k :: 1 <= k < |xs| ==> xs[1..][k - 1] == xs[k];
      if u !in f(xs[0]) && u in FlatMap(xs, f) {
        assert u in FlatMap(xs[1..], f);
        var k :| 0 <= k < |xs[1..]| && u in f(xs[1..][k]);
        assert u in f(xs[k + 1]);
      }
    }
  }

  /** An element that yields nothing can be dropped without changing the result. */
  lemma DropYieldingNothing<T, U>(before: seq<T>, x: T, after: seq<T>, f: T -> Option<U>)
    requires f(x).None?
    ensures FilterMap(before + [x] + after, f) == FilterMap(before + after, f)
  {
    FilterMapConcat(before + [x], after, f);
    FilterMapConcat(before, [x], f);
    FilterMapConcat(before, after, f);
    assert FilterMap([x], f) == Emitted(f(x)) + FilterMap([x][1..], f);
  }
}
