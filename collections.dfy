/**
 The three sequence operations the pattern list is built from, as the
 TypeScript code uses them: `Array.prototype.filter`, lodash `partition`, and
 lodash `groupBy` read back through lodash `entries`.

 Each is written as a left fold (the last element is handled last), which is
 the order in which the JavaScript implementations walk the array. Each comes
 with an independent description of its result (a stable filter, an
 interleaving, a grouping by key) and lemmas tying the two together.
 */
module Collections {

  /** A bucket of `groupBy(..)` as `entries(..)` yields it: the key and the items. */
  type Bucket<K, T> = (K, seq<T>)

  function Init<T>(xs: seq<T>): seq<T>
    requires xs != []
  {
    xs[..|xs| - 1]
  }

  function Last<T>(xs: seq<T>): T
    requires xs != []
  {
    xs[|xs| - 1]
  }

  lemma InitLast<T>(xs: seq<T>)
    requires xs != []
    ensures xs == Init(xs) + [Last(xs)]
  {
  }

  // ---------------------------------------------------------------- filter

  /**
   `xs.filter(keep)`: the elements of `xs` that satisfy `keep`, in order.
   `FilterCount` shows that every occurrence of a kept element stays and all
   others go; the order is fixed by `FilterAppend`, and
   `StablePartitionIsPartition` shows that the filter is the only
   order-keeping choice.
   */
  function Filter<T>(xs: seq<T>, keep: T -> bool): (r: seq<T>)
    ensures |r| <= |xs|
    ensures forall x :: x in r ==> x in xs && keep(x)
    ensures forall x :: x in xs && keep(x) ==> x in r
    ensures multiset(r) <= multiset(xs)
  {
    if xs == [] then []
    else
      InitLast(xs);
      var r0 := Filter(Init(xs), keep);
      if keep(Last(xs)) then r0 + [Last(xs)] else r0
  }

  /** The filter keeps every occurrence of a kept value and none of the others. */
  lemma {:induction false} FilterCount<T>(xs: seq<T>, keep: T -> bool, x: T)
    ensures multiset(Filter(xs, keep))[x] == if keep(x) then multiset(xs)[x] else 0
  {
    if xs != [] {
      InitLast(xs);
      FilterCount(Init(xs), keep, x);
      assert multiset(xs) == multiset(Init(xs)) + multiset{Last(xs)};
    }
  }

  function Not<T>(p: T -> bool): T -> bool {
    x => !p(x)
  }

  lemma {:induction false} FilterAppend<T>(xs: seq<T>, ys: seq<T>, keep: T -> bool)
    ensures Filter(xs + ys, keep) == Filter(xs, keep) + Filter(ys, keep)
    decreases |ys|
  {
    if ys == [] {
      assert xs + ys == xs;
    } else {
      assert Init(xs + ys) == xs + Init(ys);
      assert Last(xs + ys) == Last(ys);
      FilterAppend(xs, Init(ys), keep);
    }
  }

  /** Filtering by a predicate that holds nowhere on `xs` keeps nothing. */
  lemma {:induction false} FilterNone<T>(xs: seq<T>, keep: T -> bool)
    requires forall i :: 0 <= i < |xs| ==> !keep(xs[i])
    ensures Filter(xs, keep) == []
  {
    if xs != [] {
      FilterNone(Init(xs), keep);
    }
  }

  /** Filtering by a predicate that holds everywhere on `xs` keeps `xs` whole. */
  lemma {:induction false} FilterAll<T>(xs: seq<T>, keep: T -> bool)
    requires forall x :: x in xs ==> keep(x)
    ensures Filter(xs, keep) == xs
  {
    if xs != [] {
      InitLast(xs);
      FilterAll(Init(xs), keep);
    }
  }

  /** Filtering twice is filtering once by the stronger of the two predicates. */
  lemma {:induction false} FilterFilter<T>(xs: seq<T>, outer: T -> bool, inner: T -> bool, both: T -> bool)
    requires forall x :: x in xs ==> (both(x) <==> inner(x) && outer(x))
    ensures Filter(Filter(xs, inner), outer) == Filter(xs, both)
  {
    if xs != [] {
      InitLast(xs);
      FilterFilter(Init(xs), outer, inner, both);
      var x := Last(xs);
      if inner(x) {
        FilterAppend(Filter(Init(xs), inner), [x], outer);
      }
    }
  }

  // ------------------------------------------------------------- partition

  /**
   `xs` is a merge of `a` and `b`: it can be dealt out, element by element and
   in order, into `a` and `b`.
   */
  ghost predicate Interleaves<T>(xs: seq<T>, a: seq<T>, b: seq<T>)
    decreases |xs|
  {
    if xs == [] then a == [] && b == []
    else
      || (a != [] && Last(a) == Last(xs) && Interleaves(Init(xs), Init(a), b))
      || (b != [] && Last(b) == Last(xs) && Interleaves(Init(xs), a, Init(b)))
  }

  /**
   `(a, b)` is a stable partition of `xs` by `p`: `a` holds the elements that
   satisfy `p`, `b` those that do not, and each keeps the order of `xs`.
   */
  ghost predicate StablePartition<T>(xs: seq<T>, p: T -> bool, a: seq<T>, b: seq<T>) {
    && Interleaves(xs, a, b)
    && (forall x :: x in a ==> p(x))
    && (forall x :: x in b ==> !p(x))
  }

  /** lodash `partition(xs, p)`: the pair (elements satisfying `p`, the others). */
  function Partition<T>(xs: seq<T>, p: T -> bool): (r: (seq<T>, seq<T>))
    ensures r.0 == Filter(xs, p) && r.1 == Filter(xs, Not(p))
    ensures |r.0| + |r.1| == |xs|
  {
    if xs == [] then ([], [])
    else
      var r0 := Partition(Init(xs), p);
      if p(Last(xs)) then (r0.0 + [Last(xs)], r0.1) else (r0.0, r0.1 + [Last(xs)])
  }

  lemma PartitionSnoc<T>(xs: seq<T>, x: T, p: T -> bool)
    ensures Partition(xs + [x], p) ==
      if p(x) then (Partition(xs, p).0 + [x], Partition(xs, p).1)
      else (Partition(xs, p).0, Partition(xs, p).1 + [x])
  {
    assert Init(xs + [x]) == xs;
  }

  /** What `Partition` returns is a stable partition; the two parts share no element. */
  lemma {:induction false} PartitionIsStable<T>(xs: seq<T>, p: T -> bool)
    ensures StablePartition(xs, p, Partition(xs, p).0, Partition(xs, p).1)
    ensures forall x :: x in Partition(xs, p).0 ==> x !in Partition(xs, p).1
  {
    if xs != [] {
      PartitionIsStable(Init(xs), p);
      var r := Partition(xs, p);
      var r0 := Partition(Init(xs), p);
      if p(Last(xs)) {
        assert Init(r.0) == r0.0;
      } else {
        assert Init(r.1) == r0.1;
      }
    }
  }

  /** A stable partition is unique: it is the one `Partition` computes. */
  lemma {:induction false} StablePartitionIsPartition<T>(xs: seq<T>, p: T -> bool, a: seq<T>, b: seq<T>)
    requires StablePartition(xs, p, a, b)
    ensures (a, b) == Partition(xs, p)
    decreases |xs|
  {
    if xs != [] {
      if a != [] && Last(a) == Last(xs) && Interleaves(Init(xs), Init(a), b) {
        assert Last(a) in a;
        StablePartitionIsPartition(Init(xs), p, Init(a), b);
        InitLast(a);
      } else {
        assert Last(b) in b;
        StablePartitionIsPartition(Init(xs), p, a, Init(b));
        InitLast(b);
      }
    }
  }

  /** An interleaving is a permutation: every element of `xs` goes to exactly one side. */
  lemma {:induction false} InterleavesIsPermutation<T>(xs: seq<T>, a: seq<T>, b: seq<T>)
    requires Interleaves(xs, a, b)
    ensures multiset(xs) == multiset(a) + multiset(b)
    decreases |xs|
  {
    if xs != [] {
      InitLast(xs);
      if a != [] && Last(a) == Last(xs) && Interleaves(Init(xs), Init(a), b) {
        InterleavesIsPermutation(Init(xs), Init(a), b);
        InitLast(a);
      } else {
        InterleavesIsPermutation(Init(xs), a, Init(b));
        InitLast(b);
      }
    }
  }

  // --------------------------------------------------------- groupBy/entries

  function HasKey<T, K(==)>(key: T -> K, k: K): T -> bool {
    x => key(x) == k
  }

  /** The items of `xs` whose key is `k`, in order. */
  function Select<T, K(==)>(xs: seq<T>, key: T -> K, k: K): (r: seq<T>)
    ensures forall x :: x in r ==> x in xs && key(x) == k
    ensures forall x :: x in xs && key(x) == k ==> x in r
  {
    Filter(xs, HasKey(key, k))
  }

  lemma SelectSnoc<T, K>(xs: seq<T>, x: T, key: T -> K, k: K)
    ensures Select(xs + [x], key, k) == Select(xs, key, k) + (if key(x) == k then [x] else [])
  {
    assert Init(xs + [x]) == xs;
  }

  /** Adds `x` to the bucket with key `k`, or opens a new bucket at the end. */
  function AddToBucket<T, K(==)>(buckets: seq<Bucket<K, T>>, k: K, x: T): seq<Bucket<K, T>>
    decreases |buckets|
  {
    if buckets == [] then [(k, [x])]
    else if buckets[0].0 == k then [(k, buckets[0].1 + [x])] + buckets[1..]
    else [buckets[0]] + AddToBucket(buckets[1..], k, x)
  }

  /**
   `entries(groupBy(xs, key))`: one bucket per key, in the order in which the
   keys were first met, each holding that key's items in order. JavaScript
   enumerates integer-like property names ("0", "1", ...) before all others;
   this first-seen order is the source's order only for keys that are not
   such names, which the model assumes of group labels.
   */
  function GroupBy<T, K(==)>(xs: seq<T>, key: T -> K): seq<Bucket<K, T>>
  {
    if xs == [] then []
    else AddToBucket(GroupBy(Init(xs), key), key(Last(xs)), Last(xs))
  }

  lemma GroupBySnoc<T, K>(xs: seq<T>, x: T, key: T -> K)
    ensures GroupBy(xs + [x], key) == AddToBucket(GroupBy(xs, key), key(x), x)
  {
    assert Init(xs + [x]) == xs;
  }

  ghost predicate DistinctKeys<K, T>(buckets: seq<Bucket<K, T>>) {
    forall i, j :: 0 <= i < j < |buckets| ==> buckets[i].0 != buckets[j].0
  }

  /** The position of the first item of `xs` with key `k`, or `|xs|` when there is none. */
  ghost function FirstIndex<T, K>(xs: seq<T>, key: T -> K, k: K): (n: nat)
    ensures n <= |xs|
    ensures n < |xs| ==> key(xs[n]) == k
  {
    if xs == [] then 0
    else if key(xs[0]) == k then 0
    else 1 + FirstIndex(xs[1..], key, k)
  }

  /** No item before the first position of `k` has key `k`. */
  lemma {:induction false} FirstIndexIsFirst<T, K>(xs: seq<T>, key: T -> K, k: K, q: nat)
    requires q < |xs| && key(xs[q]) == k
    ensures FirstIndex(xs, key, k) <= q
  {
    if key(xs[0]) != k {
      FirstIndexIsFirst(xs[1..], key, k, q - 1);
    }
  }

  /** Appending an item moves no key's first position. */
  lemma FirstIndexSnoc<T, K>(xs: seq<T>, x: T, key: T -> K, k: K)
    ensures FirstIndex(xs + [x], key, k) ==
      if FirstIndex(xs, key, k) < |xs| then FirstIndex(xs, key, k)
      else if key(x) == k then |xs| else |xs| + 1
  {
    if xs != [] {
      assert (xs + [x])[1..] == xs[1..] + [x];
      FirstIndexSnoc(xs[1..], x, key, k);
    }
  }

  /** The buckets come in the order in which their keys first occur in `xs`. */
  ghost predicate FirstSeenOrder<T, K>(xs: seq<T>, key: T -> K, buckets: seq<Bucket<K, T>>) {
    forall i, j :: 0 <= i < j < |buckets| ==>
      FirstIndex(xs, key, buckets[i].0) < FirstIndex(xs, key, buckets[j].0)
  }

  /**
   `buckets` groups `xs` by `key`: distinct keys, each bucket non-empty and
   holding exactly the items with its key in their original order, every item's
   key present, and the buckets in order of their keys' first occurrence.
   */
  ghost predicate IsGrouping<T, K>(xs: seq<T>, key: T -> K, buckets: seq<Bucket<K, T>>) {
    && DistinctKeys(buckets)
    && (forall i :: 0 <= i < |buckets| ==> buckets[i].1 != [] && buckets[i].1 == Select(xs, key, buckets[i].0))
    && (forall x :: x in xs ==> exists i :: 0 <= i < |buckets| && buckets[i].0 == key(x))
    && FirstSeenOrder(xs, key, buckets)
  }

  /** What adding one item does to a list of buckets with distinct keys. */
  lemma {:induction false} AddToBucketShape<T, K>(buckets: seq<Bucket<K, T>>, k: K, x: T)
    requires DistinctKeys(buckets)
    ensures var r := AddToBucket(buckets, k, x);
      && |r| >= |buckets|
      && (forall i :: 0 <= i < |buckets| ==>
            r[i].0 == buckets[i].0 && r[i].1 == buckets[i].1 + (if buckets[i].0 == k then [x] else []))
      && ((exists i :: 0 <= i < |buckets| && buckets[i].0 == k) ==> |r| == |buckets|)
      && ((forall i :: 0 <= i < |buckets| ==> buckets[i].0 != k) ==> |r| == |buckets| + 1 && r[|buckets|] == (k, [x]))
    decreases |buckets|
  {
    if buckets != [] && buckets[0].0 != k {
      AddToBucketShape(buckets[1..], k, x);
      var r := AddToBucket(buckets, k, x);
      var r1 := AddToBucket(buckets[1..], k, x);
      assert r == [buckets[0]] + r1;
      forall i | 0 <= i < |buckets|
        ensures r[i].0 == buckets[i].0 && r[i].1 == buckets[i].1 + (if buckets[i].0 == k then [x] else [])
      {
        if i > 0 {
          assert r[i] == r1[i - 1] && buckets[i] == buckets[1..][i - 1];
        }
      }
      if exists i :: 0 <= i < |buckets| && buckets[i].0 == k {
        var i :| 0 <= i < |buckets| && buckets[i].0 == k;
        assert buckets[1..][i - 1].0 == k;
      }
    }
  }

  /** When some item has key `k`, that key has a first position. */
  lemma SelectNonEmpty<T, K>(xs: seq<T>, key: T -> K, k: K)
    requires Select(xs, key, k) != []
    ensures FirstIndex(xs, key, k) < |xs|
  {
    var y := Select(xs, key, k)[0];
    assert y in Select(xs, key, k);
    var p :| 0 <= p < |xs| && xs[p] == y;
    FirstIndexIsFirst(xs, key, k, p);
  }

  /** Adding the next item to a grouping of the items before it groups them all. */
  lemma AddToBucketKeepsGrouping<T, K>(xs: seq<T>, x: T, key: T -> K, g: seq<Bucket<K, T>>)
    requires IsGrouping(xs, key, g)
    ensures IsGrouping(xs + [x], key, AddToBucket(g, key(x), x))
  {
    AddToBucketShape(g, key(x), x);
    AddKeepsBuckets(xs, x, key, g);
    AddKeepsDistinct(xs, x, key, g);
    AddKeepsCoverage(xs, x, key, g);
    AddKeepsFirstIndex(xs, x, key, g);
    AddKeepsFirstSeenOrder(xs, x, key, g, AddToBucket(g, key(x), x));
  }

  lemma AddKeepsBuckets<T, K>(xs: seq<T>, x: T, key: T -> K, g: seq<Bucket<K, T>>)
    requires IsGrouping(xs, key, g)
    ensures var r := AddToBucket(g, key(x), x);
      forall i :: 0 <= i < |r| ==> r[i].1 != [] && r[i].1 == Select(xs + [x], key, r[i].0)
  {
    var r := AddToBucket(g, key(x), x);
    forall i | 0 <= i < |r|
      ensures r[i].1 != [] && r[i].1 == Select(xs + [x], key, r[i].0)
    {
      AddKeepsBucketAt(xs, x, key, g, i);
    }
  }

  lemma AddKeepsBucketAt<T, K>(xs: seq<T>, x: T, key: T -> K, g: seq<Bucket<K, T>>, i: nat)
    requires IsGrouping(xs, key, g)
    requires i < |AddToBucket(g, key(x), x)|
    ensures var r := AddToBucket(g, key(x), x);
      r[i].1 != [] && r[i].1 == Select(xs + [x], key, r[i].0)
  {
    AddToBucketShape(g, key(x), x);
    var r := AddToBucket(g, key(x), x);
    SelectSnoc(xs, x, key, r[i].0);
    if i == |g| {
      NewKeyNotSeen(xs, x, key, g);
    } else {
      assert g[i].1 == Select(xs, key, g[i].0);
    }
  }

  /** A key that opens a new bucket has no item in `xs`. */
  lemma NewKeyNotSeen<T, K>(xs: seq<T>, x: T, key: T -> K, g: seq<Bucket<K, T>>)
    requires IsGrouping(xs, key, g)
    requires forall i :: 0 <= i < |g| ==> g[i].0 != key(x)
    ensures Select(xs, key, key(x)) == []
    ensures FirstIndex(xs, key, key(x)) == |xs|
  {
    forall q | 0 <= q < |xs|
      ensures key(xs[q]) != key(x)
    {
      assert xs[q] in xs;
      var i :| 0 <= i < |g| && g[i].0 == key(xs[q]);
    }
    FilterNone(xs, HasKey(key, key(x)));
  }

  lemma AddKeepsDistinct<T, K>(xs: seq<T>, x: T, key: T -> K, g: seq<Bucket<K, T>>)
    requires IsGrouping(xs, key, g)
    ensures DistinctKeys(AddToBucket(g, key(x), x))
  {
    AddToBucketShape(g, key(x), x);
    var r := AddToBucket(g, key(x), x);
    forall i, j | 0 <= i < j < |r|
      ensures r[i].0 != r[j].0
    {
      if j == |g| {
        assert r[j].0 == key(x) && r[i].0 == g[i].0;
      }
    }
  }

  lemma AddKeepsCoverage<T, K>(xs: seq<T>, x: T, key: T -> K, g: seq<Bucket<K, T>>)
    requires IsGrouping(xs, key, g)
    ensures var r := AddToBucket(g, key(x), x);
      forall y :: y in xs + [x] ==> exists i :: 0 <= i < |r| && r[i].0 == key(y)
  {
    AddToBucketShape(g, key(x), x);
    var r := AddToBucket(g, key(x), x);
    forall y | y in xs + [x]
      ensures exists i :: 0 <= i < |r| && r[i].0 == key(y)
    {
      if y in xs {
        var i :| 0 <= i < |g| && g[i].0 == key(y);
        assert r[i].0 == key(y);
      } else if exists i :: 0 <= i < |g| && g[i].0 == key(x) {
        var i :| 0 <= i < |g| && g[i].0 == key(x);
        assert r[i].0 == key(y);
      } else {
        assert r[|g|].0 == key(y);
      }
    }
  }

  lemma AddKeepsFirstSeenOrder<T, K>(xs: seq<T>, x: T, key: T -> K, g: seq<Bucket<K, T>>, r: seq<Bucket<K, T>>)
    requires FirstSeenOrder(xs, key, g)
    requires |g| <= |r| <= |g| + 1
    requires forall i :: 0 <= i < |g| ==> FirstIndex(xs + [x], key, r[i].0) == FirstIndex(xs, key, g[i].0) < |xs|
    requires |r| > |g| ==> FirstIndex(xs + [x], key, r[|g|].0) == |xs|
    ensures FirstSeenOrder(xs + [x], key, r)
  {
    forall i, j | 0 <= i < j < |r|
      ensures FirstIndex(xs + [x], key, r[i].0) < FirstIndex(xs + [x], key, r[j].0)
    {
      assert FirstIndex(xs + [x], key, r[i].0) < |xs|;
      if j < |g| {
        assert FirstIndex(xs, key, g[i].0) < FirstIndex(xs, key, g[j].0);
      } else {
        assert j == |g|;
      }
    }
  }

  /** Adding an item keeps every old bucket's first position and puts a new one last. */
  lemma AddKeepsFirstIndex<T, K>(xs: seq<T>, x: T, key: T -> K, g: seq<Bucket<K, T>>)
    requires IsGrouping(xs, key, g)
    ensures var r := AddToBucket(g, key(x), x);
      && |g| <= |r| <= |g| + 1
      && (forall i :: 0 <= i < |g| ==>
            FirstIndex(xs + [x], key, r[i].0) == FirstIndex(xs, key, g[i].0) < |xs|)
      && (|r| > |g| ==> FirstIndex(xs + [x], key, r[|g|].0) == |xs|)
  {
    AddToBucketShape(g, key(x), x);
    var r := AddToBucket(g, key(x), x);
    forall i | 0 <= i < |g|
      ensures FirstIndex(xs + [x], key, r[i].0) == FirstIndex(xs, key, g[i].0) < |xs|
    {
      SelectNonEmpty(xs, key, g[i].0);
      FirstIndexSnoc(xs, x, key, g[i].0);
    }
    if |r| > |g| {
      FirstIndexSnoc(xs, x, key, key(x));
      NewKeyNotSeen(xs, x, key, g);
    }
  }

  /** `GroupBy` computes a grouping. */
  lemma {:induction false} GroupByIsGrouping<T, K>(xs: seq<T>, key: T -> K)
    ensures IsGrouping(xs, key, GroupBy(xs, key))
  {
    if xs != [] {
      GroupByIsGrouping(Init(xs), key);
      AddToBucketKeepsGrouping(Init(xs), Last(xs), key, GroupBy(Init(xs), key));
      InitLast(xs);
    }
  }

  /** A grouping is unique: the one `GroupBy` computes is the only one. */
  lemma {:induction false} GroupingIsGroupBy<T, K>(xs: seq<T>, key: T -> K, g: seq<Bucket<K, T>>)
    requires IsGrouping(xs, key, g)
    ensures g == GroupBy(xs, key)
    decreases |xs|
  {
    if xs != [] {
      var ys, x := Init(xs), Last(xs);
      InitLast(xs);
      var k := key(x);
      assert x in xs;
      var i0 :| 0 <= i0 < |g| && g[i0].0 == k;
      SelectSnoc(ys, x, key, k);
      var g0 := DropLast(ys, x, key, g, i0);
      GroupingIsGroupBy(ys, key, g0);
      GroupBySnoc(ys, x, key);
      var r := AddToBucket(g0, k, x);
      assert r == g;
      assert GroupBy(xs, key) == r;
    }
  }

  /**
   Takes the last item `x` out of a grouping of `ys + [x]`: its bucket `i0`
   loses `x`, and disappears when `x` was its only item.
   */
  lemma DropLast<T, K>(ys: seq<T>, x: T, key: T -> K, g: seq<Bucket<K, T>>, i0: nat) returns (g0: seq<Bucket<K, T>>)
    requires IsGrouping(ys + [x], key, g)
    requires i0 < |g| && g[i0].0 == key(x)
    ensures IsGrouping(ys, key, g0)
    ensures var r := AddToBucket(g0, key(x), x);
      |r| == |g| && forall i :: 0 <= i < |g| ==> r[i] == g[i]
  {
    var k := key(x);
    SelectSnoc(ys, x, key, k);
    assert g[i0].1 == Select(ys, key, k) + [x];
    OtherBucketsKeep(ys, x, key, g, i0);
    if Select(ys, key, k) != [] {
      g0 := g[i0 := (k, Select(ys, key, k))];
    } else {
      LoneKeyBucketIsLast(ys, x, key, g, i0);
      g0 := g[..i0];
    }
    DropKeepsGrouping(ys, x, key, g, i0, g0);
    RestoreLast(ys, x, key, g, i0, g0);
  }

  lemma RestoreLast<T, K>(ys: seq<T>, x: T, key: T -> K, g: seq<Bucket<K, T>>, i0: nat, g0: seq<Bucket<K, T>>)
    requires DistinctKeys(g) && DistinctKeys(g0)
    requires i0 < |g| && g[i0].0 == key(x)
    requires g[i0].1 == Select(ys, key, key(x)) + [x]
    requires
      || (Select(ys, key, key(x)) != [] && g0 == g[i0 := (key(x), Select(ys, key, key(x)))])
      || (Select(ys, key, key(x)) == [] && i0 == |g| - 1 && g0 == g[..i0])
    ensures var r := AddToBucket(g0, key(x), x);
      |r| == |g| && forall i :: 0 <= i < |g| ==> r[i] == g[i]
  {
    var k := key(x);
    AddToBucketShape(g0, k, x);
    var r := AddToBucket(g0, k, x);
    if Select(ys, key, k) != [] {
      assert g0[i0].0 == k;
      forall i | 0 <= i < |g|
        ensures r[i] == g[i]
      {
        if i != i0 {
          assert g0[i] == g[i] && g[i].0 != k;
          assert r[i].0 == g[i].0 && r[i].1 == g[i].1;
        } else {
          assert r[i].0 == k && r[i].1 == Select(ys, key, k) + [x];
        }
      }
    } else {
      assert [] + [x] == [x];
      forall i | 0 <= i < |g|
        ensures r[i] == g[i]
      {
        if i < i0 {
          assert g0[i] == g[i] && g[i].0 != k;
          assert r[i].0 == g[i].0 && r[i].1 == g[i].1;
        } else {
          assert forall j :: 0 <= j < |g0| ==> g0[j].0 != k;
          assert r[i] == (k, [x]);
        }
      }
    }
  }

  lemma OtherBucketsKeep<T, K>(ys: seq<T>, x: T, key: T -> K, g: seq<Bucket<K, T>>, i0: nat)
    requires IsGrouping(ys + [x], key, g)
    requires i0 < |g| && g[i0].0 == key(x)
    ensures forall i :: 0 <= i < |g| && i != i0 ==> g[i].1 == Select(ys, key, g[i].0) && g[i].1 != []
  {
    forall i | 0 <= i < |g| && i != i0
      ensures g[i].1 == Select(ys, key, g[i].0) && g[i].1 != []
    {
      SelectSnoc(ys, x, key, g[i].0);
    }
  }

  /** When `x` alone has its key, no bucket follows that key's bucket. */
  lemma LoneKeyBucketIsLast<T, K>(ys: seq<T>, x: T, key: T -> K, g: seq<Bucket<K, T>>, i0: nat)
    requires IsGrouping(ys + [x], key, g)
    requires i0 < |g| && g[i0].0 == key(x)
    requires Select(ys, key, key(x)) == []
    ensures i0 == |g| - 1
  {
    var k := key(x);
    forall q | 0 <= q < |ys|
      ensures key(ys[q]) != k
    {
      assert ys[q] in ys;
    }
    FirstIndexSnoc(ys, x, key, k);
    if i0 < |g| - 1 {
      SelectNonEmpty(ys + [x], key, g[i0 + 1].0);
    }
  }

  /** The grouping that `DropLast` leaves is a grouping of `ys`. */
  lemma DropKeepsGrouping<T, K>(ys: seq<T>, x: T, key: T -> K, g: seq<Bucket<K, T>>, i0: nat, g0: seq<Bucket<K, T>>)
    requires IsGrouping(ys + [x], key, g)
    requires i0 < |g| && g[i0].0 == key(x)
    requires forall i :: 0 <= i < |g| && i != i0 ==> g[i].1 == Select(ys, key, g[i].0) && g[i].1 != []
    requires
      || (Select(ys, key, key(x)) != [] && g0 == g[i0 := (key(x), Select(ys, key, key(x)))])
      || (Select(ys, key, key(x)) == [] && i0 == |g| - 1 && g0 == g[..i0])
    ensures IsGrouping(ys, key, g0)
  {
    DropKeepsBuckets(ys, x, key, g, i0, g0);
    DropKeepsCoverage(ys, x, key, g, i0, g0);
  }

  lemma DropKeepsBuckets<T, K>(ys: seq<T>, x: T, key: T -> K, g: seq<Bucket<K, T>>, i0: nat, g0: seq<Bucket<K, T>>)
    requires IsGrouping(ys + [x], key, g)
    requires i0 < |g| && g[i0].0 == key(x)
    requires forall i :: 0 <= i < |g| && i != i0 ==> g[i].1 == Select(ys, key, g[i].0) && g[i].1 != []
    requires
      || (Select(ys, key, key(x)) != [] && g0 == g[i0 := (key(x), Select(ys, key, key(x)))])
      || (Select(ys, key, key(x)) == [] && i0 == |g| - 1 && g0 == g[..i0])
    ensures |g0| <= |g|
    ensures forall i :: 0 <= i < |g0| ==> g0[i].0 == g[i].0
    ensures forall i :: 0 <= i < |g0| ==> g0[i].1 != [] && g0[i].1 == Select(ys, key, g0[i].0)
    ensures forall i :: 0 <= i < |g0| ==> FirstIndex(ys, key, g0[i].0) == FirstIndex(ys + [x], key, g[i].0)
  {
    forall i | 0 <= i < |g0|
      ensures FirstIndex(ys, key, g0[i].0) == FirstIndex(ys + [x], key, g[i].0)
    {
      SelectNonEmpty(ys, key, g0[i].0);
      FirstIndexSnoc(ys, x, key, g0[i].0);
    }
  }

  lemma DropKeepsCoverage<T, K>(ys: seq<T>, x: T, key: T -> K, g: seq<Bucket<K, T>>, i0: nat, g0: seq<Bucket<K, T>>)
    requires IsGrouping(ys + [x], key, g)
    requires i0 < |g| && g[i0].0 == key(x)
    requires
      || (Select(ys, key, key(x)) != [] && g0 == g[i0 := (key(x), Select(ys, key, key(x)))])
      || (Select(ys, key, key(x)) == [] && i0 == |g| - 1 && g0 == g[..i0])
    ensures forall y :: y in ys ==> exists i :: 0 <= i < |g0| && g0[i].0 == key(y)
  {
    forall y | y in ys
      ensures exists i :: 0 <= i < |g0| && g0[i].0 == key(y)
    {
      assert y in ys + [x];
      var i :| 0 <= i < |g| && g[i].0 == key(y);
      if i == i0 {
        assert y in Select(ys, key, key(x));
      }
      assert g0[i].0 == key(y);
    }
  }

  /** All the items of a list of buckets, bucket after bucket. */
  function Flatten<K, T>(buckets: seq<Bucket<K, T>>): seq<T>
  {
    if buckets == [] then [] else buckets[0].1 + Flatten(buckets[1..])
  }

  lemma {:induction false} AddToBucketCount<T, K>(buckets: seq<Bucket<K, T>>, k: K, x: T)
    ensures multiset(Flatten(AddToBucket(buckets, k, x))) == multiset(Flatten(buckets)) + multiset{x}
    decreases |buckets|
  {
    if buckets == [] {
      assert Flatten([(k, [x])]) == [x] + Flatten<K, T>([]);
    } else if buckets[0].0 == k {
      var r := AddToBucket(buckets, k, x);
      assert r[1..] == buckets[1..];
    } else {
      var r := AddToBucket(buckets, k, x);
      assert r[0] == buckets[0] && r[1..] == AddToBucket(buckets[1..], k, x);
      AddToBucketCount(buckets[1..], k, x);
    }
  }

  /** The buckets of `GroupBy`, laid end to end, are a permutation of the items. */
  lemma {:induction false} GroupByIsPermutation<T, K>(xs: seq<T>, key: T -> K)
    ensures multiset(Flatten(GroupBy(xs, key))) == multiset(xs)
  {
    if xs != [] {
      InitLast(xs);
      GroupByIsPermutation(Init(xs), key);
      AddToBucketCount(GroupBy(Init(xs), key), key(Last(xs)), Last(xs));
    }
  }
}
