/** Stable sorting by a key. An element is paired with its key; a sequence is
    sorted when the keys never decrease, and two sequences hold the same
    elements in the same relative order among equal keys when, for every key
    value, the elements carrying that key appear in both as the same run.
    `StableSort` is the reference stable sort (an insertion sort that places
    each element before the first one with an equal or larger key), and the
    only sorted sequence with the runs of its input. */
module Ordering {

  /** An element together with the key it is sorted by. */
  datatype Keyed<T> = Keyed(item: T, key: real)

  /** The elements, without their keys. */
  function Items<T>(xs: seq<Keyed<T>>): seq<T>
  {
    seq(|xs|, i requires 0 <= i < |xs| => xs[i].item)
  }

  /** The keys never decrease from left to right. */
  predicate Sorted<T>(xs: seq<Keyed<T>>)
  {
    forall i, j | 0 <= i < j < |xs| :: xs[i].key <= xs[j].key
  }

  /** The elements whose key is v, in the order in which they occur. */
  function Run<T>(xs: seq<Keyed<T>>, v: real): seq<Keyed<T>>
  {
    if xs == [] then []
    else (if xs[0].key == v then [xs[0]] else []) + Run(xs[1..], v)
  }

  /** Same elements, and equal-keyed elements in the same relative order. */
  ghost predicate SameRuns<T>(a: seq<Keyed<T>>, b: seq<Keyed<T>>)
  {
    forall v :: Run(a, v) == Run(b, v)
  }

  /** Places x before the first element whose key is not smaller. */
  function Insert<T>(x: Keyed<T>, xs: seq<Keyed<T>>): (r: seq<Keyed<T>>)
    ensures |r| == |xs| + 1
  {
    if xs == [] then [x]
    else if x.key <= xs[0].key then [x] + xs
    else [xs[0]] + Insert(x, xs[1..])
  }

  /** The reference stable sort, ascending by key. */
  function StableSort<T>(xs: seq<Keyed<T>>): (r: seq<Keyed<T>>)
    ensures |r| == |xs|
  {
    if xs == [] then [] else Insert(xs[0], StableSort(xs[1..]))
  }

  /** Runs distribute over concatenation. */
  lemma {:induction false} RunAppend<T>(a: seq<Keyed<T>>, b: seq<Keyed<T>>, v: real)
    ensures Run(a + b, v) == Run(a, v) + Run(b, v)
  {
    if a != [] {
      var h := if a[0].key == v then [a[0]] else [];
      assert (a + b)[0] == a[0] && (a + b)[1..] == a[1..] + b;
      RunAppend(a[1..], b, v);
      assert Run(a + b, v) == h + (Run(a[1..], v) + Run(b, v));
    } else {
      assert a + b == b;
    }
  }

  /** A run is empty exactly when no element carries that key. */
  lemma {:induction false} RunEmpty<T>(xs: seq<Keyed<T>>, v: real)
    ensures Run(xs, v) == [] <==> forall i | 0 <= i < |xs| :: xs[i].key != v
  {
    if xs != [] {
      RunEmpty(xs[1..], v);
      assert forall i | 1 <= i < |xs| :: xs[1..][i - 1] == xs[i];
    }
  }

  /** An element occurs as often in a sequence as in the run of its key. */
  lemma {:induction false} RunCount<T>(xs: seq<Keyed<T>>, e: Keyed<T>)
    ensures multiset(Run(xs, e.key))[e] == multiset(xs)[e]
  {
    if xs != [] {
      RunCount(xs[1..], e);
      assert xs == [xs[0]] + xs[1..];
    }
  }

  /** Equal runs mean the same elements with the same multiplicities. */
  lemma SameRunsPermutation<T>(a: seq<Keyed<T>>, b: seq<Keyed<T>>)
    requires SameRuns(a, b)
    ensures multiset(a) == multiset(b)
  {
    forall e | true
      ensures multiset(a)[e] == multiset(b)[e]
    {
      RunCount(a, e);
      RunCount(b, e);
    }
  }

  /** Exchanging two neighbours with different keys keeps every run. */
  lemma SwapKeepsRuns<T>(xs: seq<Keyed<T>>, j: nat)
    requires j + 1 < |xs| && xs[j].key != xs[j + 1].key
    ensures SameRuns(xs[j := xs[j + 1]][j + 1 := xs[j]], xs)
  {
    var ys := xs[j := xs[j + 1]][j + 1 := xs[j]];
    var pre, post := xs[..j], xs[j + 2..];
    assert xs == pre + [xs[j], xs[j + 1]] + post;
    assert ys == pre + [xs[j + 1], xs[j]] + post;
    forall v
      ensures Run(ys, v) == Run(xs, v)
    {
      RunAppend(pre + [xs[j], xs[j + 1]], post, v);
      RunAppend(pre, [xs[j], xs[j + 1]], v);
      RunAppend(pre + [xs[j + 1], xs[j]], post, v);
      RunAppend(pre, [xs[j + 1], xs[j]], v);
      assert Run([xs[j], xs[j + 1]], v) == Run([xs[j + 1], xs[j]], v) by {
        RunAppend([xs[j]], [xs[j + 1]], v);
        RunAppend([xs[j + 1]], [xs[j]], v);
      }
    }
  }

  /** Inserting keeps the sequence sorted, and its runs are those of x
      followed by the sequence. */
  lemma {:induction false} InsertCorrect<T>(x: Keyed<T>, xs: seq<Keyed<T>>)
    requires Sorted(xs)
    ensures Sorted(Insert(x, xs))
    ensures SameRuns(Insert(x, xs), [x] + xs)
  {
    if xs != [] && x.key > xs[0].key {
      var rest := Insert(x, xs[1..]);
      InsertCorrect(x, xs[1..]);
      forall v
        ensures Run(Insert(x, xs), v) == Run([x] + xs, v)
      {
        assert ([xs[0]] + rest)[1..] == rest;
        assert ([x] + xs)[1..] == xs;
        assert ([x] + xs[1..])[1..] == xs[1..];
      }
      forall y | y in rest
        ensures xs[0].key <= y.key
      {
        RunEmpty(rest, y.key);
        RunEmpty([x] + xs[1..], y.key);
        var i :| 0 <= i < |[x] + xs[1..]| && ([x] + xs[1..])[i].key == y.key;
        if i > 0 {
          assert xs[1..][i - 1] == xs[i];
        }
      }
      assert forall i | 1 <= i < |Insert(x, xs)| :: Insert(x, xs)[i] == rest[i - 1];
    }
  }

  /** The reference sort is sorted and keeps the runs of its input. */
  lemma {:induction false} StableSortCorrect<T>(xs: seq<Keyed<T>>)
    ensures Sorted(StableSort(xs))
    ensures SameRuns(StableSort(xs), xs)
  {
    if xs != [] {
      var rest := StableSort(xs[1..]);
      StableSortCorrect(xs[1..]);
      InsertCorrect(xs[0], rest);
      forall v
        ensures Run(StableSort(xs), v) == Run(xs, v)
      {
        assert ([xs[0]] + rest)[1..] == rest;
      }
    }
  }

  /** Two sorted sequences with the same runs are equal: a stable sort has
      exactly one possible result. */
  lemma {:induction false} SortedUnique<T>(a: seq<Keyed<T>>, b: seq<Keyed<T>>)
    requires Sorted(a) && Sorted(b) && SameRuns(a, b)
    ensures a == b
  {
    if a == [] || b == [] {
      if a != [] {
        RunEmpty(a, a[0].key);
        RunEmpty(b, a[0].key);
      }
      if b != [] {
        RunEmpty(a, b[0].key);
        RunEmpty(b, b[0].key);
      }
    } else {
      RunEmpty(a, b[0].key);
      RunEmpty(b, b[0].key);
      RunEmpty(a, a[0].key);
      RunEmpty(b, a[0].key);
      assert a[0].key == b[0].key;
      var m := a[0].key;
      assert Run(a, m)[0] == a[0];
      assert Run(b, m)[0] == b[0];
      forall v
        ensures Run(a[1..], v) == Run(b[1..], v)
      {
        var h := if a[0].key == v then [a[0]] else [];
        assert Run(a, v) == h + Run(a[1..], v);
        assert Run(b, v) == h + Run(b[1..], v);
        assert (h + Run(a[1..], v))[|h|..] == Run(a[1..], v);
        assert (h + Run(b[1..], v))[|h|..] == Run(b[1..], v);
      }
      SortedUnique(a[1..], b[1..]);
      assert a == [a[0]] + a[1..];
      assert b == [b[0]] + b[1..];
    }
  }

  /** One pass of the bubble sort over the first m elements: neighbours are
      exchanged only when the left key is strictly larger, so equal keys
      never pass each other. The last element of the pass ends up holding a
      largest key of the first m; the elements from m on are untouched. */
  method BubblePass<T>(xs: seq<Keyed<T>>, m: nat) returns (ys: seq<Keyed<T>>)
    requires 0 < m <= |xs|
    requires forall a, b | 0 <= a < m <= b < |xs| :: xs[a].key <= xs[b].key
    ensures |ys| == |xs| && ys[m..] == xs[m..]
    ensures SameRuns(ys, xs)
    ensures forall a | 0 <= a < m - 1 :: ys[a].key <= ys[m - 1].key
    ensures forall a, b | 0 <= a < m <= b < |xs| :: ys[a].key <= ys[b].key
  {
    ys := xs;
    var j := 0;
    while j < m - 1
      invariant 0 <= j <= m - 1
      invariant |ys| == |xs| && ys[m..] == xs[m..]
      invariant SameRuns(ys, xs)
      invariant forall a, b | 0 <= a < m <= b < |xs| :: ys[a].key <= ys[b].key
      invariant forall a | 0 <= a < j :: ys[a].key <= ys[j].key
    {
      if ys[j].key > ys[j + 1].key {
        SwapKeepsRuns(ys, j);
        ys := ys[j := ys[j + 1]][j + 1 := ys[j]];
      }
      j := j + 1;
    }
  }

  /** The bubble sort of the catalog: passes over a shrinking prefix, each
      leaving a largest remaining key at its end. Its result is the
      reference stable sort. */
  method BubbleSort<T>(xs: seq<Keyed<T>>) returns (sorted: seq<Keyed<T>>)
    ensures Sorted(sorted)
    ensures SameRuns(sorted, xs)
    ensures sorted == StableSort(xs)
  {
    sorted := xs;
    var n := |sorted|;
    var i := 0;
    while i < n - 1
      invariant 0 <= i <= if n == 0 then 0 else n - 1
      invariant |sorted| == n
      invariant SameRuns(sorted, xs)
      invariant forall a, b | n - i <= a < b < n :: sorted[a].key <= sorted[b].key
      invariant forall a, b | 0 <= a < n - i <= b < n :: sorted[a].key <= sorted[b].key
    {
      var before := sorted;
      sorted := BubblePass(sorted, n - i);
      assert forall a | n - i <= a < n :: sorted[a] == before[a];
      i := i + 1;
    }
    StableSortCorrect(xs);
    SortedUnique(sorted, StableSort(xs));
  }
}
