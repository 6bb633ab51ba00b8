/**
 * Python's `sorted(xs, key=...)` / `list.sort(key=...)`: a stable sort by a
 * total preorder `le` ("key(x) <= key(y)"). It is written as an insertion
 * sort; every property the core relies on (sorted, a permutation,
 * the identity on a sorted list) is proved below.
 */
module Sorting {

  ghost predicate Total<T(!new)>(le: (T, T) -> bool) {
    forall x, y :: le(x, y) || le(y, x)
  }

  ghost predicate Transitive<T(!new)>(le: (T, T) -> bool) {
    forall x, y, z :: le(x, y) && le(y, z) ==> le(x, z)
  }

  ghost predicate TotalPreorder<T(!new)>(le: (T, T) -> bool) {
    Total(le) && Transitive(le)
  }

  predicate SortedBy<T>(xs: seq<T>, le: (T, T) -> bool) {
    forall i, j :: 0 <= i < j < |xs| ==> le(xs[i], xs[j])
  }

  /** Puts x in front of the first element it is `le` to. */
  function Insert<T>(x: T, xs: seq<T>, le: (T, T) -> bool): (r: seq<T>)
    ensures multiset(r) == multiset(xs) + multiset{x}
    ensures |r| == |xs| + 1
  {
    if xs == [] then [x]
    else if le(x, xs[0]) then [x] + xs
    else
      assert xs == [xs[0]] + xs[1..];
      [xs[0]] + Insert(x, xs[1..], le)
  }

  function SortBy<T>(xs: seq<T>, le: (T, T) -> bool): (r: seq<T>)
    ensures multiset(r) == multiset(xs)
    ensures |r| == |xs|
  {
    if xs == [] then []
    else
      assert xs == [xs[0]] + xs[1..];
      Insert(xs[0], SortBy(xs[1..], le), le)
  }

  lemma {:induction false} InsertSorted<T(!new)>(x: T, xs: seq<T>, le: (T, T) -> bool)
    requires TotalPreorder(le)
    requires SortedBy(xs, le)
    ensures SortedBy(Insert(x, xs, le), le)
  {
    if xs != [] && !le(x, xs[0]) {
      var rest := Insert(x, xs[1..], le);
      assert SortedBy(xs[1..], le);
      InsertSorted(x, xs[1..], le);
      assert le(xs[0], x);
      InsertAbove(xs[0], x, xs[1..], le);
      ConsSorted(xs[0], rest, le);
    } else if xs != [] {
      forall i | 0 <= i < |xs|
        ensures le(x, xs[i])
      {
        assert i == 0 || le(xs[0], xs[i]);
      }
      ConsSorted(x, xs, le);
    }
  }

  /** A lower bound of `x` and of every element stays a lower bound after the insertion. */
  lemma {:induction false} InsertAbove<T>(b: T, x: T, xs: seq<T>, le: (T, T) -> bool)
    requires le(b, x)
    requires forall i | 0 <= i < |xs| :: le(b, xs[i])
    ensures forall i | 0 <= i < |Insert(x, xs, le)| :: le(b, Insert(x, xs, le)[i])
  {
    if xs != [] && !le(x, xs[0]) {
      InsertAbove(b, x, xs[1..], le);
      var r := Insert(x, xs, le);
      forall i | 0 <= i < |r|
        ensures le(b, r[i])
      {
        if i > 0 {
          assert r[i] == Insert(x, xs[1..], le)[i - 1];
        }
      }
    }
  }

  /** A sorted list behind a lower bound of all its elements is sorted. */
  lemma ConsSorted<T>(b: T, ys: seq<T>, le: (T, T) -> bool)
    requires SortedBy(ys, le)
    requires forall i | 0 <= i < |ys| :: le(b, ys[i])
    ensures SortedBy([b] + ys, le)
  {
    var r := [b] + ys;
    forall i, j | 0 <= i < j < |r|
      ensures le(r[i], r[j])
    {
      assert r[j] == ys[j - 1];
      if i > 0 {
        assert r[i] == ys[i - 1];
      }
    }
  }

  lemma {:induction false} SortBySorted<T(!new)>(xs: seq<T>, le: (T, T) -> bool)
    requires TotalPreorder(le)
    ensures SortedBy(SortBy(xs, le), le)
  {
    if xs != [] {
      SortBySorted(xs[1..], le);
      InsertSorted(xs[0], SortBy(xs[1..], le), le);
    }
  }

  /** Sorting a list that is already sorted leaves it as it is (Python's sort is stable). */
  lemma {:induction false} SortByOfSorted<T>(xs: seq<T>, le: (T, T) -> bool)
    requires SortedBy(xs, le)
    ensures SortBy(xs, le) == xs
  {
    if xs != [] {
      assert SortedBy(xs[1..], le);
      SortByOfSorted(xs[1..], le);
      if |xs| > 1 {
        assert le(xs[0], xs[1]);
      }
    }
  }

  /** Sorting twice is sorting once. */
  lemma SortByIdempotent<T(!new)>(xs: seq<T>, le: (T, T) -> bool)
    requires TotalPreorder(le)
    ensures SortBy(SortBy(xs, le), le) == SortBy(xs, le)
  {
    SortBySorted(xs, le);
    SortByOfSorted(SortBy(xs, le), le);
  }
}
