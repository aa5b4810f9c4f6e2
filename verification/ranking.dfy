/** The ordering the list views sort by: a two-part key compared
    lexicographically, larger first, with a stable sort (equal keys keep
    their input order, as `Array.prototype.sort` guarantees). */
module Ranking {
  import opened Common

  datatype Rank = Rank(primary: int, secondary: int)

  /** `a` sorts strictly before `b`. */
  predicate Outranks(a: Rank, b: Rank) {
    a.primary > b.primary || (a.primary == b.primary && a.secondary > b.secondary)
  }

  /** No element is outranked by a later one. */
  predicate Descending<T>(xs: seq<T>, rank: T -> Rank) {
    forall i, j :: 0 <= i < j < |xs| ==> !Outranks(rank(xs[j]), rank(xs[i]))
  }

  /** The elements of `xs` whose key is `k`, in order. */
  function WithRank<T>(xs: seq<T>, rank: T -> Rank, k: Rank): seq<T>
    decreases |xs|
  {
    if xs == [] then [] else (if rank(xs[0]) == k then [xs[0]] else []) + WithRank(xs[1..], rank, k)
  }

  /** Puts `x` after the elements that outrank it and before the rest. */
  function Insert<T>(x: T, ys: seq<T>, rank: T -> Rank): (r: seq<T>)
    ensures multiset(r) == multiset(ys) + multiset{x}
    decreases |ys|
  {
    if ys == [] then [x]
    else if Outranks(rank(ys[0]), rank(x)) then
      assert ys == [ys[0]] + ys[1..];
      [ys[0]] + Insert(x, ys[1..], rank)
    else [x] + ys
  }

  /** A sorted list stays sorted behind a head no later element outranks. */
  lemma ConsDescending<T>(h: T, t: seq<T>, rank: T -> Rank)
    requires Descending(t, rank)
    requires forall j :: 0 <= j < |t| ==> !Outranks(rank(t[j]), rank(h))
    ensures Descending([h] + t, rank)
  {
    var r := [h] + t;
    forall i, j | 0 <= i < j < |r| ensures !Outranks(rank(r[j]), rank(r[i])) {
      assert r[j] == t[j - 1];
      if i > 0 {
        assert r[i] == t[i - 1];
      }
    }
  }

  /** Inserting into a sorted list keeps it sorted. */
  lemma {:induction false} InsertSorted<T>(x: T, ys: seq<T>, rank: T -> Rank)
    requires Descending(ys, rank)
    ensures Descending(Insert(x, ys, rank), rank)
    decreases |ys|
  {
    if ys != [] && Outranks(rank(ys[0]), rank(x)) {
      var rest := Insert(x, ys[1..], rank);
      InsertSorted(x, ys[1..], rank);
      assert ys == [ys[0]] + ys[1..];
      forall j | 0 <= j < |rest| ensures !Outranks(rank(rest[j]), rank(ys[0])) {
        assert rest[j] in multiset(ys[1..]) + multiset{x};
        if rest[j] != x {
          assert rest[j] in ys[1..];
          var m :| 0 <= m < |ys[1..]| && ys[1..][m] == rest[j];
          assert ys[m + 1] == rest[j];
        }
      }
      ConsDescending(ys[0], rest, rank);
    } else if ys != [] {
      forall j | 0 <= j < |ys| ensures !Outranks(rank(ys[j]), rank(x)) {
        assert j == 0 || !Outranks(rank(ys[j]), rank(ys[0]));
      }
      ConsDescending(x, ys, rank);
    }
  }

  /** Insertion sort, stable. */
  function Sort<T>(xs: seq<T>, rank: T -> Rank): (r: seq<T>)
    ensures multiset(r) == multiset(xs)
    ensures Descending(r, rank)
    decreases |xs|
  {
    if xs == [] then []
    else
      assert xs == [xs[0]] + xs[1..];
      var rest := Sort(xs[1..], rank);
      InsertSorted(xs[0], rest, rank);
      Insert(xs[0], rest, rank)
  }

  lemma {:induction false} WithRankAppend<T>(a: seq<T>, b: seq<T>, rank: T -> Rank, k: Rank)
    ensures WithRank(a + b, rank, k) == WithRank(a, rank, k) + WithRank(b, rank, k)
    decreases |a|
  {
    if a == [] {
      assert a + b == b;
    } else {
      assert (a + b)[1..] == a[1..] + b;
      WithRankAppend(a[1..], b, rank, k);
    }
  }

  /** Inserting `x` puts it in front of every element with the same key. */
  lemma {:induction false} InsertKeepsTies<T>(x: T, ys: seq<T>, rank: T -> Rank, k: Rank)
    ensures WithRank(Insert(x, ys, rank), rank, k) == WithRank([x], rank, k) + WithRank(ys, rank, k)
    decreases |ys|, 1
  {
    if ys == [] {
      assert [x] + ys == [x];
    } else if Outranks(rank(ys[0]), rank(x)) {
      InsertBehindTies(x, ys, rank, k);
    } else {
      WithRankAppend([x], ys, rank, k);
    }
  }

  /** The case where the first element outranks `x` and stays in front. */
  lemma {:induction false} InsertBehindTies<T>(x: T, ys: seq<T>, rank: T -> Rank, k: Rank)
    requires ys != [] && Outranks(rank(ys[0]), rank(x))
    ensures WithRank(Insert(x, ys, rank), rank, k) == WithRank([x], rank, k) + WithRank(ys, rank, k)
    decreases |ys|, 0
  {
    var rest := Insert(x, ys[1..], rank);
    var r := [ys[0]] + rest;
    assert Insert(x, ys, rank) == r;
    InsertKeepsTies(x, ys[1..], rank, k);
    assert r[1..] == rest;
    var c := WithRank(ys[1..], rank, k);
    assert WithRank([x], rank, k) == if rank(x) == k then [x] else [];
    if rank(x) == k {
      assert WithRank(r, rank, k) == WithRank(rest, rank, k) == [x] + c;
      assert WithRank(ys, rank, k) == c;
    } else {
      assert WithRank(rest, rank, k) == c;
    }
  }

  /** The sort is stable: for every key, the elements with that key appear
      in the output in their input order. */
  lemma {:induction false} SortIsStable<T>(xs: seq<T>, rank: T -> Rank, k: Rank)
    ensures WithRank(Sort(xs, rank), rank, k) == WithRank(xs, rank, k)
    decreases |xs|
  {
    if xs != [] {
      SortIsStable(xs[1..], rank, k);
      InsertKeepsTies(xs[0], Sort(xs[1..], rank), rank, k);
      assert xs == [xs[0]] + xs[1..];
      WithRankAppend([xs[0]], xs[1..], rank, k);
    }
  }

  /** The first `n` elements of a sorted list outrank none of the others
      from below: whatever is cut off is ranked no higher than what is
      kept. */
  lemma CutRanksLower<T>(sorted: seq<T>, rank: T -> Rank, n: nat, x: T)
    requires Descending(sorted, rank) && n <= |sorted|
    requires x in multiset(sorted) && x !in sorted[..n]
    ensures forall i :: 0 <= i < n ==> !Outranks(rank(x), rank(sorted[i]))
  {
    assert x in sorted;
    var j :| 0 <= j < |sorted| && sorted[j] == x;
  }
}
