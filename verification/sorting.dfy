/** `Array.prototype.sort` with a comparator, modelled as a stable insertion sort.
    `le(a, b)` stands for "the comparator returns a value <= 0 for (a, b)", that is,
    `a` may stay in front of `b`. */
module Sorting {
  import Seqs

  /** Puts `x` in front of the first element it may precede. */
  function Insert<T>(x: T, s: seq<T>, le: (T, T) -> bool): (r: seq<T>)
    ensures multiset(r) == multiset(s) + multiset{x}
  {
    if |s| == 0 then [x]
    else if le(x, s[0]) then [x] + s
    else
      assert s == [s[0]] + s[1..];
      [s[0]] + Insert(x, s[1..], le)
  }

  function InsertionSort<T>(s: seq<T>, le: (T, T) -> bool): (r: seq<T>)
    ensures multiset(r) == multiset(s)
  {
    if |s| == 0 then []
    else
      assert s == [s[0]] + s[1..];
      Insert(s[0], InsertionSort(s[1..], le), le)
  }

  /** `le` is total and transitive: the comparator describes a consistent order. */
  ghost predicate TotalPreorder<T(!new)>(le: (T, T) -> bool) {
    && (forall a, b :: le(a, b) || le(b, a))
    && (forall a, b, c :: le(a, b) && le(b, c) ==> le(a, c))
  }

  ghost predicate SortedBy<T>(s: seq<T>, le: (T, T) -> bool) {
    forall i, j :: 0 <= i < j < |s| ==> le(s[i], s[j])
  }

  lemma {:induction false} InsertSorted<T(!new)>(x: T, s: seq<T>, le: (T, T) -> bool)
    requires TotalPreorder(le)
    requires SortedBy(s, le)
    ensures SortedBy(Insert(x, s, le), le)
    decreases |s|
  {
    if |s| > 0 && !le(x, s[0]) {
      InsertSorted(x, s[1..], le);
      var r := Insert(x, s, le);
      var t := Insert(x, s[1..], le);
      assert r == [s[0]] + t;
      forall j | 0 < j < |r| ensures le(s[0], r[j]) {
        assert r[j] in multiset(t);
        if r[j] != x {
          assert r[j] in s[1..];
        }
      }
    }
  }

  /** A comparator that describes a consistent order yields a sorted result. */
  lemma {:induction false} InsertionSortSorted<T(!new)>(s: seq<T>, le: (T, T) -> bool)
    requires TotalPreorder(le)
    ensures SortedBy(InsertionSort(s, le), le)
    decreases |s|
  {
    if |s| > 0 {
      InsertionSortSorted(s[1..], le);
      InsertSorted(s[0], InsertionSort(s[1..], le), le);
    }
  }

  /** A comparator that never asks to swap leaves the order untouched. */
  lemma {:induction false} InsertionSortKeepsOrder<T>(s: seq<T>, le: (T, T) -> bool)
    requires forall a, b :: le(a, b)
    ensures InsertionSort(s, le) == s
    decreases |s|
  {
    if |s| > 0 {
      InsertionSortKeepsOrder(s[1..], le);
      assert s == [s[0]] + s[1..];
    }
  }

  /** Inserting after a run of elements `x` may not precede, in front of one it may
      precede, puts `x` exactly there. */
  lemma {:induction false} InsertAfter<T>(x: T, p: seq<T>, q: seq<T>, le: (T, T) -> bool)
    requires forall i :: 0 <= i < |p| ==> !le(x, p[i])
    requires |q| == 0 || le(x, q[0])
    ensures Insert(x, p + q, le) == p + [x] + q
    decreases |p|
  {
    if |p| == 0 {
      assert p + q == q;
    } else {
      var tail := p[1..];
      Regroup(p, x, q);
      InsertPast(x, p[0], tail + q, le);
      TailKeeps(x, p, le);
      InsertAfter(x, tail, q, le);
    }
  }

  lemma Regroup<T>(p: seq<T>, x: T, q: seq<T>)
    requires |p| > 0
    ensures p + q == [p[0]] + (p[1..] + q)
    ensures p + [x] + q == [p[0]] + (p[1..] + [x] + q)
  {
  }

  lemma TailKeeps<T>(x: T, p: seq<T>, le: (T, T) -> bool)
    requires |p| > 0 && forall i :: 0 <= i < |p| ==> !le(x, p[i])
    ensures forall i :: 0 <= i < |p[1..]| ==> !le(x, p[1..][i])
  {
    forall i | 0 <= i < |p[1..]| ensures !le(x, p[1..][i]) {
      assert p[1..][i] == p[i + 1];
    }
  }

  /** `x` goes past a first element it may not precede. */
  lemma InsertPast<T>(x: T, y: T, rest: seq<T>, le: (T, T) -> bool)
    requires !le(x, y)
    ensures Insert(x, [y] + rest, le) == [y] + Insert(x, rest, le)
  {
    assert ([y] + rest)[1..] == rest;
  }

  function RankIs<T>(rank: T -> nat, k: nat): T -> bool {
    (x: T) => rank(x) == k
  }

  ghost predicate AllRank<T>(s: seq<T>, rank: T -> nat, k: nat) {
    forall i :: 0 <= i < |s| ==> rank(s[i]) == k
  }

  /** Inserting into three rank groups puts the element at the front of its own
      group: the first group for rank 0, ... */
  lemma InsertFirst<T>(x: T, a0: seq<T>, a1: seq<T>, a2: seq<T>, le: (T, T) -> bool, rank: T -> nat)
    requires forall a, b :: le(a, b) == (rank(a) <= rank(b))
    requires rank(x) == 0
    ensures Insert(x, a0 + a1 + a2, le) == ([x] + a0) + a1 + a2
  {
    InsertAfter(x, [], a0 + a1 + a2, le);
    assert [] + (a0 + a1 + a2) == a0 + a1 + a2;
    assert [] + [x] + (a0 + a1 + a2) == ([x] + a0) + a1 + a2;
  }

  /** ... the second for rank 1, ... */
  lemma InsertSecond<T>(x: T, a0: seq<T>, a1: seq<T>, a2: seq<T>, le: (T, T) -> bool, rank: T -> nat)
    requires forall a, b :: le(a, b) == (rank(a) <= rank(b))
    requires AllRank(a0, rank, 0) && AllRank(a1, rank, 1) && AllRank(a2, rank, 2)
    requires rank(x) == 1
    ensures Insert(x, a0 + a1 + a2, le) == a0 + ([x] + a1) + a2
  {
    PrecedesNone(x, a0, le, rank);
    PrecedesFront(x, a1, a2, le, rank);
    InsertAfter(x, a0, a1 + a2, le);
    RegroupSecond(x, a0, a1, a2);
  }

  lemma RegroupSecond<T>(x: T, a0: seq<T>, a1: seq<T>, a2: seq<T>)
    ensures a0 + a1 + a2 == a0 + (a1 + a2)
    ensures a0 + [x] + (a1 + a2) == a0 + ([x] + a1) + a2
  {
  }

  /** An element of a higher rank may precede none of a lower-ranked group. */
  lemma PrecedesNone<T>(x: T, a: seq<T>, le: (T, T) -> bool, rank: T -> nat)
    requires forall a, b :: le(a, b) == (rank(a) <= rank(b))
    requires AllRank(a, rank, 0) && rank(x) >= 1
    ensures forall i :: 0 <= i < |a| ==> !le(x, a[i])
  {
  }

  /** An element of rank 1 may precede the front of the rank-1 and rank-2 groups. */
  lemma PrecedesFront<T>(x: T, a1: seq<T>, a2: seq<T>, le: (T, T) -> bool, rank: T -> nat)
    requires forall a, b :: le(a, b) == (rank(a) <= rank(b))
    requires AllRank(a1, rank, 1) && AllRank(a2, rank, 2) && rank(x) == 1
    ensures |a1 + a2| == 0 || le(x, (a1 + a2)[0])
  {
    if |a1 + a2| > 0 {
      assert (a1 + a2)[0] == if |a1| > 0 then a1[0] else a2[0];
    }
  }

  /** ... and the third for rank 2. */
  lemma InsertThird<T>(x: T, a0: seq<T>, a1: seq<T>, a2: seq<T>, le: (T, T) -> bool, rank: T -> nat)
    requires forall a, b :: le(a, b) == (rank(a) <= rank(b))
    requires AllRank(a0, rank, 0) && AllRank(a1, rank, 1) && AllRank(a2, rank, 2)
    requires rank(x) == 2
    ensures Insert(x, a0 + a1 + a2, le) == a0 + a1 + ([x] + a2)
  {
    var p := a0 + a1;
    forall i | 0 <= i < |p| ensures !le(x, p[i]) {
      assert rank(p[i]) <= 1;
    }
    InsertAfter(x, p, a2, le);
    assert p + [x] + a2 == a0 + a1 + ([x] + a2);
  }

  /** The elements a filter for rank `k` keeps all have rank `k`. */
  lemma FilterRank<T(!new)>(s: seq<T>, rank: T -> nat, k: nat)
    ensures AllRank(Seqs.Filter(s, RankIs(rank, k)), rank, k)
  {
    var f := Seqs.Filter(s, RankIs(rank, k));
    forall i | 0 <= i < |f| ensures rank(f[i]) == k {
      assert f[i] in f;
    }
  }

  /** A comparator that only compares ranks 0, 1 and 2 sorts stably: first the
      rank-0 elements, then the rank-1 ones, then the rest, each group in its
      original order. */
  lemma {:induction false} SortByRank<T(!new)>(s: seq<T>, le: (T, T) -> bool, rank: T -> nat)
    requires forall a, b :: le(a, b) == (rank(a) <= rank(b))
    requires forall i :: 0 <= i < |s| ==> rank(s[i]) <= 2
    ensures InsertionSort(s, le) ==
      Seqs.Filter(s, RankIs(rank, 0)) + Seqs.Filter(s, RankIs(rank, 1)) + Seqs.Filter(s, RankIs(rank, 2))
    decreases |s|
  {
    if |s| > 0 {
      var x := s[0];
      var t := s[1..];
      SortByRank(t, le, rank);
      FilterRank(t, rank, 0);
      FilterRank(t, rank, 1);
      FilterRank(t, rank, 2);
      var a0 := Seqs.Filter(t, RankIs(rank, 0));
      var a1 := Seqs.Filter(t, RankIs(rank, 1));
      var a2 := Seqs.Filter(t, RankIs(rank, 2));
      assert InsertionSort(s, le) == Insert(x, a0 + a1 + a2, le);
      assert Seqs.Filter(s, RankIs(rank, 0)) == if rank(x) == 0 then [x] + a0 else a0;
      assert Seqs.Filter(s, RankIs(rank, 1)) == if rank(x) == 1 then [x] + a1 else a1;
      assert Seqs.Filter(s, RankIs(rank, 2)) == if rank(x) == 2 then [x] + a2 else a2;
      if rank(x) == 0 {
        InsertFirst(x, a0, a1, a2, le, rank);
      } else if rank(x) == 1 {
        InsertSecond(x, a0, a1, a2, le, rank);
      } else {
        InsertThird(x, a0, a1, a2, le, rank);
      }
    }
  }
}
