/** Array operations the views use on their record lists: `filter`, `slice`, and
    `Array.from(new Set(...))` (de-duplication in first-occurrence order). */
module Seqs {

  /** `a` can be obtained from `b` by deleting elements: an order-preserving
      subsequence. */
  predicate IsSubseq<T(==)>(a: seq<T>, b: seq<T>)
    decreases |b|
  {
    |a| == 0 || (|b| > 0 && ((a[0] == b[0] && IsSubseq(a[1..], b[1..])) || IsSubseq(a, b[1..])))
  }

  lemma {:induction false} SubseqRefl<T>(a: seq<T>)
    ensures IsSubseq(a, a)
    decreases |a|
  {
    if |a| > 0 {
      SubseqRefl(a[1..]);
    }
  }

  /** A subsequence as long as the whole is the whole. */
  lemma {:induction false} SubseqSameLength<T>(a: seq<T>, b: seq<T>)
    requires IsSubseq(a, b) && |a| == |b|
    ensures a == b
    decreases |b|
  {
    if |b| > 0 {
      if a[0] == b[0] && IsSubseq(a[1..], b[1..]) {
        SubseqSameLength(a[1..], b[1..]);
        assert a == [a[0]] + a[1..];
      } else {
        SubseqShorter(a, b[1..]);
      }
    }
  }

  lemma {:induction false} SubseqShorter<T>(a: seq<T>, b: seq<T>)
    requires IsSubseq(a, b)
    ensures |a| <= |b|
    decreases |b|
  {
    if |a| > 0 {
      if a[0] == b[0] && IsSubseq(a[1..], b[1..]) {
        SubseqShorter(a[1..], b[1..]);
      } else {
        SubseqShorter(a, b[1..]);
      }
    }
  }

  predicate NoDups<T(==)>(s: seq<T>) {
    forall i, j :: 0 <= i < j < |s| ==> s[i] != s[j]
  }

  /** `s.filter(p)`: the elements satisfying `p`, in their original order, each
      with its original multiplicity. */
  function Filter<T(==,!new)>(s: seq<T>, p: T -> bool): (r: seq<T>)
    ensures |r| <= |s|
    ensures forall x :: x in r <==> x in s && p(x)
    ensures forall x :: multiset(r)[x] == if p(x) then multiset(s)[x] else 0
    ensures IsSubseq(r, s)
    ensures (forall i :: 0 <= i < |s| ==> p(s[i])) ==> r == s
  {
    if |s| == 0 then []
    else
      var rest := Filter(s[1..], p);
      var r := if p(s[0]) then [s[0]] + rest else rest;
      FilterStepMultiset(s, p, rest, r);
      FilterStepSubseq(s, p, rest, r);
      r
  }

  /** One step of `Filter` keeps the count of every element. */
  lemma FilterStepMultiset<T>(s: seq<T>, p: T -> bool, rest: seq<T>, r: seq<T>)
    requires |s| > 0 && r == if p(s[0]) then [s[0]] + rest else rest
    requires forall x :: multiset(rest)[x] == if p(x) then multiset(s[1..])[x] else 0
    ensures forall x :: multiset(r)[x] == if p(x) then multiset(s)[x] else 0
  {
    assert s == [s[0]] + s[1..];
    assert multiset(s) == multiset{s[0]} + multiset(s[1..]);
  }

  /** One step of `Filter` keeps the result a subsequence, and the whole list when
      every element passes. */
  lemma FilterStepSubseq<T>(s: seq<T>, p: T -> bool, rest: seq<T>, r: seq<T>)
    requires |s| > 0 && r == if p(s[0]) then [s[0]] + rest else rest
    requires IsSubseq(rest, s[1..])
    requires (forall i :: 0 <= i < |s[1..]| ==> p(s[1..][i])) ==> rest == s[1..]
    ensures IsSubseq(r, s)
    ensures (forall i :: 0 <= i < |s| ==> p(s[i])) ==> r == s
  {
    if p(s[0]) {
      assert r[1..] == rest;
    }
    if forall i :: 0 <= i < |s| ==> p(s[i]) {
      assert forall i :: 0 <= i < |s[1..]| ==> p(s[1..][i]) by {
        forall i | 0 <= i < |s[1..]| ensures p(s[1..][i]) {
          assert s[1..][i] == s[i + 1];
        }
      }
      assert s == [s[0]] + s[1..];
    }
  }

  /** `s.map(f)`. */
  function Map<T, U>(s: seq<T>, f: T -> U): (r: seq<U>)
    ensures |r| == |s|
    ensures forall i :: 0 <= i < |s| ==> r[i] == f(s[i])
  {
    seq(|s|, i requires 0 <= i < |s| => f(s[i]))
  }

  /** Mapping commutes with taking a slice. */
  lemma MapSlice<T, U>(s: seq<T>, f: T -> U, lo: nat, hi: nat)
    requires lo <= hi <= |s|
    ensures Map(s, f)[lo..hi] == Map(s[lo..hi], f)
  {
  }

  /** Filtering after an element-wise change that the filter cannot see is the
      same as changing the filtered elements. */
  lemma {:induction false} FilterMapCommute<T(!new)>(s: seq<T>, p: T -> bool, g: T -> T)
    requires forall x :: p(g(x)) == p(x)
    ensures Filter(Map(s, g), p) == Map(Filter(s, p), g)
    decreases |s|
  {
    if |s| > 0 {
      var rest := s[1..];
      FilterMapCommute(rest, p, g);
      MapCons(s, g);
      FilterCons(s, p);
      FilterCons(Map(s, g), p);
      if p(s[0]) {
        MapPrepend(s[0], Filter(rest, p), g);
      }
    }
  }

  /** `Filter` on a non-empty sequence, one step. */
  lemma FilterCons<T(!new)>(s: seq<T>, p: T -> bool)
    requires |s| > 0
    ensures Filter(s, p) == if p(s[0]) then [s[0]] + Filter(s[1..], p) else Filter(s[1..], p)
  {
  }

  /** Filtering a list with one more element at the end: the element is kept
      exactly when it passes. */
  lemma {:induction false} FilterAppend<T(!new)>(s: seq<T>, x: T, p: T -> bool)
    ensures Filter(s + [x], p) == Filter(s, p) + (if p(x) then [x] else [])
    decreases |s|
  {
    if |s| == 0 {
      assert s + [x] == [x];
      FilterCons([x], p);
      assert [x][1..] == [];
    } else {
      FilterAppend(s[1..], x, p);
      FilterAppendStep(s, x, p);
    }
  }

  lemma FilterAppendStep<T(!new)>(s: seq<T>, x: T, p: T -> bool)
    requires |s| > 0
    requires Filter(s[1..] + [x], p) == Filter(s[1..], p) + (if p(x) then [x] else [])
    ensures Filter(s + [x], p) == Filter(s, p) + (if p(x) then [x] else [])
  {
    var t := s + [x];
    AppendTail(s, x);
    var a, e := Filter(s[1..], p), if p(x) then [x] else [];
    FilterCons(t, p);
    FilterCons(s, p);
    if p(s[0]) {
      calc {
        Filter(t, p);
        [s[0]] + Filter(s[1..] + [x], p);
        [s[0]] + (a + e);
        { ConsAssoc(s[0], a, e); }
        ([s[0]] + a) + e;
        Filter(s, p) + e;
      }
    } else {
      calc {
        Filter(t, p);
        Filter(s[1..] + [x], p);
        a + e;
        Filter(s, p) + e;
      }
    }
  }

  lemma AppendTail<T>(s: seq<T>, x: T)
    requires |s| > 0
    ensures (s + [x])[0] == s[0] && (s + [x])[1..] == s[1..] + [x]
  {
  }

  lemma ConsAssoc<T>(x: T, a: seq<T>, b: seq<T>)
    ensures [x] + (a + b) == ([x] + a) + b
  {
  }

  /** `Map` on a non-empty sequence, one step. */
  lemma MapCons<T, U>(s: seq<T>, f: T -> U)
    requires |s| > 0
    ensures Map(s, f)[0] == f(s[0]) && Map(s, f)[1..] == Map(s[1..], f)
  {
  }

  lemma MapPrepend<T, U>(x: T, s: seq<T>, f: T -> U)
    ensures Map([x] + s, f) == [f(x)] + Map(s, f)
  {
  }

  /** No two elements share a key (a record id, say). */
  ghost predicate DistinctKeys<T, K>(s: seq<T>, key: T -> K) {
    forall i, j :: 0 <= i < j < |s| ==> key(s[i]) != key(s[j])
  }

  /** Filtering keeps the keys of the remaining elements distinct. */
  lemma {:induction false} FilterKeysDistinct<T(!new), K>(s: seq<T>, p: T -> bool, key: T -> K)
    requires DistinctKeys(s, key)
    ensures DistinctKeys(Filter(s, p), key)
    decreases |s|
  {
    if |s| > 0 {
      var rest := s[1..];
      assert s == [s[0]] + rest;
      assert DistinctKeys(rest, key) by {
        forall i, j | 0 <= i < j < |rest| ensures key(rest[i]) != key(rest[j]) {
          assert rest[i] == s[i + 1] && rest[j] == s[j + 1];
        }
      }
      FilterKeysDistinct(rest, p, key);
      var fr := Filter(rest, p);
      if p(s[0]) {
        forall k | 0 <= k < |fr| ensures key(fr[k]) != key(s[0]) {
          assert fr[k] in rest;
          var j :| 0 <= j < |rest| && rest[j] == fr[k];
          assert s[j + 1] == fr[k];
        }
        ConsDistinct(s[0], fr, key);
        assert Filter(s, p) == [s[0]] + fr;
      } else {
        assert Filter(s, p) == fr;
      }
    }
  }

  /** An element whose key no element of `s` has can go in front of `s`. */
  lemma ConsDistinct<T, K>(x: T, s: seq<T>, key: T -> K)
    requires DistinctKeys(s, key)
    requires forall k :: 0 <= k < |s| ==> key(s[k]) != key(x)
    ensures DistinctKeys([x] + s, key)
  {
    var r := [x] + s;
    forall i, j | 0 <= i < j < |r| ensures key(r[i]) != key(r[j]) {
      assert r[j] == s[j - 1];
      if i > 0 {
        assert r[i] == s[i - 1];
      }
    }
  }

  /** Two lists with distinct keys and no key in common join into one. */
  lemma AppendKeysDistinct<T, K>(a: seq<T>, b: seq<T>, key: T -> K)
    requires DistinctKeys(a, key) && DistinctKeys(b, key)
    requires forall i, j :: 0 <= i < |a| && 0 <= j < |b| ==> key(a[i]) != key(b[j])
    ensures DistinctKeys(a + b, key)
  {
    var r := a + b;
    forall i, j | 0 <= i < j < |r| ensures key(r[i]) != key(r[j]) {
      if j < |a| {
        assert r[i] == a[i] && r[j] == a[j];
      } else if i < |a| {
        assert r[i] == a[i] && r[j] == b[j - |a|];
      } else {
        assert r[i] == b[i - |a|] && r[j] == b[j - |a|];
      }
    }
  }

  /** A list whose elements keep their keys keeps them distinct. */
  lemma SameKeysDistinct<T, K>(a: seq<T>, b: seq<T>, key: T -> K)
    requires DistinctKeys(a, key)
    requires |a| == |b| && forall i :: 0 <= i < |a| ==> key(a[i]) == key(b[i])
    ensures DistinctKeys(b, key)
  {
  }

  /** With distinct keys, dropping the elements with one key removes one element
      when some element has that key and none otherwise. */
  lemma {:induction false} FilterOutKey<T(!new), K>(s: seq<T>, key: T -> K, k: K, p: T -> bool)
    requires DistinctKeys(s, key)
    requires forall x :: p(x) == (key(x) != k)
    ensures |Filter(s, p)| == if exists i :: 0 <= i < |s| && key(s[i]) == k then |s| - 1 else |s|
    decreases |s|
  {
    if |s| > 0 {
      var rest := s[1..];
      DistinctTail(s, key);
      FilterOutKey(rest, key, k, p);
      FilterCons(s, p);
      if key(s[0]) == k {
        FirstKeyUnique(s, key);
        assert Filter(rest, p) == rest;
      } else {
        KeyInTail(s, key, k);
      }
    }
  }

  lemma DistinctTail<T, K>(s: seq<T>, key: T -> K)
    requires |s| > 0 && DistinctKeys(s, key)
    ensures DistinctKeys(s[1..], key)
  {
    forall i, j | 0 <= i < j < |s| - 1 ensures key(s[1..][i]) != key(s[1..][j]) {
      assert s[1..][i] == s[i + 1] && s[1..][j] == s[j + 1];
    }
  }

  /** With distinct keys, no later element has the first one's key. */
  lemma FirstKeyUnique<T, K>(s: seq<T>, key: T -> K)
    requires |s| > 0 && DistinctKeys(s, key)
    ensures forall i :: 0 <= i < |s[1..]| ==> key(s[1..][i]) != key(s[0])
  {
    forall i | 0 <= i < |s[1..]| ensures key(s[1..][i]) != key(s[0]) {
      assert s[1..][i] == s[i + 1];
    }
  }

  /** A key the first element lacks occurs in `s` exactly when it occurs later. */
  lemma KeyInTail<T, K>(s: seq<T>, key: T -> K, k: K)
    requires |s| > 0 && key(s[0]) != k
    ensures (exists i :: 0 <= i < |s| && key(s[i]) == k) <==> (exists i :: 0 <= i < |s[1..]| && key(s[1..][i]) == k)
  {
    var rest := s[1..];
    if exists i :: 0 <= i < |s| && key(s[i]) == k {
      var i :| 0 <= i < |s| && key(s[i]) == k;
      assert rest[i - 1] == s[i];
    }
    if exists i :: 0 <= i < |rest| && key(rest[i]) == k {
      var i :| 0 <= i < |rest| && key(rest[i]) == k;
      assert s[i + 1] == rest[i];
    }
  }

  /** The index of the first occurrence of `x` in `s`. */
  function FirstIndex<T(==)>(s: seq<T>, x: T): (i: nat)
    requires x in s
    ensures i < |s| && s[i] == x
    ensures forall j :: 0 <= j < i ==> s[j] != x
  {
    if s[0] == x then 0 else 1 + FirstIndex(s[1..], x)
  }

  /** `Array.from(new Set(s))`: the distinct elements of `s`, each once, in the order
      of their first occurrence. */
  function Distinct<T(==,!new)>(s: seq<T>): (r: seq<T>)
    ensures forall x :: x in r <==> x in s
    ensures NoDups(r)
    ensures forall i, j :: 0 <= i < j < |r| ==> FirstIndex(s, r[i]) < FirstIndex(s, r[j])
  {
    if |s| == 0 then []
    else
      var init := s[..|s| - 1];
      var last := s[|s| - 1];
      var rest := Distinct(init);
      assert s == init + [last];
      FirstIndexOfPrefix(init, last, rest);
      if last in rest then rest else rest + [last]
  }

  /** Extending a sequence at the end does not move earlier first occurrences. */
  lemma FirstIndexOfPrefix<T>(init: seq<T>, last: T, xs: seq<T>)
    requires forall x :: x in xs ==> x in init
    ensures forall x :: x in xs ==> FirstIndex(init + [last], x) == FirstIndex(init, x)
    ensures last !in init ==> FirstIndex(init + [last], last) == |init|
  {
    forall x | x in xs ensures FirstIndex(init + [last], x) == FirstIndex(init, x) {
      FirstIndexAppend(init, last, x);
    }
    if last !in init {
      assert forall j :: 0 <= j < |init| ==> (init + [last])[j] == init[j];
    }
  }

  lemma {:induction false} FirstIndexAppend<T>(init: seq<T>, last: T, x: T)
    requires x in init
    ensures FirstIndex(init + [last], x) == FirstIndex(init, x)
  {
    var i := FirstIndex(init, x);
    var k := FirstIndex(init + [last], x);
    assert (init + [last])[i] == x;
    assert k <= i;
    assert init[k] == x;
  }

  /** JavaScript's treatment of a `slice` bound: negative counts from the end, and
      the result is clamped into `[0, n]`. */
  function ClampIndex(i: int, n: nat): (r: nat)
    ensures r <= n
    ensures 0 <= i <= n ==> r == i
  {
    if i < 0 then (if n + i < 0 then 0 else n + i) else if i > n then n else i
  }

  /** `s.slice(start, end)`. */
  function Slice<T>(s: seq<T>, start: int, end: int): (r: seq<T>)
    ensures 0 <= start && start <= end ==> |r| <= end - start
    ensures 0 <= start <= |s| && start <= end ==> r == s[start..Clamp(end, start, |s|)]
    ensures |s| <= start ==> r == []
  {
    var a := ClampIndex(start, |s|);
    var b := ClampIndex(end, |s|);
    if a < b then s[a..b] else []
  }

  /** `v` moved into `[lo, hi]`. */
  function Clamp(v: int, lo: int, hi: int): (r: int)
    requires lo <= hi
    ensures lo <= r <= hi
    ensures lo <= v <= hi ==> r == v
  {
    if v < lo then lo else if v > hi then hi else v
  }
}
