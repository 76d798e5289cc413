/** The two routines of Go's `sort` package the hash ring uses: `sort.Ints` and `sort.Search`. */
module Sorting {
  import opened Base

  ghost predicate Sorted(s: seq<int>) {
    forall i, j :: 0 <= i < j < |s| ==> s[i] <= s[j]
  }

  /** Inserts `x` into the sorted sequence `s`, keeping it sorted. */
  function Insert(s: seq<int>, x: int): (r: seq<int>)
    requires Sorted(s)
    ensures Sorted(r)
    ensures multiset(r) == multiset(s) + multiset{x}
  {
    if |s| == 0 then [x]
    else if x <= s[0] then [x] + s
    else
      var tail := Insert(s[1..], x);
      BoundedBelow(s, x, tail);
      [s[0]] + tail
  }

  /** Every element of an insertion into the tail of `s` is at least `s[0]`. */
  lemma BoundedBelow(s: seq<int>, x: int, tail: seq<int>)
    requires Sorted(s) && 0 < |s| && s[0] < x
    requires multiset(tail) == multiset(s[1..]) + multiset{x}
    ensures Sorted(s[1..])
    ensures forall y :: y in tail ==> s[0] <= y
    ensures Sorted(tail) ==> Sorted([s[0]] + tail)
    ensures multiset([s[0]] + tail) == multiset(s) + multiset{x}
  {
    forall y | y in tail ensures s[0] <= y {
      assert y in multiset(tail);
    }
    assert s == [s[0]] + s[1..];
    if Sorted(tail) {
      var r := [s[0]] + tail;
      forall i, j | 0 <= i < j < |r| ensures r[i] <= r[j] {
        if i > 0 {
          assert r[i] == tail[i - 1] && r[j] == tail[j - 1];
        } else {
          assert r[j] in tail;
        }
      }
    }
  }

  /** `sort.Ints`: the ascending permutation of `s`. */
  function SortInts(s: seq<int>): (r: seq<int>)
    ensures Sorted(r)
    ensures multiset(r) == multiset(s)
    ensures |r| == |s|
  {
    if |s| == 0 then []
    else
      var r := Insert(SortInts(s[..|s| - 1]), s[|s| - 1]);
      LastSplit(s);
      assert |r| == |multiset(r)|;
      r
  }

  lemma LastSplit(s: seq<int>)
    requires 0 < |s|
    ensures multiset(s) == multiset(s[..|s| - 1]) + multiset{s[|s| - 1]}
  {
    assert s == s[..|s| - 1] + [s[|s| - 1]];
  }

  /**
   * The binary-search loop of `sort.Search(n, func(i int) bool { return keys[i] >= h })`,
   * between `lo` and `hi`.
   */
  function SearchFrom(keys: seq<int>, h: int, lo: nat, hi: nat): (r: nat)
    requires lo <= hi <= |keys|
    requires lo == 0 || keys[lo - 1] < h
    requires hi == |keys| || keys[hi] >= h
    ensures lo <= r <= hi
    ensures r == 0 || keys[r - 1] < h
    ensures r == |keys| || keys[r] >= h
    decreases hi - lo
  {
    if lo < hi then
      var mid := (lo + hi) / 2;
      if !(keys[mid] >= h) then SearchFrom(keys, h, mid + 1, hi)
      else SearchFrom(keys, h, lo, mid)
    else lo
  }

  /**
   * `sort.Search` over `keys[i] >= h`: an index where the predicate turns
   * from false to true (`|keys|` when it never holds).
   */
  function Search(keys: seq<int>, h: int): (r: nat)
    ensures r <= |keys|
    ensures r == 0 || keys[r - 1] < h
    ensures r == |keys| || keys[r] >= h
  {
    SearchFrom(keys, h, 0, |keys|)
  }

  /** On sorted keys, `Search` finds the first key at or above `h`. */
  lemma SearchFindsLowerBound(keys: seq<int>, h: int)
    requires Sorted(keys)
    ensures forall j :: 0 <= j < Search(keys, h) ==> keys[j] < h
    ensures forall j :: Search(keys, h) <= j < |keys| ==> keys[j] >= h
  {
  }

  /** A multiset has only one ascending arrangement, so `SortInts` is determined by its input's contents. */
  lemma {:induction false} SortedUnique(a: seq<int>, b: seq<int>)
    requires Sorted(a) && Sorted(b) && multiset(a) == multiset(b)
    ensures a == b
  {
    assert |a| == |multiset(a)| == |b|;
    if |a| > 0 {
      SameHead(a, b);
      TailContents(a);
      TailContents(b);
      SortedUnique(a[1..], b[1..]);
      assert a == [a[0]] + a[1..] && b == [b[0]] + b[1..];
    }
  }

  /** Two ascending arrangements of one multiset start with its least element. */
  lemma SameHead(a: seq<int>, b: seq<int>)
    requires Sorted(a) && Sorted(b) && multiset(a) == multiset(b) && 0 < |a| && 0 < |b|
    ensures a[0] == b[0]
  {
    assert a[0] in multiset(b);
    var j :| 0 <= j < |b| && b[j] == a[0];
    assert b[0] in multiset(a);
    var k :| 0 <= k < |a| && a[k] == b[0];
  }

  lemma TailContents(a: seq<int>)
    requires 0 < |a|
    ensures multiset(a[1..]) == multiset(a) - multiset{a[0]}
    ensures Sorted(a) ==> Sorted(a[1..])
  {
    assert a == [a[0]] + a[1..];
  }

  /** A sequence without repeats holds each of its elements exactly once. */
  lemma {:induction false} NoDupMultiplicity(s: seq<int>, x: int)
    requires NoDup(s)
    ensures multiset(s)[x] == if x in s then 1 else 0
  {
    if |s| > 0 {
      var t := s[..|s| - 1];
      assert s == t + [s[|s| - 1]];
      assert NoDup(t);
      NoDupMultiplicity(t, x);
      assert x == s[|s| - 1] ==> x !in t;
    }
  }

  /** Two sequences without repeats and with the same elements are arrangements of one multiset. */
  lemma DistinctSameElements(a: seq<int>, b: seq<int>)
    requires NoDup(a) && NoDup(b)
    requires forall x :: x in a <==> x in b
    ensures multiset(a) == multiset(b)
  {
    forall x ensures multiset(a)[x] == multiset(b)[x] {
      NoDupMultiplicity(a, x);
      NoDupMultiplicity(b, x);
    }
  }
}
