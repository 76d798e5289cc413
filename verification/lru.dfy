/**
 * The entry-bounded least-recently-used list of `lru.Cache`.
 *
 * The doubly linked list `ll` is the sequence `order`, most recently used
 * first; the index map `cache` (key to list element) is `values`, which maps
 * each key to the value its list element holds. The `OnEvicted` callback is
 * modelled by returning the evicted entry to the caller, who plays the
 * callback's part.
 */
module Lru {
  import opened Base

  datatype Entry<K, V> = Entry(key: K, value: V)

  /** `maxEntries == 0` means no limit. */
  datatype Cache<K, V> = Cache(maxEntries: int, order: seq<K>, values: map<K, V>)

  /** The list and the index map hold the same keys, each once. */
  ghost predicate Valid<K(!new), V>(c: Cache<K, V>) {
    && NoDup(c.order)
    && forall k :: k in c.values <==> k in c.order
  }

  /** `New(maxEntries)`; the zero-value `Cache{}` behaves as `New(0)`. */
  function New<K(==, !new), V>(maxEntries: int): (c: Cache<K, V>)
    ensures Valid(c) && Len(c) == 0 && c.maxEntries == maxEntries
  {
    Cache(maxEntries, [], map[])
  }

  /** `Len`: the length of the list, which is also the number of keys in the index map. */
  function Len<K(==, !new), V>(c: Cache<K, V>): (n: nat)
    ensures Valid(c) ==> n == |c.values|
  {
    KeyCount(c);
    |c.order|
  }

  /** `s` with `k` unlinked. */
  function Remove<K(==, !new)>(s: seq<K>, k: K): (r: seq<K>)
    ensures forall x :: x in r <==> x in s && x != k
    ensures NoDup(s) ==> NoDup(r)
    ensures NoDup(s) && k in s ==> |r| == |s| - 1
    ensures k !in s ==> r == s
  {
    if |s| == 0 then []
    else if s[0] == k then Remove(s[1..], k)
    else
      var tail := Remove(s[1..], k);
      NoDupCons(s[0], tail);
      [s[0]] + tail
  }

  /** The position of `k` in `s`: the first one. */
  function IndexOf<K(==)>(s: seq<K>, k: K): (i: nat)
    requires k in s
    ensures i < |s| && s[i] == k && k !in s[..i]
  {
    if s[0] == k then 0 else 1 + IndexOf(s[1..], k)
  }

  /** Unlinking a listed key leaves the keys before it and the keys after it in their order. */
  lemma {:induction false} RemoveKeepsOrder<K(!new)>(s: seq<K>, k: K)
    requires NoDup(s) && k in s
    ensures Remove(s, k) == s[..IndexOf(s, k)] + s[IndexOf(s, k) + 1..]
  {
    if s[0] == k {
      assert k !in s[1..];
    } else {
      RemoveKeepsOrder(s[1..], k);
      assert s[..IndexOf(s, k)] == [s[0]] + s[1..][..IndexOf(s[1..], k)];
      assert s[IndexOf(s, k) + 1..] == s[1..][IndexOf(s[1..], k) + 1..];
    }
  }

  /** Prepending a key not yet listed keeps the list free of duplicates. */
  lemma NoDupCons<K>(x: K, s: seq<K>)
    ensures NoDup(s) && x !in s ==> NoDup([x] + s)
  {
    if NoDup(s) && x !in s {
      var r := [x] + s;
      forall i, j | 0 <= i < j < |r| ensures r[i] != r[j] {
        assert r[j] == s[j - 1];
        if i > 0 { assert r[i] == s[i - 1]; }
      }
    }
  }

  /** `ll.MoveToFront(e)` for the element holding `k`. */
  function MoveToFront<K(==, !new)>(s: seq<K>, k: K): seq<K> {
    [k] + Remove(s, k)
  }

  /** `Get`: a hit returns the value and makes the entry the most recent; a miss changes nothing. */
  function Get<K(==, !new), V>(c: Cache<K, V>, key: K): (r: (Cache<K, V>, Option<V>))
    ensures key in c.values ==>
              && r.1 == Some(c.values[key])
              && r.0 == c.(order := MoveToFront(c.order, key))
    ensures key !in c.values ==> r == (c, None)
    ensures Valid(c) ==> Valid(r.0) && Len(r.0) == Len(c)
  {
    if key in c.values then
      (c.(order := MoveToFront(c.order, key)), Some(c.values[key]))
    else (c, None)
  }

  /** `RemoveOldest`: unlinks the tail entry and reports it to the eviction callback. */
  function RemoveOldest<K(==, !new), V>(c: Cache<K, V>): (r: (Cache<K, V>, Option<Entry<K, V>>))
    requires Valid(c)
    ensures Valid(r.0) && r.0.maxEntries == c.maxEntries
    ensures Len(c) == 0 <==> r.1.None?
    ensures Len(c) == 0 ==> r.0 == c
    ensures Len(c) > 0 ==>
              && r.1.value.key == c.order[|c.order| - 1]
              && r.1.value.key in c.values
              && r.1.value.value == c.values[r.1.value.key]
              && r.0.order == c.order[..|c.order| - 1]
              && r.0.values == c.values - {r.1.value.key}
              && Len(r.0) == Len(c) - 1
  {
    if |c.order| == 0 then (c, None)
    else
      var k := c.order[|c.order| - 1];
      assert k in c.order;
      var c' := c.(order := c.order[..|c.order| - 1], values := c.values - {k});
      assert forall x :: x in c'.order <==> x in c.order && x != k by {
        assert c.order == c'.order + [k];
      }
      (c', Some(Entry(k, c.values[k])))
  }

  /**
   * `Add`: a present key gets the new value and moves to the front; a new
   * key is pushed to the front, and when the list then exceeds a non-zero
   * `maxEntries` the oldest entry is evicted.
   */
  function Add<K(==, !new), V>(c: Cache<K, V>, key: K, value: V): (r: (Cache<K, V>, Option<Entry<K, V>>))
    requires Valid(c)
    ensures Valid(r.0) && r.0.maxEntries == c.maxEntries
    ensures key in c.values ==>
              && r.1 == None
              && r.0.order == MoveToFront(c.order, key)
              && r.0.values == c.values[key := value]
              && Len(r.0) == Len(c)
    ensures key !in c.values ==>
              (r.1.Some? <==> c.maxEntries != 0 && Len(c) + 1 > c.maxEntries)
    ensures key !in c.values && r.1.None? ==>
              && r.0.order == [key] + c.order
              && r.0.values == c.values[key := value]
    ensures key !in c.values && r.1.Some? && Len(c) == 0 ==>
              r.1.value == Entry(key, value) && r.0.order == []
    ensures key !in c.values && r.1.Some? && Len(c) > 0 ==>
              && r.1.value.key == c.order[|c.order| - 1]
              && r.1.value.value == c.values[r.1.value.key]
              && r.0.order == [key] + c.order[..|c.order| - 1]
    ensures key !in c.values && r.1.Some? ==>
              r.0.values == c.values[key := value] - {r.1.value.key}
    ensures c.maxEntries == 0 ==> r.1 == None
    ensures 0 < c.maxEntries && Len(c) <= c.maxEntries ==> Len(r.0) <= c.maxEntries
  {
    if key in c.values then
      (c.(order := MoveToFront(c.order, key), values := c.values[key := value]), None)
    else
      var pushed := c.(order := [key] + c.order, values := c.values[key := value]);
      if c.maxEntries != 0 && Len(pushed) > c.maxEntries then
        assert 0 < |c.order| ==> pushed.order[..|c.order|] == [key] + c.order[..|c.order| - 1];
        RemoveOldest(pushed)
      else (pushed, None)
  }

  /** The keys a list holds. */
  ghost function Members<K>(s: seq<K>): set<K> {
    set x | x in s
  }

  lemma {:induction false} MembersCount<K>(s: seq<K>)
    requires NoDup(s)
    ensures |Members(s)| == |s|
  {
    if |s| > 0 {
      assert Members(s) == {s[0]} + Members(s[1..]);
      assert s[0] !in Members(s[1..]);
      MembersCount(s[1..]);
    }
  }

  /** The list and the index map of a consistent cache have as many keys. */
  lemma KeyCount<K(!new), V>(c: Cache<K, V>)
    ensures Valid(c) ==> |c.order| == |c.values|
  {
    if Valid(c) {
      assert c.values.Keys == Members(c.order);
      MembersCount(c.order);
    }
  }

  /**
   * A key just read is not the next one evicted: `Get` protects it from the
   * following `RemoveOldest` unless it is the only entry.
   */
  lemma TouchProtects<K(!new), V>(c: Cache<K, V>, key: K)
    requires Valid(c) && key in c.values && Len(c) >= 2
    ensures var (touched, _) := Get(c, key);
            var (_, evicted) := RemoveOldest(touched);
            evicted.Some? && evicted.value.key != key && evicted.value.key in c.values
  {
    var rest := Remove(c.order, key);
    assert |rest| == |c.order| - 1;
    assert MoveToFront(c.order, key)[|c.order| - 1] == rest[|rest| - 1];
    assert rest[|rest| - 1] in rest;
  }

  /** `s` back to front: the recency order of keys pushed in the order `s`. */
  function Reverse<K>(s: seq<K>): (r: seq<K>)
    ensures |r| == |s|
  {
    if |s| == 0 then [] else [s[|s| - 1]] + Reverse(s[..|s| - 1])
  }

  lemma {:induction false} ReverseMembers<K>(s: seq<K>)
    ensures forall x :: x in Reverse(s) <==> x in s
  {
    if |s| > 0 {
      ReverseMembers(s[..|s| - 1]);
      assert s == s[..|s| - 1] + [s[|s| - 1]];
    }
  }

  /** Dropping the oldest of the reversed list is reversing the list without its head. */
  lemma {:induction false} ReverseDropLast<K>(s: seq<K>)
    requires 0 < |s|
    ensures Reverse(s)[..|s| - 1] == Reverse(s[1..])
  {
    if |s| > 1 {
      ReverseDropLast(s[..|s| - 1]);
      assert s[..|s| - 1][1..] == s[1..][..|s| - 2];
    }
  }

  lemma {:induction false} ReverseLast<K>(s: seq<K>)
    requires 0 < |s|
    ensures Reverse(s)[|s| - 1] == s[0]
  {
    if |s| > 1 {
      ReverseLast(s[..|s| - 1]);
    }
  }

  /** Adds every key of `keys` in turn with `value`; also returns the evicted keys in eviction order. */
  function AddAll<K(==, !new), V>(c: Cache<K, V>, keys: seq<K>, value: V): (r: (Cache<K, V>, seq<K>))
    requires Valid(c)
    ensures Valid(r.0) && r.0.maxEntries == c.maxEntries
  {
    if |keys| == 0 then (c, [])
    else
      var prev := AddAll(c, keys[..|keys| - 1], value);
      var last := Add(prev.0, keys[|keys| - 1], value);
      (last.0, prev.1 + if last.1.Some? then [last.1.value.key] else [])
  }

  /**
   * Evictions follow insertion order: adding distinct keys to a cache bounded
   * by `maxEntries` evicts exactly the first `|keys| - maxEntries` of them,
   * oldest first, and keeps the rest, newest first.
   */
  lemma {:induction false} EvictsInInsertionOrder<K(!new), V>(maxEntries: nat, keys: seq<K>, value: V)
    requires 0 < maxEntries && NoDup(keys)
    ensures AddAll(New(maxEntries), keys, value).1 == keys[..Overflow(maxEntries, |keys|)]
    ensures AddAll(New(maxEntries), keys, value).0.order == Reverse(keys[Overflow(maxEntries, |keys|)..])
  {
    if |keys| > 0 {
      var p := keys[..|keys| - 1];
      NoDupSnoc(keys);
      EvictsInInsertionOrder(maxEntries, p, value);
      AddOneMore(maxEntries, keys, value);
    }
  }

  /** How many of `n` keys a cache bounded by `maxEntries` has evicted. */
  function Overflow(maxEntries: nat, n: nat): nat {
    if n <= maxEntries then 0 else n - maxEntries
  }

  /** The inductive step of `EvictsInInsertionOrder`: one more distinct key. */
  lemma AddOneMore<K(!new), V>(maxEntries: nat, keys: seq<K>, value: V)
    requires 0 < maxEntries && 0 < |keys|
    requires keys[|keys| - 1] !in keys[..|keys| - 1]
    requires var p := keys[..|keys| - 1];
             && AddAll(New(maxEntries), p, value).1 == p[..Overflow(maxEntries, |p|)]
             && AddAll(New(maxEntries), p, value).0.order == Reverse(p[Overflow(maxEntries, |p|)..])
    ensures AddAll(New(maxEntries), keys, value).1 == keys[..Overflow(maxEntries, |keys|)]
    ensures AddAll(New(maxEntries), keys, value).0.order == Reverse(keys[Overflow(maxEntries, |keys|)..])
  {
    var p := keys[..|keys| - 1];
    var prev := AddAll(New(maxEntries), p, value);
    AddFresh(prev.0, prev.1, keys, value);
  }

  /** Adding the last of `keys` to the cache that holds the others, with the evictions so far. */
  lemma AddFresh<K(!new), V>(c1: Cache<K, V>, evicted1: seq<K>, keys: seq<K>, value: V)
    requires Valid(c1) && 0 < c1.maxEntries && 0 < |keys|
    requires var p := keys[..|keys| - 1];
             var cut1 := Overflow(c1.maxEntries, |p|);
             && keys[|keys| - 1] !in p
             && evicted1 == p[..cut1]
             && c1.order == Reverse(p[cut1..])
    ensures var step := Add(c1, keys[|keys| - 1], value);
            var cut := Overflow(c1.maxEntries, |keys|);
            && evicted1 + (if step.1.Some? then [step.1.value.key] else []) == keys[..cut]
            && step.0.order == Reverse(keys[cut..])
  {
    if |keys| <= c1.maxEntries {
      AddFreshRoom(c1, evicted1, keys, value);
    } else {
      AddFreshFull(c1, evicted1, keys, value);
    }
  }

  /** `AddFresh` while there is room: nothing is evicted. */
  lemma AddFreshRoom<K(!new), V>(c1: Cache<K, V>, evicted1: seq<K>, keys: seq<K>, value: V)
    requires Valid(c1) && 0 < c1.maxEntries && 0 < |keys|
    requires var p := keys[..|keys| - 1];
             var cut1 := Overflow(c1.maxEntries, |p|);
             && keys[|keys| - 1] !in p
             && evicted1 == p[..cut1]
             && c1.order == Reverse(p[cut1..])
    requires |keys| <= c1.maxEntries
    ensures var step := Add(c1, keys[|keys| - 1], value);
            var cut := Overflow(c1.maxEntries, |keys|);
            && evicted1 + (if step.1.Some? then [step.1.value.key] else []) == keys[..cut]
            && step.0.order == Reverse(keys[cut..])
  {
    var p := keys[..|keys| - 1];
    SliceFacts(keys, 0);
    AddFreshBelowBound(c1, p[0..], keys[|keys| - 1], value);
  }

  /** `AddFresh` once the list is full: the oldest key goes. */
  lemma AddFreshFull<K(!new), V>(c1: Cache<K, V>, evicted1: seq<K>, keys: seq<K>, value: V)
    requires Valid(c1) && 0 < c1.maxEntries && 0 < |keys|
    requires var p := keys[..|keys| - 1];
             var cut1 := Overflow(c1.maxEntries, |p|);
             && keys[|keys| - 1] !in p
             && evicted1 == p[..cut1]
             && c1.order == Reverse(p[cut1..])
    requires |keys| > c1.maxEntries
    ensures var step := Add(c1, keys[|keys| - 1], value);
            var cut := Overflow(c1.maxEntries, |keys|);
            && evicted1 + (if step.1.Some? then [step.1.value.key] else []) == keys[..cut]
            && step.0.order == Reverse(keys[cut..])
  {
    var p := keys[..|keys| - 1];
    var cut1 := Overflow(c1.maxEntries, |p|);
    SliceFacts(keys, cut1);
    AddFreshAtBound(c1, p[cut1..], keys[|keys| - 1], value);
  }

  /** The slicing identities the inductive step of `EvictsInInsertionOrder` uses. */
  lemma SliceFacts<K>(keys: seq<K>, cut: nat)
    requires cut < |keys|
    ensures keys[cut..] == keys[..|keys| - 1][cut..] + [keys[|keys| - 1]]
    ensures keys[..cut + 1] == keys[..cut] + [keys[cut]]
    ensures keys[..|keys| - 1][..cut] == keys[..cut]
    ensures cut + 1 < |keys| ==> keys[..|keys| - 1][cut..][1..] + [keys[|keys| - 1]] == keys[cut + 1..]
  {
  }

  /** The last key of a duplicate-free list is not among the earlier ones, which are duplicate-free. */
  lemma NoDupSnoc<K>(s: seq<K>)
    requires NoDup(s) && 0 < |s|
    ensures NoDup(s[..|s| - 1]) && s[|s| - 1] !in s[..|s| - 1]
  {
  }

  /** One step of `EvictsInInsertionOrder` while the bound is not reached. */
  lemma AddFreshBelowBound<K(!new), V>(c: Cache<K, V>, kept: seq<K>, x: K, value: V)
    requires Valid(c) && c.order == Reverse(kept) && x !in kept
    requires c.maxEntries == 0 || |kept| + 1 <= c.maxEntries
    ensures Add(c, x, value).1 == None
    ensures Add(c, x, value).0.order == Reverse(kept + [x])
  {
    ReverseMembers(kept);
    ReverseSnoc(kept, x);
  }

  /** One step of `EvictsInInsertionOrder` once the bound is reached: the head of `kept` goes. */
  lemma AddFreshAtBound<K(!new), V>(c: Cache<K, V>, kept: seq<K>, x: K, value: V)
    requires Valid(c) && c.order == Reverse(kept) && x !in kept
    requires c.maxEntries != 0 && |kept| == c.maxEntries
    ensures 0 < |kept|
    ensures Add(c, x, value).1.Some? && Add(c, x, value).1.value.key == kept[0]
    ensures Add(c, x, value).0.order == Reverse(kept[1..] + [x])
  {
    ReverseMembers(kept);
    ReverseLast(kept);
    ReverseDropLast(kept);
    ReverseSnoc(kept[1..], x);
  }

  lemma ReverseSnoc<K>(t: seq<K>, x: K)
    ensures Reverse(t + [x]) == [x] + Reverse(t)
  {
    assert (t + [x])[..|t|] == t;
  }
}
