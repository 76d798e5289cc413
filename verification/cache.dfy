/**
 * The byte-accounting wrapper `cache` around the LRU list: it counts
 * `len(key) + value.Len()` per entry in `nbytes`, and its eviction callback
 * subtracts the evicted entry's share.
 */
module ByteCache {
  import opened Base
  import opened ByteViews
  import Lru

  /** `lru == None` is the nil list of the zero value `cache{}`. */
  datatype Cache = Cache(lru: Option<Lru.Cache<Bytes, ByteView>>, nbytes: int)

  /** The zero value. */
  const Zero: Cache := Cache(None, 0)

  /** What one entry is charged: `len(key) + value.Len()`. */
  function EntrySize(key: Bytes, value: ByteView): nat {
    |key| + Len(value)
  }

  /** The recency list, most recent first. */
  function Order(c: Cache): seq<Bytes> {
    if c.lru.Some? then c.lru.value.order else []
  }

  function Values(c: Cache): map<Bytes, ByteView> {
    if c.lru.Some? then c.lru.value.values else map[]
  }

  predicate Contains(c: Cache, key: Bytes) {
    key in Values(c)
  }

  /** The number of entries. */
  function Count(c: Cache): nat {
    |Order(c)|
  }

  /** `bytes()`: with exact accounting, the summed charge of the entries present, so never negative. */
  function NBytes(c: Cache): (n: int)
    ensures Accounted(c) ==> n == Footprint(Order(c), Values(c)) && n >= 0
  {
    c.nbytes
  }

  /** The list is consistent and, as `add` creates it, unbounded (`MaxEntries` 0). */
  ghost predicate Wellformed(c: Cache) {
    c.lru.Some? ==> Lru.Valid(c.lru.value) && c.lru.value.maxEntries == 0
  }

  /** The summed charge of the listed keys. */
  function Footprint(keys: seq<Bytes>, values: map<Bytes, ByteView>): nat {
    if |keys| == 0 then 0
    else (if keys[0] in values then EntrySize(keys[0], values[keys[0]]) else 0) + Footprint(keys[1..], values)
  }

  /** The accounting invariant: `nbytes` is the exact charge of the entries present. */
  ghost predicate Accounted(c: Cache) {
    Wellformed(c) && c.nbytes == Footprint(Order(c), Values(c))
  }

  /** The footprint only depends on the values of the listed keys. */
  lemma {:induction false} FootprintFrame(keys: seq<Bytes>, m1: map<Bytes, ByteView>, m2: map<Bytes, ByteView>)
    requires forall k :: k in keys ==> (k in m1 <==> k in m2)
    requires forall k :: k in keys && k in m1 ==> m1[k] == m2[k]
    ensures Footprint(keys, m1) == Footprint(keys, m2)
  {
    if |keys| > 0 {
      assert keys[0] in keys;
      FootprintFrame(keys[1..], m1, m2);
    }
  }

  /** Unlinking a present key takes exactly its charge off the footprint. */
  lemma {:induction false} FootprintRemove(keys: seq<Bytes>, values: map<Bytes, ByteView>, k: Bytes)
    requires NoDup(keys) && k in keys && k in values
    ensures Footprint(keys, values) == EntrySize(k, values[k]) + Footprint(Lru.Remove(keys, k), values)
  {
    if keys[0] != k {
      FootprintRemove(keys[1..], values, k);
      assert Lru.Remove(keys, k)[1..] == Lru.Remove(keys[1..], k);
    } else {
      assert k !in keys[1..];
    }
  }

  /** The footprint grows by one charge per key appended. */
  lemma {:induction false} FootprintSnoc(keys: seq<Bytes>, values: map<Bytes, ByteView>)
    requires 0 < |keys|
    ensures var last := keys[|keys| - 1];
            Footprint(keys, values)
            == Footprint(keys[..|keys| - 1], values) + (if last in values then EntrySize(last, values[last]) else 0)
  {
    if |keys| > 1 {
      FootprintSnoc(keys[1..], values);
      assert keys[1..][..|keys| - 2] == keys[..|keys| - 1][1..];
    }
  }

  /** `add`: creates the unbounded list on first use, adds, and charges the entry's size. */
  function Add(c: Cache, key: Bytes, value: ByteView): (c': Cache)
    requires Wellformed(c)
    ensures Wellformed(c') && c'.lru.Some?
    ensures Contains(c', key) && Values(c')[key] == value && Order(c')[0] == key
    ensures c'.nbytes == c.nbytes + EntrySize(key, value)
    ensures Count(c') == Count(c) + (if Contains(c, key) then 0 else 1)
    ensures !Contains(c, key) ==> Order(c') == [key] + Order(c)
    ensures !Contains(c, key) ==> Values(c') == Values(c)[key := value]
    ensures Contains(c, key) ==> Order(c') == Lru.MoveToFront(Order(c), key) && Values(c') == Values(c)[key := value]
  {
    var lru := if c.lru.Some? then c.lru.value else Lru.New(0);
    // The list is unbounded, so `Lru.Add` evicts nothing and the callback does not fire here.
    var (lru', _) := Lru.Add(lru, key, value);
    Cache(Some(lru'), c.nbytes + EntrySize(key, value))
  }

  /** `add` of an absent key keeps `nbytes` equal to the footprint. */
  lemma AddKeepsAccounted(c: Cache, key: Bytes, value: ByteView)
    requires Accounted(c) && !Contains(c, key)
    ensures Accounted(Add(c, key, value))
  {
    var c' := Add(c, key, value);
    FootprintFrame(Order(c), Values(c), Values(c'));
  }

  /** `get`: a hit returns the stored value and promotes the entry; nothing is charged. */
  function Get(c: Cache, key: Bytes): (r: (Cache, Option<ByteView>))
    requires Wellformed(c)
    ensures r.1.Some? <==> Contains(c, key)
    ensures Contains(c, key) ==> r.1.value == Values(c)[key] && Order(r.0) == Lru.MoveToFront(Order(c), key)
    ensures !Contains(c, key) ==> r.0 == c
    ensures Wellformed(r.0) && Values(r.0) == Values(c) && Count(r.0) == Count(c)
    ensures r.0.nbytes == c.nbytes
  {
    if c.lru.None? then (c, None)
    else
      var (lru', hit) := Lru.Get(c.lru.value, key);
      (c.(lru := Some(lru')), hit)
  }

  /** Promoting an entry reorders the list but keeps `nbytes` equal to the footprint. */
  lemma GetKeepsAccounted(c: Cache, key: Bytes)
    requires Accounted(c)
    ensures Accounted(Get(c, key).0)
  {
    if Contains(c, key) {
      FootprintRemove(Order(c), Values(c), key);
    }
  }

  /** `removeOldest`: evicts the least recently used entry; the callback takes its charge off `nbytes`. */
  function RemoveOldest(c: Cache): (c': Cache)
    requires Wellformed(c)
    ensures Wellformed(c')
    ensures Count(c) == 0 ==> c' == c
    ensures Count(c) > 0 ==>
              var oldest := Order(c)[Count(c) - 1];
              && Order(c') == Order(c)[..Count(c) - 1]
              && Values(c') == Values(c) - {oldest}
              && c'.nbytes == c.nbytes - EntrySize(oldest, Values(c)[oldest])
  {
    if c.lru.None? then c
    else
      var (lru', evicted) := Lru.RemoveOldest(c.lru.value);
      Cache(Some(lru'), c.nbytes - (if evicted.Some? then EntrySize(evicted.value.key, evicted.value.value) else 0))
  }

  /** Evicting the oldest entry takes exactly its charge off, so `nbytes` stays equal to the footprint. */
  lemma RemoveOldestKeepsAccounted(c: Cache)
    requires Accounted(c)
    ensures Accounted(RemoveOldest(c))
  {
    if Count(c) > 0 {
      var c' := RemoveOldest(c);
      var keys := Order(c);
      FootprintSnoc(keys, Values(c));
      assert keys[|keys| - 1] !in keys[..|keys| - 1];
      FootprintFrame(keys[..|keys| - 1], Values(c), Values(c'));
    }
  }

  /** With the invariant, an empty cache is charged nothing and the charge is never negative. */
  lemma EmptyMeansZero(c: Cache)
    requires Accounted(c)
    ensures NBytes(c) >= 0
    ensures Count(c) == 0 ==> NBytes(c) == 0
  {
  }

  /**
   * `add` of a key already present charges the new entry in full without
   * taking off the old one: `nbytes` then exceeds the footprint by the old
   * entry's charge.
   */
  lemma AddPresentOvercounts(c: Cache, key: Bytes, value: ByteView)
    requires Accounted(c) && Contains(c, key)
    ensures var c' := Add(c, key, value);
            c'.nbytes == Footprint(Order(c'), Values(c')) + EntrySize(key, Values(c)[key])
  {
    var c' := Add(c, key, value);
    FootprintRemove(Order(c), Values(c), key);
    FootprintRemove(Order(c'), Values(c'), key);
    FootprintFrame(Lru.Remove(Order(c), key), Values(c), Values(c'));
  }

  /**
   * The over-charge outlives the entries: adding the same key twice and then
   * evicting leaves an empty cache whose `nbytes` is still the entry's
   * charge, and `removeOldest` can no longer lower it.
   */
  lemma OvercountOutlivesEntries(key: Bytes, value: ByteView)
    ensures var c := RemoveOldest(Add(Add(Zero, key, value), key, value));
            && Count(c) == 0
            && c.nbytes == EntrySize(key, value)
            && RemoveOldest(c) == c
  {
    var c1 := Add(Zero, key, value);
    var c2 := Add(c1, key, value);
    assert Count(c2) == 1;
  }
}
