/**
 * The test vectors of the repository, restated over the model: the LRU
 * tests, the ring test with a hash that reads the node label as a decimal
 * number, and the group test with its three-entry database.
 */
module Scenarios {
  import opened Base
  import Strconv
  import Sorting
  import ConsistentHash
  import Lru
  import ByteViews
  import ByteCache
  import GeeCache
  import HttpPool

  /** The test's hash: the label read as a decimal number (`strconv.Atoi`), 0 for anything else. */
  function DecimalHash(b: Bytes): Hash32 {
    if Strconv.AllDigits(b) then Strconv.Atoi(b) % 0x1_0000_0000 else 0
  }

  /** The decimal hash of one- and two-digit labels. */
  lemma DecimalDigits(d: nat, e: nat)
    requires d < 10 && e < 10
    ensures DecimalHash([48 + d, 48 + e]) == 10 * d + e
    ensures DecimalHash([48 + e]) == e
  {
    var t: Bytes := [48 + e];
    assert t[..0] == [];
    assert Strconv.AllDigits(t);
    assert Strconv.Atoi(t) == e;
    var u: Bytes := [48 + d];
    assert u[..0] == [];
    assert Strconv.Atoi(u) == d;
    var s: Bytes := [48 + d, 48 + e];
    assert s[..1] == u;
    assert Strconv.AllDigits(s);
    assert Strconv.Atoi(s) == 10 * d + e;
  }

  /** The three virtual nodes of the single-digit peer `p` under the decimal hash: p, 1p, 2p. */
  lemma DigitPeerNodes(p: nat)
    requires p < 10
    ensures ConsistentHash.PeerNodes(DecimalHash, 3, [48 + p])
            == [ConsistentHash.Node(p, [48 + p]), ConsistentHash.Node(10 + p, [48 + p]), ConsistentHash.Node(20 + p, [48 + p])]
  {
    forall i | 0 <= i < 3 ensures DecimalHash(Strconv.Itoa(i) + [48 + p]) == 10 * i + p {
      assert Strconv.Itoa(i) + [48 + p] == [48 + i, 48 + p];
      DecimalDigits(i, p);
    }
  }

  /** The peer named by the digit `d`. */
  function P(d: nat): Bytes requires d < 10 { [48 + d] }

  function N(h: int, d: nat): ConsistentHash.Node requires d < 10 { ConsistentHash.Node(h, P(d)) }

  function Ring642(): ConsistentHash.Map {
    ConsistentHash.Add(ConsistentHash.New(3, DecimalHash), [P(6), P(4), P(2)])
  }

  function Ring6428(): ConsistentHash.Map {
    ConsistentHash.Add(Ring642(), [P(8)])
  }

  function Keys642(): seq<int> { [2, 4, 6, 12, 14, 16, 22, 24, 26] }

  function Keys6428(): seq<int> { [2, 4, 6, 8, 12, 14, 16, 18, 22, 24, 26, 28] }

  function Nodes642(): seq<ConsistentHash.Node> {
    [N(6, 6), N(16, 6), N(26, 6), N(4, 4), N(14, 4), N(24, 4), N(2, 2), N(12, 2), N(22, 2)]
  }

  /** What the lookups of the test vector need to know about the ring of "6", "4" and "2". */
  ghost predicate Shape642(m: ConsistentHash.Map) {
    && m.hash == DecimalHash && m.replicas == 3 && m.keys == Keys642()
    && 2 in m.hashMap && m.hashMap[2] == P(2)
    && 12 in m.hashMap && m.hashMap[12] == P(2)
    && 24 in m.hashMap && m.hashMap[24] == P(4)
  }

  /** The same after "8" joins. */
  ghost predicate Shape6428(m: ConsistentHash.Map) {
    && m.hash == DecimalHash && m.keys == Keys6428()
    && 2 in m.hashMap && m.hashMap[2] == P(2)
    && 12 in m.hashMap && m.hashMap[12] == P(2)
    && 24 in m.hashMap && m.hashMap[24] == P(4)
    && 28 in m.hashMap && m.hashMap[28] == P(8)
  }

  /** The virtual nodes of one more peer come after those of the others. */
  lemma VirtualNodesSnoc(hash: HashFn, replicas: int, peers: seq<Bytes>, peer: Bytes)
    ensures ConsistentHash.VirtualNodes(hash, replicas, peers + [peer])
            == ConsistentHash.VirtualNodes(hash, replicas, peers) + ConsistentHash.PeerNodes(hash, replicas, peer)
  {
    assert (peers + [peer])[..|peers|] == peers;
  }

  lemma VirtualNodes6()
    ensures ConsistentHash.VirtualNodes(DecimalHash, 3, [P(6)]) == [N(6, 6), N(16, 6), N(26, 6)]
  {
    DigitPeerNodes(6);
    VirtualNodesSnoc(DecimalHash, 3, [], P(6));
    assert [] + [P(6)] == [P(6)];
  }

  lemma VirtualNodes64()
    ensures ConsistentHash.VirtualNodes(DecimalHash, 3, [P(6), P(4)])
            == [N(6, 6), N(16, 6), N(26, 6), N(4, 4), N(14, 4), N(24, 4)]
  {
    VirtualNodes6();
    DigitPeerNodes(4);
    VirtualNodesSnoc(DecimalHash, 3, [P(6)], P(4));
    assert [P(6)] + [P(4)] == [P(6), P(4)];
  }

  lemma VirtualNodes642()
    ensures ConsistentHash.VirtualNodes(DecimalHash, 3, [P(6), P(4), P(2)]) == Nodes642()
  {
    VirtualNodes64();
    DigitPeerNodes(2);
    VirtualNodesSnoc(DecimalHash, 3, [P(6), P(4)], P(2));
    assert [P(6), P(4)] + [P(2)] == [P(6), P(4), P(2)];
  }

  lemma VirtualNodes8()
    ensures ConsistentHash.VirtualNodes(DecimalHash, 3, [P(8)]) == Nodes8()
  {
    DigitPeerNodes(8);
    assert [P(8)][..0] == [];
  }

  lemma HashesOf642()
    ensures ConsistentHash.Hashes(Nodes642()) == Hashes642()
  {
  }

  lemma Hashes8()
    ensures ConsistentHash.Hashes(Nodes8()) == [8, 18, 28]
  {
  }

  function Hashes642(): seq<int> { [6, 16, 26, 4, 14, 24, 2, 12, 22] }

  lemma Distinct642()
    ensures NoDup(Hashes642()) && NoDup(Keys642())
  {
  }

  lemma SameElements642()
    ensures forall x :: x in Hashes642() <==> x in Keys642()
  {
  }

  /** The node positions of "6", "4", "2" are those of the sorted ring. */
  lemma SameMultiset642()
    ensures multiset(Hashes642()) == multiset(Keys642())
  {
    Distinct642();
    SameElements642();
    Sorting.DistinctSameElements(Hashes642(), Keys642());
  }

  lemma Distinct6428()
    ensures NoDup(Keys642() + [8, 18, 28]) && NoDup(Keys6428())
  {
  }

  lemma SameElements6428()
    ensures forall x :: x in Keys642() + [8, 18, 28] <==> x in Keys6428()
  {
  }

  /** The old positions and those of "8" are those of the sorted ring. */
  lemma SameMultiset6428()
    ensures multiset(Keys642()) + multiset([8, 18, 28]) == multiset(Keys6428())
  {
    Distinct6428();
    SameElements6428();
    Sorting.DistinctSameElements(Keys642() + [8, 18, 28], Keys6428());
    assert multiset(Keys642() + [8, 18, 28]) == multiset(Keys642()) + multiset([8, 18, 28]);
  }

  lemma Sorted642()
    ensures Sorting.Sorted(Keys642())
  {
  }

  lemma Sorted6428()
    ensures Sorting.Sorted(Keys6428())
  {
  }

  lemma LastOf642(j: int)
    requires 0 <= j < 9
    ensures ConsistentHash.LastWith(Nodes642(), j)
  {
  }

  /** The positions of `Add(New(3, hash), "6", "4", "2")`. */
  lemma Ring642Keys()
    ensures Ring642().keys == Keys642()
  {
    VirtualNodes642();
    HashesOf642();
    SameMultiset642();
    Sorted642();
    Sorting.SortedUnique(Ring642().keys, Keys642());
  }

  /** Each node of `Add(New(3, hash), "6", "4", "2")` owns its position. */
  lemma Ring642Owner(j: int)
    requires 0 <= j < 9
    ensures Nodes642()[j].hash in Ring642().hashMap && Ring642().hashMap[Nodes642()[j].hash] == Nodes642()[j].peer
  {
    VirtualNodes642();
    LastOf642(j);
  }

  lemma Ring642Owners()
    ensures 2 in Ring642().hashMap && Ring642().hashMap[2] == P(2)
    ensures 12 in Ring642().hashMap && Ring642().hashMap[12] == P(2)
    ensures 24 in Ring642().hashMap && Ring642().hashMap[24] == P(4)
  {
    Ring642Owner(5);
    Ring642Owner(6);
    Ring642Owner(7);
  }

  lemma Ring642Valid()
    ensures ConsistentHash.Valid(Ring642())
    ensures Ring642().hash == DecimalHash && Ring642().replicas == 3
  {
    ConsistentHash.AddKeepsValid(ConsistentHash.New(3, DecimalHash), [P(6), P(4), P(2)]);
  }

  lemma Ring642Shape()
    ensures Shape642(Ring642())
  {
    Ring642Valid();
    Ring642Keys();
    Ring642Owners();
  }

  function Nodes8(): seq<ConsistentHash.Node> { [N(8, 8), N(18, 8), N(28, 8)] }

  /** Adding "8" puts nodes at 8, 18 and 28 among the old ones. */
  lemma Ring6428Keys(m: ConsistentHash.Map)
    requires ConsistentHash.VirtualNodes(m.hash, m.replicas, [P(8)]) == Nodes8() && m.keys == Keys642()
    ensures ConsistentHash.Add(m, [P(8)]).keys == Keys6428()
  {
    Hashes8();
    SameMultiset6428();
    Sorted6428();
    Sorting.SortedUnique(ConsistentHash.Add(m, [P(8)]).keys, Keys6428());
  }

  /** A position away from 8, 18 and 28 keeps its owner when "8" joins. */
  lemma Ring6428Kept(m: ConsistentHash.Map, h: int)
    requires ConsistentHash.VirtualNodes(m.hash, m.replicas, [P(8)]) == Nodes8()
    requires h in m.hashMap && h != 8 && h != 18 && h != 28
    ensures h in ConsistentHash.Add(m, [P(8)]).hashMap && ConsistentHash.Add(m, [P(8)]).hashMap[h] == m.hashMap[h]
  {
    Hashes8();
    ConsistentHash.AddKeepsOwner(m, [P(8)], h);
  }

  /** "8" owns its last node, 28. */
  lemma Ring6428New(m: ConsistentHash.Map)
    requires ConsistentHash.VirtualNodes(m.hash, m.replicas, [P(8)]) == Nodes8()
    ensures 28 in ConsistentHash.Add(m, [P(8)]).hashMap && ConsistentHash.Add(m, [P(8)]).hashMap[28] == P(8)
  {
    assert ConsistentHash.LastWith(Nodes8(), 2);
  }

  lemma Ring6428Shape(m: ConsistentHash.Map)
    requires Shape642(m)
    ensures Shape6428(ConsistentHash.Add(m, [P(8)]))
  {
    VirtualNodes8();
    var m' := ConsistentHash.Add(m, [P(8)]);
    Ring6428Keys(m);
    Ring6428Kept(m, 2);
    Ring6428Kept(m, 12);
    Ring6428Kept(m, 24);
    Ring6428New(m);
    Shape6428Intro(m');
  }

  lemma Shape6428Intro(m: ConsistentHash.Map)
    requires m.hash == DecimalHash && m.keys == Keys6428()
    requires 2 in m.hashMap && m.hashMap[2] == P(2)
    requires 12 in m.hashMap && m.hashMap[12] == P(2)
    requires 24 in m.hashMap && m.hashMap[24] == P(4)
    requires 28 in m.hashMap && m.hashMap[28] == P(8)
    ensures Shape6428(m)
  {
  }

  lemma Lookup1(m: ConsistentHash.Map, key: Bytes, e: nat, i: int)
    requires ConsistentHash.Valid(m) && m.hash == DecimalHash && Sorting.Sorted(m.keys)
    requires e < 10 && key == [48 + e]
    requires 0 <= i < |m.keys| && m.keys[i] >= e && (i == 0 || m.keys[i - 1] < e)
    ensures m.keys[i] in m.hashMap && ConsistentHash.Get(m, key) == m.hashMap[m.keys[i]]
  {
    DecimalDigits(0, e);
    ConsistentHash.OwnerIndexOfSorted(m.keys, e, i);
    ConsistentHash.GetIsFirstAtOrAfter(m, key, i);
  }

  lemma Lookup2(m: ConsistentHash.Map, key: Bytes, d: nat, e: nat, i: int)
    requires ConsistentHash.Valid(m) && m.hash == DecimalHash && Sorting.Sorted(m.keys)
    requires d < 10 && e < 10 && key == [48 + d, 48 + e]
    requires 0 <= i < |m.keys| && m.keys[i] >= 10 * d + e && (i == 0 || m.keys[i - 1] < 10 * d + e)
    ensures m.keys[i] in m.hashMap && ConsistentHash.Get(m, key) == m.hashMap[m.keys[i]]
  {
    DecimalDigits(d, e);
    ConsistentHash.OwnerIndexOfSorted(m.keys, 10 * d + e, i);
    ConsistentHash.GetIsFirstAtOrAfter(m, key, i);
  }

  lemma Lookup2Wrap(m: ConsistentHash.Map, key: Bytes, d: nat, e: nat)
    requires ConsistentHash.Valid(m) && m.hash == DecimalHash && Sorting.Sorted(m.keys)
    requires d < 10 && e < 10 && key == [48 + d, 48 + e]
    requires 0 < |m.keys| && m.keys[|m.keys| - 1] < 10 * d + e
    ensures m.keys[0] in m.hashMap && ConsistentHash.Get(m, key) == m.hashMap[m.keys[0]]
  {
    DecimalDigits(d, e);
    forall j | 0 <= j < |m.keys| ensures m.keys[j] < 10 * d + e {
      assert m.keys[j] <= m.keys[|m.keys| - 1];
    }
    ConsistentHash.GetIsFirstAtOrAfter(m, key, 0);
  }

  lemma Lookup642Of2(m: ConsistentHash.Map)
    requires ConsistentHash.Valid(m) && Shape642(m)
    ensures ConsistentHash.Get(m, [50]) == [50]
  {
    Sorted642();
    Lookup1(m, [50], 2, 0);
    assert m.keys[0] == 2;
    assert P(2) == [50];
  }

  lemma Lookup642Of11(m: ConsistentHash.Map)
    requires ConsistentHash.Valid(m) && Shape642(m)
    ensures ConsistentHash.Get(m, [49, 49]) == [50]
  {
    Sorted642();
    Lookup2(m, [49, 49], 1, 1, 3);
    assert m.keys[3] == 12;
    assert P(2) == [50];
  }

  lemma Lookup642Of23(m: ConsistentHash.Map)
    requires ConsistentHash.Valid(m) && Shape642(m)
    ensures ConsistentHash.Get(m, [50, 51]) == [52]
  {
    Sorted642();
    Lookup2(m, [50, 51], 2, 3, 7);
    assert m.keys[7] == 24;
    assert P(4) == [52];
  }

  lemma Lookup642Of27(m: ConsistentHash.Map)
    requires ConsistentHash.Valid(m) && Shape642(m)
    ensures ConsistentHash.Get(m, [50, 55]) == [50]
  {
    Sorted642();
    Lookup2Wrap(m, [50, 55], 2, 7);
    assert m.keys[0] == 2;
    assert P(2) == [50];
  }

  lemma Lookup6428Of2(m: ConsistentHash.Map)
    requires ConsistentHash.Valid(m) && Shape6428(m)
    ensures ConsistentHash.Get(m, [50]) == [50]
  {
    Sorted6428();
    Lookup1(m, [50], 2, 0);
    assert m.keys[0] == 2;
    assert P(2) == [50];
  }

  lemma Lookup6428Of11(m: ConsistentHash.Map)
    requires ConsistentHash.Valid(m) && Shape6428(m)
    ensures ConsistentHash.Get(m, [49, 49]) == [50]
  {
    Sorted6428();
    Lookup2(m, [49, 49], 1, 1, 4);
    assert m.keys[4] == 12;
    assert P(2) == [50];
  }

  lemma Lookup6428Of23(m: ConsistentHash.Map)
    requires ConsistentHash.Valid(m) && Shape6428(m)
    ensures ConsistentHash.Get(m, [50, 51]) == [52]
  {
    Sorted6428();
    Lookup2(m, [50, 51], 2, 3, 9);
    assert m.keys[9] == 24;
    assert P(4) == [52];
  }

  lemma Lookup6428Of27(m: ConsistentHash.Map)
    requires ConsistentHash.Valid(m) && Shape6428(m)
    ensures ConsistentHash.Get(m, [50, 55]) == [56]
  {
    Sorted6428();
    Lookup2(m, [50, 55], 2, 7, 11);
    assert m.keys[11] == 28;
    assert P(8) == [56];
  }

  /**
   * The ring test: with three replicas, peers "6", "4", "2" place nodes at
   * 2, 4, 6, 12, 14, 16, 22, 24, 26; keys "2", "11", "23", "27" go to "2",
   * "2", "4", "2". Adding "8" places 8, 18, 28, and "27" moves to "8".
   */
  lemma HashingVector()
    ensures ConsistentHash.Get(Ring642(), [50]) == [50]
    ensures ConsistentHash.Get(Ring642(), [49, 49]) == [50]
    ensures ConsistentHash.Get(Ring642(), [50, 51]) == [52]
    ensures ConsistentHash.Get(Ring642(), [50, 55]) == [50]
    ensures ConsistentHash.Get(Ring6428(), [50]) == [50]
    ensures ConsistentHash.Get(Ring6428(), [49, 49]) == [50]
    ensures ConsistentHash.Get(Ring6428(), [50, 51]) == [52]
    ensures ConsistentHash.Get(Ring6428(), [50, 55]) == [56]
  {
    Ring642Shape();
    Ring642Valid();
    ConsistentHash.AddKeepsValid(Ring642(), [P(8)]);
    Lookup642Of2(Ring642());
    Lookup642Of11(Ring642());
    Lookup642Of23(Ring642());
    Lookup642Of27(Ring642());
    Ring6428Shape(Ring642());
    Lookup6428Of2(Ring6428());
    Lookup6428Of11(Ring6428());
    Lookup6428Of23(Ring6428());
    Lookup6428Of27(Ring6428());
  }

  /** The string keys of the LRU tests, as bytes. */
  function Key1(): Bytes { Ascii("key1") }
  function Key2(): Bytes { Ascii("key2") }

  /** `TestGet` of the LRU list: an added key is found with its value, another key is not. */
  lemma LruGetVector()
    ensures var c := Lru.Add(Lru.New(0), Key1(), 1234).0;
            && Lru.Get(c, Key1()).1 == Some(1234)
            && Lru.Get(c, Key2()).1 == None
  {
    assert Key1() != Key2() by { assert Key1()[3] != Key2()[3]; }
  }

  /** `TestRemoveOldest`: with room for one entry, adding a second evicts the first. */
  lemma LruRemoveOldestVector()
    ensures var c := Lru.Add(Lru.Add(Lru.New(1), Key1(), 1234).0, Key2(), 1324).0;
            Lru.Get(c, Key1()).1 == None
  {
    assert Key1() != Key2() by { assert Key1()[3] != Key2()[3]; }
    var c1 := Lru.Add(Lru.New(1), Key1(), 1234).0;
    assert c1.order == [Key1()];
  }

  /** `fmt.Sprintf("myKey%d", i)`. */
  function MyKey(i: nat): Bytes {
    Ascii("myKey") + Strconv.Itoa(i)
  }

  /** The keys of `TestEvict`, in insertion order. */
  function MyKeys(n: nat): (keys: seq<Bytes>)
    ensures |keys| == n
    ensures forall i :: 0 <= i < n ==> keys[i] == MyKey(i)
  {
    seq(n, i requires 0 <= i => MyKey(i))
  }

  /** Distinct numbers give distinct keys. */
  lemma MyKeysDistinct(n: nat)
    ensures NoDup(MyKeys(n))
  {
    var keys := MyKeys(n);
    forall i, j | 0 <= i < j < n ensures keys[i] != keys[j] {
      var prefix := Ascii("myKey");
      if keys[i] == keys[j] {
        assert keys[i][|prefix|..] == Strconv.Itoa(i);
        assert keys[j][|prefix|..] == Strconv.Itoa(j);
        Strconv.ItoaInjective(i, j);
      }
    }
  }

  /** `TestEvict`: 22 distinct keys into a list of 20 evict exactly "myKey0" then "myKey1". */
  lemma LruEvictVector()
    ensures Lru.AddAll(Lru.New(20), MyKeys(22), 1234).1 == [MyKey(0), MyKey(1)]
  {
    MyKeysDistinct(22);
    Lru.EvictsInInsertionOrder(20, MyKeys(22), 1234);
    assert Lru.Overflow(20, 22) == 2;
  }

  /** The test database. */
  function Db(): map<Bytes, Bytes> {
    map[Ascii("coffee") := Ascii("sold out"), Ascii("cola") := Ascii("pepsi"), Ascii("snack") := Ascii("cheetos")]
  }

  /** The test's loader: the database entry, or "key ... not found". */
  function DbLoader(key: Bytes): Result<Bytes, Bytes> {
    if key in Db() then Success(Db()[key]) else Failure(Ascii("key ") + key + Ascii(" not found"))
  }

  /** `NewGroup("testCache", 2<<10, loader)` into an empty registry. */
  function TestGroup(): GeeCache.Group {
    GeeCache.Group(Ascii("testCache"), DbLoader, ByteCache.Zero, None, 2048)
  }

  /** The peers are never asked: the test group has no picker. */
  function NoNetwork(getter: HttpPool.PeerGetter, request: GeeCache.Request): Result<Bytes, Bytes> {
    Failure([])
  }

  /** The test's `for key := range db { cache.Get(key) }`: each key in turn, the cache threaded through. */
  function RunGets(g: GeeCache.Group, keys: seq<Bytes>): (r: (ByteCache.Cache, seq<Result<ByteViews.ByteView, GeeCache.Error>>, seq<GeeCache.Call>))
    requires GeeCache.Inv(g)
    ensures GeeCache.Inv(g.(mainCache := r.0)) && |r.1| == |keys|
    decreases |keys|
  {
    if |keys| == 0 then (g.mainCache, [], [])
    else
      var o := GeeCache.Get(g, keys[0], NoNetwork);
      var rest := RunGets(g.(mainCache := o.cache), keys[1..]);
      (rest.0, [o.result] + rest.1, o.calls + rest.2)
  }

  /** Every cached entry is the database's entry for its key. */
  ghost predicate FromDb(c: ByteCache.Cache) {
    forall k :: k in ByteCache.Values(c) ==> k in Db() && ByteCache.Values(c)[k] == ByteViews.OfBytes(Db()[k])
  }

  /** The test group with some of the database cached. */
  ghost predicate DbGroup(g: GeeCache.Group) {
    && g.getter == DbLoader && g.peers.None? && g.cacheBytes == 2048
    && GeeCache.Inv(g) && FromDb(g.mainCache)
  }

  /** The database has three keys, and no entry is charged more than 14 bytes. */
  lemma DbShape()
    ensures |Db().Keys| == 3
    ensures forall k :: k in Db() ==> k != [] && |k| + |Db()[k]| <= 14
  {
    var coffee, cola, snack := Ascii("coffee"), Ascii("cola"), Ascii("snack");
    assert |coffee| == 6 && |cola| == 4 && |snack| == 5;
    assert Db().Keys == {coffee, cola, snack};
    assert |Ascii("sold out")| == 8 && |Ascii("pepsi")| == 5 && |Ascii("cheetos")| == 7;
  }

  /** A list of keys each charged at most `m` is charged at most `m` per key. */
  lemma {:induction false} FootprintAtMost(keys: seq<Bytes>, values: map<Bytes, ByteViews.ByteView>, m: nat)
    requires forall k :: k in keys && k in values ==> ByteCache.EntrySize(k, values[k]) <= m
    ensures ByteCache.Footprint(keys, values) <= |keys| * m
  {
    if |keys| > 0 {
      assert keys[0] in keys;
      FootprintAtMost(keys[1..], values, m);
      assert |keys| * m == m + (|keys| - 1) * m;
    }
  }

  /** A cache holding only database entries holds at most three. */
  lemma DbCacheCount(c: ByteCache.Cache)
    requires ByteCache.Wellformed(c) && FromDb(c)
    ensures ByteCache.Count(c) <= 3
  {
    DbShape();
    var values := ByteCache.Values(c);
    if c.lru.Some? {
      assert Lru.Len(c.lru.value) == |values|;
    }
    assert values.Keys <= Db().Keys;
    var rest := Db().Keys - values.Keys;
    assert Db().Keys == values.Keys + rest;
  }

  /** A cache holding only database entries is charged at most 3 * 14 bytes. */
  lemma DbCacheSmall(c: ByteCache.Cache)
    requires ByteCache.Accounted(c) && FromDb(c)
    ensures c.nbytes <= 42
  {
    DbCacheCount(c);
    DbShape();
    var order, values := ByteCache.Order(c), ByteCache.Values(c);
    forall k | k in order && k in values
      ensures ByteCache.EntrySize(k, values[k]) <= 14
    {
      assert values[k] == ByteViews.OfBytes(Db()[k]);
    }
    FootprintAtMost(order, values, 14);
    assert |order| * 14 <= 42;
  }

  /** One `Get` of a database key: answered with its entry, cached, and with no call when it was cached already. */
  lemma DbGetStep(g: GeeCache.Group, key: Bytes)
    requires DbGroup(g) && key in Db()
    ensures var o := GeeCache.Get(g, key, NoNetwork);
            && DbGroup(g.(mainCache := o.cache))
            && o.result == Success(ByteViews.OfBytes(Db()[key]))
            && (forall k :: ByteCache.Contains(o.cache, k) <==> ByteCache.Contains(g.mainCache, k) || k == key)
            && (ByteCache.Contains(g.mainCache, key) ==> o.calls == [])
  {
    DbShape();
    if !ByteCache.Contains(g.mainCache, key) {
      DbMissStep(g, key);
    }
  }

  /** A miss loads the record from the table and, the cache being small, keeps it. */
  lemma DbMissStep(g: GeeCache.Group, key: Bytes)
    requires DbGroup(g) && key in Db() && !ByteCache.Contains(g.mainCache, key)
    ensures var o := GeeCache.Get(g, key, NoNetwork);
            && DbGroup(g.(mainCache := o.cache))
            && o.result == Success(ByteViews.OfBytes(Db()[key]))
            && (forall k :: ByteCache.Contains(o.cache, k) <==> ByteCache.Contains(g.mainCache, k) || k == key)
  {
    var value := ByteViews.OfBytes(Db()[key]);
    DbMissAdds(g, key);
    DbAddKeeps(g.mainCache, key, value);
  }

  /** The miss fits the budget, so it adds the record and evicts nothing. */
  lemma DbMissAdds(g: GeeCache.Group, key: Bytes)
    requires DbGroup(g) && key in Db() && !ByteCache.Contains(g.mainCache, key)
    ensures var o := GeeCache.Get(g, key, NoNetwork);
            && GeeCache.Inv(g.(mainCache := o.cache))
            && o.result == Success(ByteViews.OfBytes(Db()[key]))
            && o.cache == ByteCache.Add(g.mainCache, key, ByteViews.OfBytes(Db()[key]))
  {
    DbShape();
    DbCacheSmall(g.mainCache);
    GeeCache.GetMissWithoutPeer(g, key, NoNetwork);
    GeeCache.GetMissCaches(g, key, NoNetwork);
  }

  /** Adding a record of the table to a cache of such records keeps it one, with one more key. */
  lemma DbAddKeeps(c: ByteCache.Cache, key: Bytes, value: ByteViews.ByteView)
    requires ByteCache.Wellformed(c) && FromDb(c) && key in Db() && value == ByteViews.OfBytes(Db()[key])
    requires !ByteCache.Contains(c, key)
    ensures FromDb(ByteCache.Add(c, key, value))
    ensures forall k :: ByteCache.Contains(ByteCache.Add(c, key, value), k) <==> ByteCache.Contains(c, k) || k == key
  {
  }

  /** A run of `Get`s over database keys keeps the group's shape and caches every key asked for, evicting nothing. */
  lemma DbRunCaches(g: GeeCache.Group, keys: seq<Bytes>)
    requires DbGroup(g) && forall i :: 0 <= i < |keys| ==> keys[i] in Db()
    ensures var r := RunGets(g, keys);
            && DbGroup(g.(mainCache := r.0))
            && (forall k :: ByteCache.Contains(r.0, k) <==> ByteCache.Contains(g.mainCache, k) || k in keys)
  {
    DbRunGroup(g, keys);
    DbRunKeys(g, keys);
  }

  /** A run of `Get`s over database keys keeps the group's shape. */
  lemma {:induction false} DbRunGroup(g: GeeCache.Group, keys: seq<Bytes>)
    requires DbGroup(g) && forall i :: 0 <= i < |keys| ==> keys[i] in Db()
    ensures DbGroup(g.(mainCache := RunGets(g, keys).0))
    decreases |keys|
  {
    if |keys| > 0 {
      DbGetStep(g, keys[0]);
      var g1 := g.(mainCache := GeeCache.Get(g, keys[0], NoNetwork).cache);
      DbRunGroup(g1, keys[1..]);
      var cache := RunGets(g1, keys[1..]).0;
      assert RunGets(g, keys).0 == cache;
      assert g.(mainCache := cache) == g1.(mainCache := cache);
    }
  }

  /** A run of `Get`s over database keys caches every key asked for and evicts nothing. */
  lemma {:induction false} DbRunKeys(g: GeeCache.Group, keys: seq<Bytes>)
    requires DbGroup(g) && forall i :: 0 <= i < |keys| ==> keys[i] in Db()
    ensures forall k :: ByteCache.Contains(RunGets(g, keys).0, k) <==> ByteCache.Contains(g.mainCache, k) || k in keys
    decreases |keys|
  {
    if |keys| > 0 {
      DbGetStep(g, keys[0]);
      var g1 := g.(mainCache := GeeCache.Get(g, keys[0], NoNetwork).cache);
      DbRunKeys(g1, keys[1..]);
      var cache := RunGets(g1, keys[1..]).0;
      assert RunGets(g, keys).0 == cache;
      forall k
        ensures ByteCache.Contains(cache, k) <==> ByteCache.Contains(g.mainCache, k) || k in keys
      {
        assert k in keys <==> k == keys[0] || k in keys[1..];
      }
    }
  }

  /** A run of `Get`s over database keys answers each key with its database entry. */
  lemma {:induction false} DbRunAnswers(g: GeeCache.Group, keys: seq<Bytes>)
    requires DbGroup(g) && forall i :: 0 <= i < |keys| ==> keys[i] in Db()
    ensures var r := RunGets(g, keys);
            forall i :: 0 <= i < |keys| ==> r.1[i] == Success(ByteViews.OfBytes(Db()[keys[i]]))
    decreases |keys|
  {
    if |keys| > 0 {
      DbGetStep(g, keys[0]);
      var g1 := g.(mainCache := GeeCache.Get(g, keys[0], NoNetwork).cache);
      DbRunAnswers(g1, keys[1..]);
      var results := RunGets(g, keys).1;
      assert results[1..] == RunGets(g1, keys[1..]).1;
      forall i | 0 < i < |keys|
        ensures results[i] == Success(ByteViews.OfBytes(Db()[keys[i]]))
      {
        assert results[i] == results[1..][i - 1];
        assert keys[1..][i - 1] == keys[i];
      }
    }
  }

  /** A run of `Get`s over database keys that are all cached already makes no call. */
  lemma {:induction false} DbRunQuiet(g: GeeCache.Group, keys: seq<Bytes>)
    requires DbGroup(g) && forall i :: 0 <= i < |keys| ==> keys[i] in Db()
    requires forall i :: 0 <= i < |keys| ==> ByteCache.Contains(g.mainCache, keys[i])
    ensures RunGets(g, keys).2 == []
    decreases |keys|
  {
    if |keys| > 0 {
      DbGetStep(g, keys[0]);
      var g1 := g.(mainCache := GeeCache.Get(g, keys[0], NoNetwork).cache);
      forall i | 0 <= i < |keys| - 1
        ensures keys[1..][i] in Db() && ByteCache.Contains(g1.mainCache, keys[1..][i])
      {
        assert keys[1..][i] == keys[i + 1];
      }
      DbRunQuiet(g1, keys[1..]);
    }
  }

  /** Two passes over database keys: every key answered with its entry, and the second pass calls nothing once the first has covered the database. */
  lemma TwoPasses(g: GeeCache.Group, first: seq<Bytes>, second: seq<Bytes>)
    requires DbGroup(g)
    requires forall i :: 0 <= i < |first| ==> first[i] in Db()
    requires forall k :: k in Db() ==> k in first
    requires forall i :: 0 <= i < |second| ==> second[i] in Db()
    ensures var r1 := RunGets(g, first);
            var g1 := g.(mainCache := r1.0);
            var r2 := RunGets(g1, second);
            && DbGroup(g1.(mainCache := r2.0))
            && (forall i :: 0 <= i < |first| ==> r1.1[i] == Success(ByteViews.OfBytes(Db()[first[i]])))
            && (forall i :: 0 <= i < |second| ==> r2.1[i] == Success(ByteViews.OfBytes(Db()[second[i]])))
            && r2.2 == []
  {
    DbRunCaches(g, first);
    DbRunAnswers(g, first);
    var g1 := g.(mainCache := RunGets(g, first).0);
    forall i | 0 <= i < |second|
      ensures ByteCache.Contains(g1.mainCache, second[i])
    {
      assert second[i] in first;
    }
    DbRunCaches(g1, second);
    DbRunAnswers(g1, second);
    DbRunQuiet(g1, second);
  }

  /** The key the test asks for last. */
  function UnknownKet(): (k: Bytes)
    ensures |k| == 11
  {
    Ascii("unknown_ket")
  }

  /** "unknown_ket" is not in the database, so asking for it is the loader's error, whatever is cached. */
  lemma UnknownKeyFails(g: GeeCache.Group)
    requires DbGroup(g)
    ensures GeeCache.Get(g, UnknownKet(), NoNetwork).result.Failure?
  {
    var unknown := UnknownKet();
    DbShape();
    assert |unknown| == 11 && unknown !in Db();
    assert !ByteCache.Contains(g.mainCache, unknown);
    GeeCache.GetLoaderError(g, unknown, NoNetwork);
  }

  /**
   * `TestGet` of the group: `NewGroup("testCache", 2<<10, loader)` builds
   * the test group; a first pass over the database keys (in whatever order
   * the map is ranged over) answers every key with its entry; a second pass
   * answers them all again from the cache, with no load; then
   * "unknown_ket" is an error on the filled cache.
   */
  lemma GroupGetVector(first: seq<Bytes>, second: seq<Bytes>)
    requires forall i :: 0 <= i < |first| ==> first[i] in Db()
    requires forall k :: k in Db() ==> k in first
    requires forall i :: 0 <= i < |second| ==> second[i] in Db()
    ensures var r := GeeCache.NewGroup(map[], Ascii("testCache"), 2048, Some(DbLoader));
            r.Success? && r.value.1 == TestGroup()
    ensures var g := TestGroup();
            var r1 := RunGets(g, first);
            var g1 := g.(mainCache := r1.0);
            var r2 := RunGets(g1, second);
            && (forall i :: 0 <= i < |first| ==> r1.1[i] == Success(ByteViews.OfBytes(Db()[first[i]])))
            && (forall i :: 0 <= i < |second| ==> r2.1[i] == Success(ByteViews.OfBytes(Db()[second[i]])))
            && r2.2 == []
            && GeeCache.Get(g1.(mainCache := r2.0), UnknownKet(), NoNetwork).result.Failure?
  {
    var g := TestGroup();
    assert DbGroup(g);
    TwoPasses(g, first, second);
    var g1 := g.(mainCache := RunGets(g, first).0);
    UnknownKeyFails(g1.(mainCache := RunGets(g1, second).0));
  }
}
