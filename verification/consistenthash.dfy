/**
 * The consistent-hash ring `consistenthash.Map`: every peer owns `replicas`
 * virtual nodes on a ring of 32-bit hashes, and a key belongs to the peer of
 * the first node at or after the key's hash, wrapping round to the first node.
 */
module ConsistentHash {
  import opened Base
  import Strconv
  import Sorting

  /** A virtual node: its position on the ring and the peer it stands for. */
  datatype Node = Node(hash: int, peer: Bytes)

  /** `keys` are the sorted node positions; `hashMap` maps a position to its peer. */
  datatype Map = Map(hash: HashFn, replicas: int, keys: seq<int>, hashMap: map<int, Bytes>)

  /** The ring's invariant: sorted positions, each with an owner, and no owner without a position. */
  ghost predicate Valid(m: Map) {
    && Sorting.Sorted(m.keys)
    && forall h :: h in m.hashMap <==> h in m.keys
  }

  /** `New(replicas, hashFunc)` with a non-nil hash function (the CRC-32 default is not modelled). */
  function New(replicas: int, hash: HashFn): (m: Map)
    ensures Valid(m) && IsEmpty(m)
    ensures m.replicas == replicas
  {
    Map(hash, replicas, [], map[])
  }

  /** How many times the loop `for i := 0; i < replicas; i++` runs. */
  function NodesPerPeer(replicas: int): nat {
    if replicas < 0 then 0 else replicas
  }

  /** The virtual nodes of one peer, in the order the inner loop of `Add` creates them. */
  function PeerNodes(hash: HashFn, replicas: int, peer: Bytes): seq<Node> {
    seq(NodesPerPeer(replicas), i requires 0 <= i => Node(hash(Strconv.Itoa(i) + peer), peer))
  }

  /** The virtual nodes of all `peers`, in the order the loops of `Add` create them. */
  function VirtualNodes(hash: HashFn, replicas: int, peers: seq<Bytes>): (nodes: seq<Node>)
    ensures |nodes| == |peers| * NodesPerPeer(replicas)
    ensures forall j :: 0 <= j < |nodes| ==> nodes[j].peer in peers
  {
    if |peers| == 0 then []
    else
      var n := NodesPerPeer(replicas);
      assert (|peers| - 1) * n + n == |peers| * n;
      VirtualNodes(hash, replicas, peers[..|peers| - 1]) + PeerNodes(hash, replicas, peers[|peers| - 1])
  }

  function Hashes(nodes: seq<Node>): (hs: seq<int>)
    ensures |hs| == |nodes|
    ensures forall i :: 0 <= i < |nodes| ==> hs[i] == nodes[i].hash
  {
    seq(|nodes|, i requires 0 <= i < |nodes| => nodes[i].hash)
  }

  /** The `hashMap[hash] = key` assignments of `Add`, in order: a later node wins. */
  function Record(hashMap: map<int, Bytes>, nodes: seq<Node>): (r: map<int, Bytes>)
    ensures forall h :: h in r <==> h in hashMap || h in Hashes(nodes)
    ensures forall h :: h in hashMap && h !in Hashes(nodes) ==> r[h] == hashMap[h]
    ensures forall h :: h in r ==>
              (h in hashMap && r[h] == hashMap[h]) || exists j :: 0 <= j < |nodes| && nodes[j] == Node(h, r[h])
    ensures forall j :: 0 <= j < |nodes| && LastWith(nodes, j) ==> nodes[j].hash in r && r[nodes[j].hash] == nodes[j].peer
    decreases |nodes|
  {
    if |nodes| == 0 then hashMap
    else
      var r := Record(hashMap[nodes[0].hash := nodes[0].peer], nodes[1..]);
      RecordStep(hashMap, nodes, r);
      r
  }

  /** Node `j` is the last one placed at its position. */
  ghost predicate LastWith(nodes: seq<Node>, j: int)
    requires 0 <= j < |nodes|
  {
    forall j' :: j < j' < |nodes| ==> nodes[j'].hash != nodes[j].hash
  }

  /** The four facts `Record` keeps, about the tail of the nodes, lifted to all of them. */
  lemma RecordStep(hashMap: map<int, Bytes>, nodes: seq<Node>, r: map<int, Bytes>)
    requires 0 < |nodes|
    requires var first := hashMap[nodes[0].hash := nodes[0].peer];
             && (forall h :: h in r <==> h in first || h in Hashes(nodes[1..]))
             && (forall h :: h in first && h !in Hashes(nodes[1..]) ==> r[h] == first[h])
             && (forall h :: h in r ==>
                   (h in first && r[h] == first[h])
                   || exists j :: 0 <= j < |nodes[1..]| && nodes[1..][j] == Node(h, r[h]))
             && (forall j :: 0 <= j < |nodes[1..]| && LastWith(nodes[1..], j) ==>
                   nodes[1..][j].hash in r && r[nodes[1..][j].hash] == nodes[1..][j].peer)
    ensures forall h :: h in r <==> h in hashMap || h in Hashes(nodes)
    ensures forall h :: h in hashMap && h !in Hashes(nodes) ==> r[h] == hashMap[h]
    ensures forall h :: h in r ==>
              (h in hashMap && r[h] == hashMap[h]) || exists j :: 0 <= j < |nodes| && nodes[j] == Node(h, r[h])
    ensures forall j :: 0 <= j < |nodes| && LastWith(nodes, j) ==> nodes[j].hash in r && r[nodes[j].hash] == nodes[j].peer
  {
    var first := hashMap[nodes[0].hash := nodes[0].peer];
    RecordStepDomain(hashMap, nodes, first, r);
    RecordStepOrigin(hashMap, nodes, first, r);
    RecordStepLast(nodes, first, r);
  }

  lemma RecordStepDomain(hashMap: map<int, Bytes>, nodes: seq<Node>, first: map<int, Bytes>, r: map<int, Bytes>)
    requires 0 < |nodes| && first == hashMap[nodes[0].hash := nodes[0].peer]
    requires forall h :: h in r <==> h in first || h in Hashes(nodes[1..])
    requires forall h :: h in first && h !in Hashes(nodes[1..]) ==> r[h] == first[h]
    ensures forall h :: h in r <==> h in hashMap || h in Hashes(nodes)
    ensures forall h :: h in hashMap && h !in Hashes(nodes) ==> r[h] == hashMap[h]
  {
    assert Hashes(nodes) == [nodes[0].hash] + Hashes(nodes[1..]);
  }

  lemma RecordStepOrigin(hashMap: map<int, Bytes>, nodes: seq<Node>, first: map<int, Bytes>, r: map<int, Bytes>)
    requires 0 < |nodes| && first == hashMap[nodes[0].hash := nodes[0].peer]
    requires forall h :: h in r ==>
               (h in first && r[h] == first[h])
               || exists j :: 0 <= j < |nodes[1..]| && nodes[1..][j] == Node(h, r[h])
    ensures forall h :: h in r ==>
              (h in hashMap && r[h] == hashMap[h]) || exists j :: 0 <= j < |nodes| && nodes[j] == Node(h, r[h])
  {
    var tail := nodes[1..];
    forall h | h in r
      ensures (h in hashMap && r[h] == hashMap[h]) || exists j :: 0 <= j < |nodes| && nodes[j] == Node(h, r[h])
    {
      if h in first && r[h] == first[h] {
        if h == nodes[0].hash {
          assert nodes[0] == Node(h, r[h]);
        }
      } else {
        var j :| 0 <= j < |tail| && tail[j] == Node(h, r[h]);
        assert nodes[j + 1] == Node(h, r[h]);
      }
    }
  }

  lemma RecordStepLast(nodes: seq<Node>, first: map<int, Bytes>, r: map<int, Bytes>)
    requires 0 < |nodes| && nodes[0].hash in first && first[nodes[0].hash] == nodes[0].peer
    requires forall h :: h in r <==> h in first || h in Hashes(nodes[1..])
    requires forall h :: h in first && h !in Hashes(nodes[1..]) ==> r[h] == first[h]
    requires forall j :: 0 <= j < |nodes[1..]| && LastWith(nodes[1..], j) ==>
               nodes[1..][j].hash in r && r[nodes[1..][j].hash] == nodes[1..][j].peer
    ensures forall j :: 0 <= j < |nodes| && LastWith(nodes, j) ==> nodes[j].hash in r && r[nodes[j].hash] == nodes[j].peer
  {
    var tail := nodes[1..];
    forall j | 0 <= j < |nodes| && LastWith(nodes, j)
      ensures nodes[j].hash in r && r[nodes[j].hash] == nodes[j].peer
    {
      if j == 0 {
        assert nodes[0].hash !in Hashes(tail) by {
          forall k | 0 <= k < |tail| ensures Hashes(tail)[k] != nodes[0].hash {
            assert tail[k] == nodes[k + 1];
          }
        }
      } else {
        assert LastWith(tail, j - 1) by {
          forall j' | j - 1 < j' < |tail| ensures tail[j'].hash != tail[j - 1].hash {
            assert tail[j'] == nodes[j' + 1];
          }
        }
      }
    }
  }

  /**
   * `Add(peers...)`: appends the `replicas` virtual nodes of every peer,
   * records each one's owner, then sorts the positions.
   */
  function Add(m: Map, peers: seq<Bytes>): (m': Map)
    ensures m'.hash == m.hash && m'.replicas == m.replicas
    ensures Sorting.Sorted(m'.keys)
    ensures multiset(m'.keys) == multiset(m.keys) + multiset(Hashes(VirtualNodes(m.hash, m.replicas, peers)))
    ensures |m'.keys| == |m.keys| + |peers| * NodesPerPeer(m.replicas)
    ensures m'.hashMap == Record(m.hashMap, VirtualNodes(m.hash, m.replicas, peers))
  {
    var nodes := VirtualNodes(m.hash, m.replicas, peers);
    m.(keys := Sorting.SortInts(m.keys + Hashes(nodes)), hashMap := Record(m.hashMap, nodes))
  }

  /** `Add` keeps the ring's invariant. */
  lemma AddKeepsValid(m: Map, peers: seq<Bytes>)
    requires Valid(m)
    ensures Valid(Add(m, peers))
  {
    var nodes := VirtualNodes(m.hash, m.replicas, peers);
    var m' := Add(m, peers);
    forall h ensures h in m'.hashMap <==> h in m'.keys {
      calc {
        h in m'.keys;
        h in multiset(m'.keys);
        h in multiset(m.keys + Hashes(nodes));
        h in m.keys + Hashes(nodes);
      }
    }
  }

  /** `Add` leaves every position its new nodes do not take with the owner it had. */
  lemma AddKeepsOwner(m: Map, peers: seq<Bytes>, h: int)
    requires h in m.hashMap && h !in Hashes(VirtualNodes(m.hash, m.replicas, peers))
    ensures h in Add(m, peers).hashMap && Add(m, peers).hashMap[h] == m.hashMap[h]
  {
  }

  /** The virtual nodes of peer number `p` are `hash(itoa(i) + peer)` for `i` in `[0, replicas)`. */
  lemma {:induction false} VirtualNodeAt(hash: HashFn, replicas: int, peers: seq<Bytes>, p: nat, i: nat)
    requires p < |peers| && i < NodesPerPeer(replicas)
    ensures p * NodesPerPeer(replicas) + i < |VirtualNodes(hash, replicas, peers)|
    ensures VirtualNodes(hash, replicas, peers)[p * NodesPerPeer(replicas) + i]
            == Node(hash(Strconv.Itoa(i) + peers[p]), peers[p])
  {
    var n := NodesPerPeer(replicas);
    var k := |peers|;
    var front := VirtualNodes(hash, replicas, peers[..k - 1]);
    MulStep(p, k - 1, n, i);
    if p < k - 1 {
      VirtualNodeAt(hash, replicas, peers[..k - 1], p, i);
    }
  }

  /** The index arithmetic of `VirtualNodeAt`. */
  lemma MulStep(p: nat, k: nat, n: nat, i: nat)
    requires p <= k && i < n
    ensures p * n + i < (k + 1) * n
    ensures p < k ==> p * n + i < k * n
  {
    MulMono(p + 1, k + 1, n);
    if p < k {
      MulMono(p + 1, k, n);
    }
  }

  lemma MulMono(a: nat, b: nat, n: nat)
    requires a <= b
    ensures a * n <= b * n
    ensures a * n == (a - 1) * n + n
  {
    var d := b - a;
    assert b * n == a * n + d * n;
  }

  /** `IsEmpty`: on a consistent ring, exactly when no position has an owner. */
  predicate IsEmpty(m: Map)
    ensures Valid(m) ==> (IsEmpty(m) <==> m.hashMap == map[])
  {
    EmptyRing(m);
    |m.keys| == 0
  }

  /** A consistent ring has no nodes exactly when it has no owners. */
  lemma EmptyRing(m: Map)
    ensures Valid(m) ==> (|m.keys| == 0 <==> m.hashMap == map[])
  {
    if Valid(m) {
      if |m.keys| > 0 {
        assert m.keys[0] in m.keys;
      } else {
        assert forall h :: h !in m.hashMap;
      }
    }
  }

  /** The first node at or after `h`, wrapping round to node 0 past the last one. */
  ghost predicate OwnerIndex(keys: seq<int>, h: int, i: int) {
    0 <= i < |keys|
    && if exists j :: 0 <= j < |keys| && keys[j] >= h
       then keys[i] >= h && forall j :: 0 <= j < i ==> keys[j] < h
       else i == 0
  }

  /** `Get(key)`: the peer of the first node at or after `hash(key)`; `""` on an empty ring. */
  function Get(m: Map, key: Bytes): (peer: Bytes)
    ensures IsEmpty(m) ==> peer == []
    ensures !IsEmpty(m) && Valid(m) ==>
              exists i :: OwnerIndex(m.keys, m.hash(key), i) && peer == m.hashMap[m.keys[i]]
  {
    if IsEmpty(m) then []
    else
      var h := m.hash(key);
      var found := Sorting.Search(m.keys, h);
      var index := if found == |m.keys| then 0 else found;
      assert Valid(m) ==> OwnerIndex(m.keys, h, index) by {
        if Valid(m) {
          Sorting.SearchFindsLowerBound(m.keys, h);
        }
      }
      // Reading a missing position yields Go's zero value, the empty string.
      if m.keys[index] in m.hashMap then m.hashMap[m.keys[index]] else []
  }

  /** On a sorted ring, node `i` is the first at or after `h` as soon as its predecessor lies before `h`. */
  lemma OwnerIndexOfSorted(keys: seq<int>, h: int, i: int)
    requires Sorting.Sorted(keys) && 0 <= i < |keys|
    requires keys[i] >= h && (i == 0 || keys[i - 1] < h)
    ensures OwnerIndex(keys, h, i)
  {
    forall j | 0 <= j < i ensures keys[j] < h {
      assert keys[j] <= keys[i - 1];
    }
  }

  /** There is only one first node at or after a position. */
  lemma OwnerIndexUnique(keys: seq<int>, h: int, i: int, i': int)
    requires OwnerIndex(keys, h, i) && OwnerIndex(keys, h, i')
    ensures i == i'
  {
  }

  /**
   * On a non-empty ring, `Get(key)` answers the owner of the first node at or
   * after `hash(key)`, and wraps round to the first node when `hash(key)` is
   * past every node.
   */
  lemma GetIsFirstAtOrAfter(m: Map, key: Bytes, i: int)
    requires Valid(m) && OwnerIndex(m.keys, m.hash(key), i)
    ensures Get(m, key) == m.hashMap[m.keys[i]]
  {
    var i' :| OwnerIndex(m.keys, m.hash(key), i') && Get(m, key) == m.hashMap[m.keys[i']];
    OwnerIndexUnique(m.keys, m.hash(key), i, i');
  }

  /** Whatever `Get` returns on a non-empty ring is the owner recorded for some node. */
  lemma GetReturnsOwner(m: Map, key: Bytes)
    requires Valid(m) && !IsEmpty(m)
    ensures Get(m, key) in m.hashMap.Values
  {
  }

  /** On a ring built by `New` and `Add(peers...)`, `Get` answers one of `peers`. */
  lemma GetReturnsAddedPeer(replicas: int, hash: HashFn, peers: seq<Bytes>, key: Bytes)
    ensures var m := Add(New(replicas, hash), peers);
            !IsEmpty(m) ==> Get(m, key) in peers
  {
    var m := Add(New(replicas, hash), peers);
    AddKeepsValid(New(replicas, hash), peers);
    if !IsEmpty(m) {
      var peer := Get(m, key);
      var h :| h in m.hashMap && m.hashMap[h] == peer;
      var nodes := VirtualNodes(hash, replicas, peers);
      var j :| 0 <= j < |nodes| && nodes[j] == Node(h, peer);
    }
  }

  /** Every owner after `Add(peers)` was an owner before it or is one of `peers`. */
  lemma AddOwnersFrom(m: Map, peers: seq<Bytes>, owners: set<Bytes>)
    requires forall h :: h in m.hashMap ==> m.hashMap[h] in owners
    ensures forall h :: h in Add(m, peers).hashMap ==> Add(m, peers).hashMap[h] in owners || Add(m, peers).hashMap[h] in peers
  {
    OwnersFrom(m.hashMap, VirtualNodes(m.hash, m.replicas, peers), peers, owners, Add(m, peers).hashMap);
  }

  /** A map whose every owner is old or comes from a node has only old owners and peers of the nodes. */
  lemma OwnersFrom(hashMap: map<int, Bytes>, nodes: seq<Node>, peers: seq<Bytes>, owners: set<Bytes>, r: map<int, Bytes>)
    requires forall h :: h in hashMap ==> hashMap[h] in owners
    requires forall j :: 0 <= j < |nodes| ==> nodes[j].peer in peers
    requires forall h :: h in r ==>
               (h in hashMap && r[h] == hashMap[h]) || exists j :: 0 <= j < |nodes| && nodes[j] == Node(h, r[h])
    ensures forall h :: h in r ==> r[h] in owners || r[h] in peers
  {
    forall h | h in r ensures r[h] in owners || r[h] in peers {
      if !(h in hashMap && r[h] == hashMap[h]) {
        var j :| 0 <= j < |nodes| && nodes[j] == Node(h, r[h]);
      }
    }
  }

  /** `Add` called once per batch of peers, in order, as a caller that registers peers over several calls does. */
  function AddEach(m: Map, batches: seq<seq<Bytes>>): (m': Map)
    ensures m'.hash == m.hash && m'.replicas == m.replicas
    decreases |batches|
  {
    if |batches| == 0 then m else AddEach(Add(m, batches[0]), batches[1..])
  }

  /** The peers of all the batches together. */
  function BatchPeers(batches: seq<seq<Bytes>>): (ps: set<Bytes>)
    ensures forall b, p :: 0 <= b < |batches| && p in batches[b] ==> p in ps
    decreases |batches|
  {
    if |batches| == 0 then {} else (set p | p in batches[0]) + BatchPeers(batches[1..])
  }

  /** Every call of `Add` keeps the ring's invariant, so a run of them does too. */
  lemma {:induction false} AddEachKeepsValid(m: Map, batches: seq<seq<Bytes>>)
    requires Valid(m)
    ensures Valid(AddEach(m, batches))
    decreases |batches|
  {
    if |batches| > 0 {
      AddKeepsValid(m, batches[0]);
      AddEachKeepsValid(Add(m, batches[0]), batches[1..]);
    }
  }

  /** After a run of `Add` calls, every owner was an owner at the start or is a peer of one of the batches. */
  lemma {:induction false} AddEachOwnersFrom(m: Map, batches: seq<seq<Bytes>>, owners: set<Bytes>)
    requires forall h :: h in m.hashMap ==> m.hashMap[h] in owners
    ensures forall h :: h in AddEach(m, batches).hashMap ==> AddEach(m, batches).hashMap[h] in owners + BatchPeers(batches)
    decreases |batches|
  {
    if |batches| > 0 {
      var m1 := Add(m, batches[0]);
      var first := owners + (set p | p in batches[0]);
      AddOwnersFrom(m, batches[0], owners);
      AddEachOwnersFrom(m1, batches[1..], first);
      assert first + BatchPeers(batches[1..]) == owners + BatchPeers(batches);
    }
  }

  /** On a ring built by `New` and any number of `Add` calls, `Get` answers a peer of one of them. */
  lemma GetReturnsPeerOfSomeAdd(replicas: int, hash: HashFn, batches: seq<seq<Bytes>>, key: Bytes)
    ensures var m := AddEach(New(replicas, hash), batches);
            !IsEmpty(m) ==> Get(m, key) in BatchPeers(batches)
  {
    var m := AddEach(New(replicas, hash), batches);
    AddEachKeepsValid(New(replicas, hash), batches);
    AddEachOwnersFrom(New(replicas, hash), batches, {});
    if !IsEmpty(m) {
      var peer := Get(m, key);
      var h :| h in m.hashMap && m.hashMap[h] == peer;
    }
  }
}
