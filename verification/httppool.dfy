/**
 * The peer-selection half of `HTTPPool`: `Set` builds the ring and one
 * getter per peer, `PickPeer` asks the ring for a key's owner and keeps it
 * only when it is some other peer, and `ServeHTTP` starts by splitting the
 * request path into a group name and a key.
 */
module HttpPool {
  import opened Base
  import ConsistentHash

  /** `defaultBasePath`, the prefix every peer request carries. */
  const DefaultBasePath: Bytes := Ascii("/_groupCache/")

  /** `defaultReplicas`, the virtual nodes per peer of the ring `Set` builds. */
  const DefaultReplicas: int := 50

  /** A `*HTTPGetter`; `NilGetter` is the nil pointer a map read gives for a missing peer. */
  datatype PeerGetter = NilGetter | HttpGetter(baseURL: Bytes)

  /** `HTTPPool`; `peers == None` is the nil ring before the first `Set`. */
  datatype Pool = Pool(
    self: Bytes,
    basePath: Bytes,
    peers: Option<ConsistentHash.Map>,
    httpGetters: map<Bytes, PeerGetter>)

  /** `NewHTTPPool(self)`. */
  function NewPool(self: Bytes): (p: Pool)
    ensures p.self == self && p.basePath == DefaultBasePath
    ensures p.peers.None? && p.httpGetters == map[]
  {
    Pool(self, DefaultBasePath, None, map[])
  }

  /** `httpGetters[peer]`, with Go's nil for a peer that has no getter. */
  function Getter(p: Pool, peer: Bytes): PeerGetter {
    if peer in p.httpGetters then p.httpGetters[peer] else NilGetter
  }

  /** One getter per peer, addressed at `peer + basePath`. */
  function Getters(peers: seq<Bytes>, basePath: Bytes): (getters: map<Bytes, PeerGetter>)
    ensures forall peer :: peer in getters <==> peer in peers
    ensures forall peer :: peer in getters ==> getters[peer] == HttpGetter(peer + basePath)
  {
    map peer | peer in peers :: HttpGetter(peer + basePath)
  }

  /**
   * `Set(peers...)`: a fresh ring of `DefaultReplicas` nodes per peer under
   * the default hash `crc`, and a fresh getter map; whatever an earlier
   * `Set` installed is dropped.
   */
  function Set(p: Pool, peers: seq<Bytes>, crc: HashFn): (p': Pool)
    ensures p'.self == p.self && p'.basePath == p.basePath
    ensures p'.peers == Some(ConsistentHash.Add(ConsistentHash.New(DefaultReplicas, crc), peers))
    ensures forall peer :: peer in p'.httpGetters <==> peer in peers
    ensures forall peer :: peer in p'.httpGetters ==> p'.httpGetters[peer] == HttpGetter(peer + p.basePath)
  {
    var ring := ConsistentHash.Add(ConsistentHash.New(DefaultReplicas, crc), peers);
    p.(peers := Some(ring), httpGetters := Getters(peers, p.basePath))
  }

  /** Every getter is addressed at its peer; the ring is well formed and every peer it can answer has a getter. */
  ghost predicate Valid(p: Pool) {
    && (forall peer :: peer in p.httpGetters ==> p.httpGetters[peer] == HttpGetter(peer + p.basePath))
    && (p.peers.Some? ==>
          && ConsistentHash.Valid(p.peers.value)
          && forall h :: h in p.peers.value.hashMap ==> p.peers.value.hashMap[h] in p.httpGetters)
  }

  lemma NewPoolValid(self: Bytes)
    ensures Valid(NewPool(self))
  {
  }

  /** `Set` leaves a pool whose ring answers only peers that have getters. */
  lemma SetValid(p: Pool, peers: seq<Bytes>, crc: HashFn)
    ensures Valid(Set(p, peers, crc))
  {
    var m0 := ConsistentHash.New(DefaultReplicas, crc);
    var ring := ConsistentHash.Add(m0, peers);
    var nodes := ConsistentHash.VirtualNodes(crc, DefaultReplicas, peers);
    ConsistentHash.AddKeepsValid(m0, peers);
    forall h | h in ring.hashMap ensures ring.hashMap[h] in peers {
      var j :| 0 <= j < |nodes| && nodes[j] == ConsistentHash.Node(h, ring.hashMap[h]);
    }
  }

  /**
   * `PickPeer(key)`: nothing before the first `Set`; otherwise the getter
   * of the ring's owner of `key`, unless the ring answers `""` or `self`.
   */
  function PickPeer(p: Pool, key: Bytes): (r: Option<PeerGetter>)
    ensures p.peers.None? ==> r.None?
    ensures r.Some? ==> p.peers.Some?
  {
    if p.peers.None? then None
    else
      var peer := ConsistentHash.Get(p.peers.value, key);
      if peer != [] && peer != p.self then Some(Getter(p, peer)) else None
  }

  /**
   * After `Set(peers...)`, `PickPeer(key)` answers exactly when the ring's
   * owner of `key` is another peer, and then with that peer's getter: one of
   * `peers`, never `self`, addressed at `peer + basePath`.
   */
  lemma PickPeerAfterSet(p: Pool, peers: seq<Bytes>, crc: HashFn, key: Bytes)
    ensures var p' := Set(p, peers, crc);
            var owner := ConsistentHash.Get(p'.peers.value, key);
            && (PickPeer(p', key).Some? <==> owner != [] && owner != p.self)
            && (PickPeer(p', key).Some? ==> owner in peers && PickPeer(p', key) == Some(HttpGetter(owner + p.basePath)))
  {
    var p' := Set(p, peers, crc);
    SetValid(p, peers, crc);
    PickPeerOwner(p', key);
    PickedPeerWasSet(p, peers, crc, key);
  }

  /** `PickPeer` answers exactly when the ring has been set and its owner of `key` is another peer. */
  lemma PickPeerOwner(p: Pool, key: Bytes)
    requires Valid(p)
    ensures PickPeer(p, key).Some? <==> p.peers.Some? && ConsistentHash.Get(p.peers.value, key) !in {[], p.self}
    ensures PickPeer(p, key).Some? ==> PickPeer(p, key).value == HttpGetter(ConsistentHash.Get(p.peers.value, key) + p.basePath)
  {
    PickPeerHasGetter(p, key);
  }

  /** Whatever peer the ring of `Set(peers...)` answers is one of `peers`. */
  lemma PickedPeerWasSet(p: Pool, peers: seq<Bytes>, crc: HashFn, key: Bytes)
    ensures var owner := ConsistentHash.Get(Set(p, peers, crc).peers.value, key);
            owner != [] ==> owner in peers
  {
    ConsistentHash.GetReturnsAddedPeer(DefaultReplicas, crc, peers, key);
  }

  /** On a valid pool, a picked peer is the ring's owner of the key, reached through its own getter. */
  lemma PickPeerHasGetter(p: Pool, key: Bytes)
    requires Valid(p)
    ensures PickPeer(p, key).Some? ==>
              var owner := ConsistentHash.Get(p.peers.value, key);
              owner != p.self && PickPeer(p, key).value == HttpGetter(owner + p.basePath)
  {
    if p.peers.Some? && !ConsistentHash.IsEmpty(p.peers.value) {
      var ring := p.peers.value;
      ConsistentHash.GetReturnsOwner(ring, key);
      var h :| h in ring.hashMap && ring.hashMap[h] == ConsistentHash.Get(ring, key);
    }
  }

  /** An empty `Set()` leaves a ring that never picks a peer. */
  lemma SetNoPeersPicksNothing(p: Pool, crc: HashFn, key: Bytes)
    ensures PickPeer(Set(p, [], crc), key).None?
  {
    var ring := Set(p, [], crc).peers.value;
    assert ConsistentHash.IsEmpty(ring);
  }

  /** The index of the first `b` in `s`, or `|s|` when there is none. */
  function IndexByte(s: Bytes, b: Byte): (i: nat)
    ensures i <= |s|
    ensures forall j :: 0 <= j < i ==> s[j] != b
    ensures i < |s| ==> s[i] == b
  {
    if |s| == 0 then 0
    else if s[0] == b then 0
    else 1 + IndexByte(s[1..], b)
  }

  /** Why `ServeHTTP` rejects a path: outside `basePath` (a panic), or no `/` after the group (400). */
  datatype PathError = UnexpectedPath | BadRequest

  predicate HasPrefix(s: Bytes, prefix: Bytes) {
    |prefix| <= |s| && s[..|prefix|] == prefix
  }

  /**
   * The path split of `ServeHTTP`: strip `basePath`, then cut at the first
   * `/` into the group name and the key. The key may itself hold `/`.
   */
  function SplitPath(basePath: Bytes, path: Bytes): (r: Result<(Bytes, Bytes), PathError>)
    ensures !HasPrefix(path, basePath) <==> r == Failure(UnexpectedPath)
    ensures r.Success? ==>
              && Slash !in r.value.0
              && path == basePath + r.value.0 + [Slash] + r.value.1
    ensures r == Failure(BadRequest) <==> HasPrefix(path, basePath) && Slash !in path[|basePath|..]
  {
    if !HasPrefix(path, basePath) then Failure(UnexpectedPath)
    else
      var rest := path[|basePath|..];
      var i := IndexByte(rest, Slash);
      if i == |rest| then Failure(BadRequest)
      else
        assert path == basePath + rest[..i] + [Slash] + rest[i + 1..];
        Success((rest[..i], rest[i + 1..]))
  }

  /** Building a request path from a group without `/` and any key, and splitting it, gives both back. */
  lemma SplitPathRoundTrip(basePath: Bytes, group: Bytes, key: Bytes)
    requires Slash !in group
    ensures SplitPath(basePath, basePath + group + [Slash] + key) == Success((group, key))
  {
    var path := basePath + group + [Slash] + key;
    assert path[..|basePath|] == basePath;
    var rest := path[|basePath|..];
    assert rest == group + [Slash] + key;
    var i := IndexByte(rest, Slash);
    assert rest[|group|] == Slash;
    assert forall j :: 0 <= j < |group| ==> rest[j] == group[j];
    assert i == |group|;
    assert rest[..i] == group;
    assert rest[i + 1..] == key;
  }

  /** What the path split of `ServeHTTP` does, step by step, as the handler is written. */
  datatype SplitStep = PathPanic | BadRequestReply | IndexOutOfRange | Routed(group: Bytes, key: Bytes)

  /**
   * The split as written: `strings.SplitN(rest, "/", 2)` yields one part when
   * `rest` has no `/`; the 400 reply is then written but not followed by a
   * return, so `parts[1]` is read past the end and the handler panics.
   */
  function SplitPathAsWritten(basePath: Bytes, path: Bytes): (steps: seq<SplitStep>)
    ensures 0 < |steps|
    ensures steps[|steps| - 1].Routed? <==> SplitPath(basePath, path).Success?
    ensures steps[|steps| - 1].Routed? ==>
              SplitPath(basePath, path) == Success((steps[|steps| - 1].group, steps[|steps| - 1].key))
    ensures SplitPath(basePath, path) == Failure(BadRequest) <==> steps == [BadRequestReply, IndexOutOfRange]
  {
    if !HasPrefix(path, basePath) then [PathPanic]
    else
      var rest := path[|basePath|..];
      var i := IndexByte(rest, Slash);
      var parts := if i == |rest| then [rest] else [rest[..i], rest[i + 1..]];
      (if |parts| != 2 then [BadRequestReply] else [])
      + (if |parts| < 2 then [IndexOutOfRange] else [Routed(parts[0], parts[1])])
  }

  /** Any request under the base path with no `/` after the group name gets the 400 reply and then the panic. */
  lemma NoSlashFallsThrough(basePath: Bytes, name: Bytes)
    requires Slash !in name
    ensures SplitPathAsWritten(basePath, basePath + name) == [BadRequestReply, IndexOutOfRange]
    ensures SplitPath(basePath, basePath + name) == Failure(BadRequest)
  {
    var path := basePath + name;
    assert path[..|basePath|] == basePath;
    assert path[|basePath|..] == name;
  }

  /**
   * For instance `/_groupCache/scores`: `SplitPath` stops at the 400, the
   * handler as written goes on to an index-out-of-range panic.
   */
  lemma BadRequestFallsThrough()
    ensures var path := DefaultBasePath + Ascii("scores");
            && SplitPathAsWritten(DefaultBasePath, path) == [BadRequestReply, IndexOutOfRange]
            && SplitPath(DefaultBasePath, path) == Failure(BadRequest)
  {
    var name := Ascii("scores");
    assert forall i :: 0 <= i < |name| ==> name[i] != Slash;
    NoSlashFallsThrough(DefaultBasePath, name);
  }
}
