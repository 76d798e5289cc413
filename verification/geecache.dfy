/**
 * The `Group`: a named cache in front of a user loader. `Get` answers from
 * the local byte-bounded cache, else from the peer the ring picks, else from
 * the loader, whose answer is cached; `populateCache` then evicts the oldest
 * entries until the cache is back under its byte budget.
 */
module GeeCache {
  import opened Base
  import opened ByteViews
  import ByteCache
  import Lru
  import HttpPool

  /** `Getter.Get(key)`: the user's loader, answering bytes or an error message. */
  type Loader = Bytes -> Result<Bytes, Bytes>

  /** The `pb.Request` a peer fetch sends. */
  datatype Request = Request(group: Bytes, key: Bytes)

  /** `ProtoGetter.Get`: the round trip to a peer, network included, answering the response value or an error. */
  type Transport = (HttpPool.PeerGetter, Request) -> Result<Bytes, Bytes>

  /** The errors `Get` returns: the empty key, or the loader's error. */
  datatype Error = KeyRequired | Failed(message: Bytes)

  /** A call `Get` makes outside the group, in the order made. */
  datatype Call = PeerFetch(getter: HttpPool.PeerGetter, request: Request) | LoaderCall(key: Bytes)

  /** `Group`; `peers == None` is a group with no registered picker. */
  datatype Group = Group(
    name: Bytes,
    getter: Loader,
    mainCache: ByteCache.Cache,
    peers: Option<HttpPool.Pool>,
    cacheBytes: int)

  /** What one `Get` leaves behind: the group's new cache, the answer, and the calls made. */
  datatype Outcome = Outcome(cache: ByteCache.Cache, result: Result<ByteView, Error>, calls: seq<Call>)

  /**
   * The group invariant: the cache's `nbytes` is the exact charge of its
   * entries and within the budget; with no budget the cache stays empty.
   */
  ghost predicate Inv(g: Group) {
    && ByteCache.Accounted(g.mainCache)
    && (g.cacheBytes > 0 ==> g.mainCache.nbytes <= g.cacheBytes)
    && (g.cacheBytes <= 0 ==> ByteCache.Count(g.mainCache) == 0)
  }

  /**
   * The loop of `populateCache`: evict the oldest entry while `bytes()`
   * exceeds `cap`. It ends because each round removes an entry and an empty
   * cache is charged nothing; it keeps the longest recent part of the list
   * that fits.
   */
  function EvictUntil(c: ByteCache.Cache, cap: int): (c': ByteCache.Cache)
    requires ByteCache.Accounted(c) && cap >= 0
    ensures ByteCache.Accounted(c') && c'.nbytes <= cap
    ensures ByteCache.Count(c') <= ByteCache.Count(c)
    ensures ByteCache.Order(c') == ByteCache.Order(c)[..ByteCache.Count(c')]
    ensures forall k :: k in ByteCache.Values(c') ==> k in ByteCache.Values(c) && ByteCache.Values(c')[k] == ByteCache.Values(c)[k]
    ensures ByteCache.Count(c') == ByteCache.Count(c)
            || ByteCache.Footprint(ByteCache.Order(c)[..ByteCache.Count(c') + 1], ByteCache.Values(c)) > cap
    ensures c.nbytes <= cap ==> c' == c
    decreases ByteCache.Count(c)
  {
    if c.nbytes <= cap then c
    else
      EvictRound(c, cap);
      var c1 := ByteCache.RemoveOldest(c);
      var c' := EvictUntil(c1, cap);
      EvictOrder(c, c1, c');
      EvictValues(c, c1, c');
      EvictCover(c, c1, c', cap);
      c'
  }

  /** The loop keeps the front entry, the most recently used one, exactly when it fits the budget on its own. */
  lemma {:induction false} EvictKeepsFront(c: ByteCache.Cache, cap: int)
    requires ByteCache.Accounted(c) && cap >= 0 && ByteCache.Count(c) > 0
    ensures ByteCache.Contains(EvictUntil(c, cap), ByteCache.Order(c)[0]) <==> FrontFits(c, cap)
    decreases ByteCache.Count(c)
  {
    if c.nbytes <= cap {
      FitsKeepsFront(c, cap);
    } else {
      EvictRound(c, cap);
      var c1 := ByteCache.RemoveOldest(c);
      var c' := EvictUntil(c1, cap);
      if ByteCache.Count(c1) > 0 {
        EvictKeepsFront(c1, cap);
      }
      EvictFront(c, c1, c', cap);
    }
  }

  /** The entry at the front of the list, the most recently used one, fits the budget on its own. */
  ghost predicate FrontFits(c: ByteCache.Cache, cap: int) {
    && ByteCache.Count(c) > 0
    && ByteCache.Order(c)[0] in ByteCache.Values(c)
    && ByteCache.EntrySize(ByteCache.Order(c)[0], ByteCache.Values(c)[ByteCache.Order(c)[0]]) <= cap
  }

  /** Within budget, the front entry fits on its own. */
  lemma FitsKeepsFront(c: ByteCache.Cache, cap: int)
    requires ByteCache.Accounted(c) && c.nbytes <= cap
    ensures ByteCache.Count(c) > 0 ==> ByteCache.Contains(c, ByteCache.Order(c)[0]) && FrontFits(c, cap)
  {
    var order := ByteCache.Order(c);
    if |order| > 0 {
      assert order[0] in order;
      FootprintCoversFirst(order, ByteCache.Values(c), |order|);
      assert order[..|order|] == order;
    }
  }

  /** One round of the loop: the front entry survives the rest exactly when it fits on its own. */
  lemma EvictFront(c: ByteCache.Cache, c1: ByteCache.Cache, c': ByteCache.Cache, cap: int)
    requires ByteCache.Accounted(c) && c.nbytes > cap && ByteCache.Count(c) > 0
    requires c1 == ByteCache.RemoveOldest(c)
    requires ByteCache.Accounted(c') && ByteCache.Count(c') <= ByteCache.Count(c1)
    requires ByteCache.Count(c1) > 0 ==> (ByteCache.Contains(c', ByteCache.Order(c1)[0]) <==> FrontFits(c1, cap))
    ensures ByteCache.Contains(c', ByteCache.Order(c)[0]) <==> FrontFits(c, cap)
  {
    DropOldest(c);
    var order := ByteCache.Order(c);
    assert order[0] in order;
    if |order| == 1 {
      assert ByteCache.Values(c') == map[];
      assert ByteCache.Footprint(order, ByteCache.Values(c)) == ByteCache.EntrySize(order[0], ByteCache.Values(c)[order[0]]);
    } else {
      assert ByteCache.Order(c1)[0] == order[0] && order[0] != order[|order| - 1];
    }
  }

  /** Over budget, there is an entry to evict, and evicting it keeps the accounting. */
  lemma EvictRound(c: ByteCache.Cache, cap: int)
    requires ByteCache.Accounted(c) && c.nbytes > cap && cap >= 0
    ensures ByteCache.Count(c) > 0
    ensures ByteCache.Accounted(ByteCache.RemoveOldest(c))
    ensures ByteCache.Count(ByteCache.RemoveOldest(c)) == ByteCache.Count(c) - 1
  {
    ByteCache.EmptyMeansZero(c);
    ByteCache.RemoveOldestKeepsAccounted(c);
  }

  /** One round of the loop keeps the list a prefix of the one before it. */
  lemma EvictOrder(c: ByteCache.Cache, c1: ByteCache.Cache, c': ByteCache.Cache)
    requires ByteCache.Wellformed(c) && ByteCache.Count(c) > 0 && c1 == ByteCache.RemoveOldest(c)
    requires ByteCache.Count(c') <= ByteCache.Count(c1)
    requires ByteCache.Order(c') == ByteCache.Order(c1)[..ByteCache.Count(c')]
    ensures ByteCache.Count(c') <= ByteCache.Count(c)
    ensures ByteCache.Order(c') == ByteCache.Order(c)[..ByteCache.Count(c')]
  {
    var order := ByteCache.Order(c);
    assert ByteCache.Order(c1) == order[..|order| - 1];
    assert order[..|order| - 1][..ByteCache.Count(c')] == order[..ByteCache.Count(c')];
  }

  /** One round of the loop keeps the surviving values. */
  lemma EvictValues(c: ByteCache.Cache, c1: ByteCache.Cache, c': ByteCache.Cache)
    requires ByteCache.Wellformed(c) && c1 == ByteCache.RemoveOldest(c)
    requires forall k :: k in ByteCache.Values(c') ==> k in ByteCache.Values(c1) && ByteCache.Values(c')[k] == ByteCache.Values(c1)[k]
    ensures forall k :: k in ByteCache.Values(c') ==> k in ByteCache.Values(c) && ByteCache.Values(c')[k] == ByteCache.Values(c)[k]
  {
  }

  /** One round of the loop: if the rest stopped early, keeping one more entry would still be over budget. */
  lemma EvictCover(c: ByteCache.Cache, c1: ByteCache.Cache, c': ByteCache.Cache, cap: int)
    requires ByteCache.Accounted(c) && c.nbytes > cap && ByteCache.Count(c) > 0
    requires c1 == ByteCache.RemoveOldest(c)
    requires ByteCache.Count(c') <= ByteCache.Count(c1)
    requires ByteCache.Count(c') == ByteCache.Count(c1)
             || ByteCache.Footprint(ByteCache.Order(c1)[..ByteCache.Count(c') + 1], ByteCache.Values(c1)) > cap
    ensures ByteCache.Footprint(ByteCache.Order(c)[..ByteCache.Count(c') + 1], ByteCache.Values(c)) > cap
  {
    DropOldest(c);
    CoverStep(ByteCache.Order(c), ByteCache.Values(c), ByteCache.Values(c1), ByteCache.Count(c'), cap);
  }

  /** What one eviction leaves: the list without its last key, and the map without that key. */
  lemma DropOldest(c: ByteCache.Cache)
    requires ByteCache.Wellformed(c) && ByteCache.Count(c) > 0
    ensures var order := ByteCache.Order(c);
            && NoDup(order)
            && ByteCache.Order(ByteCache.RemoveOldest(c)) == order[..|order| - 1]
            && ByteCache.Values(ByteCache.RemoveOldest(c)) == ByteCache.Values(c) - {order[|order| - 1]}
  {
  }

  /** Dropping the last key does not change the charge of any shorter prefix. */
  lemma CoverStep(order: seq<Bytes>, values: map<Bytes, ByteView>, values1: map<Bytes, ByteView>, kept: nat, cap: int)
    requires NoDup(order) && kept < |order|
    requires values1 == values - {order[|order| - 1]}
    requires ByteCache.Footprint(order, values) > cap
    requires kept == |order| - 1 || ByteCache.Footprint(order[..|order| - 1][..kept + 1], values1) > cap
    ensures ByteCache.Footprint(order[..kept + 1], values) > cap
  {
    if kept == |order| - 1 {
      assert order[..kept + 1] == order;
    } else {
      var prefix := order[..kept + 1];
      assert order[..|order| - 1][..kept + 1] == prefix;
      assert order[|order| - 1] !in prefix;
      ByteCache.FootprintFrame(prefix, values1, values);
    }
  }

  /** The charge of a non-empty stretch of the list is at least that of its first entry. */
  lemma FootprintCoversFirst(keys: seq<Bytes>, values: map<Bytes, ByteView>, n: nat)
    requires 0 < n <= |keys| && keys[0] in values
    ensures ByteCache.Footprint(keys[..n], values) >= ByteCache.EntrySize(keys[0], values[keys[0]])
  {
    assert keys[..n][0] == keys[0];
  }

  /**
   * `populateCache`: with no budget, nothing; otherwise `add` the entry and
   * evict oldest-first until `bytes()` is within `cacheBytes`. The key must
   * be absent, as it is when `Get` reaches this after a miss.
   */
  function PopulateCache(g: Group, key: Bytes, value: ByteView): (c': ByteCache.Cache)
    requires Inv(g) && !ByteCache.Contains(g.mainCache, key)
    ensures Inv(g.(mainCache := c'))
    ensures g.cacheBytes <= 0 ==> c' == g.mainCache
    ensures ByteCache.Count(c') <= ByteCache.Count(g.mainCache) + 1
    ensures g.cacheBytes > 0 ==>
              && ByteCache.Order(c') == ([key] + ByteCache.Order(g.mainCache))[..ByteCache.Count(c')]
              && (ByteCache.Contains(c', key) <==> ByteCache.EntrySize(key, value) <= g.cacheBytes)
              && (ByteCache.Contains(c', key) ==> ByteCache.Values(c')[key] == value)
    ensures g.cacheBytes > 0 ==>
              forall k :: ByteCache.Contains(c', k) && k != key ==> k in ByteCache.Values(g.mainCache) && ByteCache.Values(c')[k] == ByteCache.Values(g.mainCache)[k]
    ensures g.cacheBytes > 0 ==>
              || ByteCache.Count(c') == ByteCache.Count(g.mainCache) + 1
              || ByteCache.Footprint(([key] + ByteCache.Order(g.mainCache))[..ByteCache.Count(c') + 1],
                                     ByteCache.Values(g.mainCache)[key := value]) > g.cacheBytes
    ensures g.cacheBytes > 0 && g.mainCache.nbytes + ByteCache.EntrySize(key, value) <= g.cacheBytes ==>
              c' == ByteCache.Add(g.mainCache, key, value)
  {
    if g.cacheBytes <= 0 then g.mainCache
    else AddThenEvict(g.mainCache, key, value, g.cacheBytes)
  }

  /** `add` of an absent key, then the eviction loop, under a positive budget. */
  function AddThenEvict(c: ByteCache.Cache, key: Bytes, value: ByteView, cap: int): (c': ByteCache.Cache)
    requires ByteCache.Accounted(c) && !ByteCache.Contains(c, key) && cap > 0
    ensures ByteCache.Accounted(c') && c'.nbytes <= cap
    ensures ByteCache.Count(c') <= ByteCache.Count(c) + 1
    ensures ByteCache.Order(c') == ([key] + ByteCache.Order(c))[..ByteCache.Count(c')]
    ensures ByteCache.Contains(c', key) <==> ByteCache.EntrySize(key, value) <= cap
    ensures ByteCache.Contains(c', key) ==> ByteCache.Values(c')[key] == value
    ensures forall k :: ByteCache.Contains(c', k) && k != key ==> k in ByteCache.Values(c) && ByteCache.Values(c')[k] == ByteCache.Values(c)[k]
    ensures || ByteCache.Count(c') == ByteCache.Count(c) + 1
            || ByteCache.Footprint(([key] + ByteCache.Order(c))[..ByteCache.Count(c') + 1], ByteCache.Values(c)[key := value]) > cap
    ensures c.nbytes + ByteCache.EntrySize(key, value) <= cap ==> c' == ByteCache.Add(c, key, value)
  {
    ByteCache.AddKeepsAccounted(c, key, value);
    var c' := EvictUntil(ByteCache.Add(c, key, value), cap);
    Populated(c, key, value, cap, c');
    c'
  }

  /** What the add followed by the loop leaves, for a key that was absent and a positive budget. */
  lemma Populated(c: ByteCache.Cache, key: Bytes, value: ByteView, cap: int, c': ByteCache.Cache)
    requires ByteCache.Accounted(c) && !ByteCache.Contains(c, key) && cap > 0
    requires ByteCache.Accounted(ByteCache.Add(c, key, value))
    requires c' == EvictUntil(ByteCache.Add(c, key, value), cap)
    ensures ByteCache.Accounted(c') && c'.nbytes <= cap
    ensures ByteCache.Count(c') <= ByteCache.Count(c) + 1
    ensures ByteCache.Order(c') == ([key] + ByteCache.Order(c))[..ByteCache.Count(c')]
    ensures ByteCache.Contains(c', key) <==> ByteCache.EntrySize(key, value) <= cap
    ensures ByteCache.Contains(c', key) ==> ByteCache.Values(c')[key] == value
    ensures forall k :: ByteCache.Contains(c', k) && k != key ==> k in ByteCache.Values(c) && ByteCache.Values(c')[k] == ByteCache.Values(c)[k]
    ensures || ByteCache.Count(c') == ByteCache.Count(c) + 1
            || ByteCache.Footprint(([key] + ByteCache.Order(c))[..ByteCache.Count(c') + 1], ByteCache.Values(c)[key := value]) > cap
    ensures c.nbytes + ByteCache.EntrySize(key, value) <= cap ==> c' == ByteCache.Add(c, key, value)
  {
    PopulateOrder(c, key, value, cap);
    PopulateNewest(c, key, value, cap, c');
    PopulateOlder(c, key, value, cap, c');
    PopulateStops(c, key, value, cap, c');
    PopulateFits(c, key, value, cap, c');
  }

  /** The older entries that survive keep their values. */
  lemma PopulateOlder(c: ByteCache.Cache, key: Bytes, value: ByteView, cap: int, c': ByteCache.Cache)
    requires ByteCache.Accounted(c) && !ByteCache.Contains(c, key) && cap > 0
    requires ByteCache.Accounted(ByteCache.Add(c, key, value))
    requires c' == EvictUntil(ByteCache.Add(c, key, value), cap)
    ensures forall k :: ByteCache.Contains(c', k) && k != key ==> k in ByteCache.Values(c) && ByteCache.Values(c')[k] == ByteCache.Values(c)[k]
  {
    assert ByteCache.Values(ByteCache.Add(c, key, value)) == ByteCache.Values(c)[key := value];
  }

  /** The loop stops as soon as the cache fits: keeping one more entry would exceed the budget. */
  lemma PopulateStops(c: ByteCache.Cache, key: Bytes, value: ByteView, cap: int, c': ByteCache.Cache)
    requires ByteCache.Accounted(c) && !ByteCache.Contains(c, key) && cap > 0
    requires ByteCache.Accounted(ByteCache.Add(c, key, value))
    requires c' == EvictUntil(ByteCache.Add(c, key, value), cap)
    ensures || ByteCache.Count(c') == ByteCache.Count(c) + 1
            || ByteCache.Footprint(([key] + ByteCache.Order(c))[..ByteCache.Count(c') + 1], ByteCache.Values(c)[key := value]) > cap
  {
    var added := ByteCache.Add(c, key, value);
    assert ByteCache.Order(added) == [key] + ByteCache.Order(c);
    assert ByteCache.Values(added) == ByteCache.Values(c)[key := value];
  }

  /** The new entry is kept, with its value, exactly when it fits the budget on its own. */
  lemma PopulateNewest(c: ByteCache.Cache, key: Bytes, value: ByteView, cap: int, c': ByteCache.Cache)
    requires ByteCache.Accounted(c) && !ByteCache.Contains(c, key) && cap > 0
    requires ByteCache.Accounted(ByteCache.Add(c, key, value))
    requires c' == EvictUntil(ByteCache.Add(c, key, value), cap)
    ensures ByteCache.Contains(c', key) <==> ByteCache.EntrySize(key, value) <= cap
    ensures ByteCache.Contains(c', key) ==> ByteCache.Values(c')[key] == value
  {
    var added := ByteCache.Add(c, key, value);
    EvictKeepsFront(added, cap);
    assert ByteCache.Order(added)[0] == key && ByteCache.Values(added)[key] == value;
  }

  /** When the new entry fits beside the old ones, the loop evicts nothing. */
  lemma PopulateFits(c: ByteCache.Cache, key: Bytes, value: ByteView, cap: int, c': ByteCache.Cache)
    requires ByteCache.Accounted(c) && !ByteCache.Contains(c, key) && cap > 0
    requires ByteCache.Accounted(ByteCache.Add(c, key, value))
    requires c' == EvictUntil(ByteCache.Add(c, key, value), cap)
    ensures c.nbytes + ByteCache.EntrySize(key, value) <= cap ==> c' == ByteCache.Add(c, key, value)
  {
    ByteCache.AddKeepsAccounted(c, key, value);
  }

  /** After the add, the loop keeps a prefix of the new key followed by the old list. */
  lemma PopulateOrder(c: ByteCache.Cache, key: Bytes, value: ByteView, cap: int)
    requires ByteCache.Accounted(c) && !ByteCache.Contains(c, key) && cap >= 0
    requires ByteCache.Accounted(ByteCache.Add(c, key, value))
    ensures var c' := EvictUntil(ByteCache.Add(c, key, value), cap);
            && ByteCache.Count(c') <= ByteCache.Count(c) + 1
            && ByteCache.Order(c') == ([key] + ByteCache.Order(c))[..ByteCache.Count(c')]
  {
    assert ByteCache.Order(ByteCache.Add(c, key, value)) == [key] + ByteCache.Order(c);
  }

  /** The getter `load` consults: the registered pool's pick, if any. */
  function Picked(g: Group, key: Bytes): Option<HttpPool.PeerGetter> {
    if g.peers.Some? then HttpPool.PickPeer(g.peers.value, key) else None
  }

  /**
   * `getLocally`: call the loader; on success cache a copy of its bytes and
   * answer it, on error answer the error and leave the cache alone.
   */
  function GetLocally(g: Group, key: Bytes): (o: Outcome)
    requires Inv(g) && !ByteCache.Contains(g.mainCache, key)
    ensures Inv(g.(mainCache := o.cache))
    ensures o.calls == [LoaderCall(key)]
    ensures o.result.Success? <==> g.getter(key).Success?
    ensures g.getter(key).Success? ==> o.result.value == OfBytes(g.getter(key).value)
    ensures g.getter(key).Failure? ==> o.cache == g.mainCache && o.result.error == Failed(g.getter(key).error)
    ensures g.getter(key).Success? ==> o.cache == PopulateCache(g, key, OfBytes(g.getter(key).value))
  {
    match g.getter(key)
    case Failure(message) => Outcome(g.mainCache, Failure(Failed(message)), [LoaderCall(key)])
    case Success(bytes) =>
      var value := OfBytes(CloneBytes(bytes));
      Outcome(PopulateCache(g, key, value), Success(value), [LoaderCall(key)])
  }

  /**
   * `load`: ask the picked peer first; its answer is used as is and not
   * cached. A failed fetch is dropped and the loader is used instead, as
   * when no peer is picked.
   */
  function Load(g: Group, key: Bytes, fetch: Transport): (o: Outcome)
    requires Inv(g) && !ByteCache.Contains(g.mainCache, key)
    ensures Inv(g.(mainCache := o.cache))
    ensures o.result.Failure? ==> o.cache == g.mainCache && o.result.error.Failed?
  {
    var local := GetLocally(g, key);
    match Picked(g, key)
    case None => local
    case Some(peer) =>
      var request := Request(g.name, key);
      match fetch(peer, request)
      case Success(bytes) => Outcome(g.mainCache, Success(OfBytes(bytes)), [PeerFetch(peer, request)])
      case Failure(_) => local.(calls := [PeerFetch(peer, request)] + local.calls)
  }

  /** The hit path of `Get`: the cached value, its entry promoted, no call made. */
  function Hit(g: Group, key: Bytes): (o: Outcome)
    requires Inv(g) && ByteCache.Contains(g.mainCache, key)
    ensures Inv(g.(mainCache := o.cache))
    ensures o.result == Success(ByteCache.Values(g.mainCache)[key]) && o.calls == []
    ensures ByteCache.Order(o.cache) == Lru.MoveToFront(ByteCache.Order(g.mainCache), key)
    ensures ByteCache.Values(o.cache) == ByteCache.Values(g.mainCache)
  {
    ByteCache.GetKeepsAccounted(g.mainCache, key);
    var (promoted, hit) := ByteCache.Get(g.mainCache, key);
    Outcome(promoted, Success(hit.value), [])
  }

  /**
   * `Get`: the empty key is refused; a cached key is answered from the
   * cache, promoted, with no call made; any other key is loaded.
   */
  function Get(g: Group, key: Bytes, fetch: Transport): (o: Outcome)
    requires Inv(g)
    ensures Inv(g.(mainCache := o.cache))
    ensures key == [] ==> o.cache == g.mainCache && o.calls == []
    ensures o.result == Failure(KeyRequired) <==> key == []
    ensures key != [] && ByteCache.Contains(g.mainCache, key) ==>
              && o.result == Success(ByteCache.Values(g.mainCache)[key])
              && o.calls == []
              && ByteCache.Order(o.cache) == Lru.MoveToFront(ByteCache.Order(g.mainCache), key)
              && ByteCache.Values(o.cache) == ByteCache.Values(g.mainCache)
    ensures o.result.Failure? ==> o.cache == g.mainCache
  {
    if key == [] then Outcome(g.mainCache, Failure(KeyRequired), [])
    else if ByteCache.Contains(g.mainCache, key) then Hit(g, key)
    else Load(g, key, fetch)
  }

  /** On a miss with no peer picked, `Get` is the loader's answer alone. */
  lemma GetMissWithoutPeer(g: Group, key: Bytes, fetch: Transport)
    requires Inv(g) && key != [] && !ByteCache.Contains(g.mainCache, key) && Picked(g, key).None?
    ensures var o := Get(g, key, fetch);
            && o.calls == [LoaderCall(key)]
            && (o.result.Success? <==> g.getter(key).Success?)
            && (o.result.Success? ==> String(o.result.value) == g.getter(key).value)
  {
  }

  /** On a miss with no peer picked, the loader's bytes go through `populateCache`. */
  lemma GetMissCaches(g: Group, key: Bytes, fetch: Transport)
    requires Inv(g) && key != [] && !ByteCache.Contains(g.mainCache, key) && Picked(g, key).None?
    requires g.getter(key).Success?
    ensures Get(g, key, fetch).cache == PopulateCache(g, key, OfBytes(g.getter(key).value))
  {
  }

  /** When the picked peer answers, `Get` returns its bytes, leaves the cache alone and never calls the loader. */
  lemma GetFromPeer(g: Group, key: Bytes, fetch: Transport)
    requires Inv(g) && key != [] && !ByteCache.Contains(g.mainCache, key) && Picked(g, key).Some?
    requires fetch(Picked(g, key).value, Request(g.name, key)).Success?
    ensures var o := Get(g, key, fetch);
            && o.cache == g.mainCache
            && o.result == Success(OfBytes(fetch(Picked(g, key).value, Request(g.name, key)).value))
            && o.calls == [PeerFetch(Picked(g, key).value, Request(g.name, key))]
  {
  }

  /** When the picked peer fails, its error is dropped and `Get` answers whatever the loader does. */
  lemma GetAfterPeerFailure(g: Group, key: Bytes, fetch: Transport)
    requires Inv(g) && key != [] && !ByteCache.Contains(g.mainCache, key) && Picked(g, key).Some?
    requires fetch(Picked(g, key).value, Request(g.name, key)).Failure?
    ensures var o := Get(g, key, fetch);
            && o.calls == [PeerFetch(Picked(g, key).value, Request(g.name, key)), LoaderCall(key)]
            && o.result == GetLocally(g, key).result
            && o.cache == GetLocally(g, key).cache
  {
    assert Get(g, key, fetch) == Load(g, key, fetch);
  }

  /** A loader error reaches the caller and nothing is cached. */
  lemma GetLoaderError(g: Group, key: Bytes, fetch: Transport)
    requires Inv(g) && key != [] && !ByteCache.Contains(g.mainCache, key) && g.getter(key).Failure?
    requires Picked(g, key).Some? ==> fetch(Picked(g, key).value, Request(g.name, key)).Failure?
    ensures var o := Get(g, key, fetch);
            && o.result == Failure(Failed(g.getter(key).error))
            && o.cache == g.mainCache
            && LoaderCall(key) in o.calls
  {
  }

  /**
   * A value the loader produced and that fits the budget is cached: asking
   * again answers the same value with no call at all.
   */
  lemma LoadedThenHit(g: Group, key: Bytes, fetch: Transport)
    requires Inv(g) && key != [] && !ByteCache.Contains(g.mainCache, key) && Picked(g, key).None?
    requires g.getter(key).Success?
    requires ByteCache.EntrySize(key, OfBytes(g.getter(key).value)) <= g.cacheBytes
    ensures var o := Get(g, key, fetch);
            var again := Get(g.(mainCache := o.cache), key, fetch);
            && again.calls == []
            && again.result == o.result
            && String(again.result.value) == g.getter(key).value
  {
    var value := OfBytes(CloneBytes(g.getter(key).value));
    assert ByteCache.Contains(PopulateCache(g, key, value), key);
  }

  /** A loaded value larger than the whole budget is answered but does not stay in the cache. */
  lemma OversizedNotCached(g: Group, key: Bytes, fetch: Transport)
    requires Inv(g) && key != [] && !ByteCache.Contains(g.mainCache, key) && Picked(g, key).None?
    requires g.getter(key).Success?
    requires 0 < g.cacheBytes < ByteCache.EntrySize(key, OfBytes(g.getter(key).value))
    ensures var o := Get(g, key, fetch);
            && o.result == Success(OfBytes(g.getter(key).value))
            && !ByteCache.Contains(o.cache, key)
  {
    var value := OfBytes(CloneBytes(g.getter(key).value));
    assert !ByteCache.Contains(PopulateCache(g, key, value), key);
  }

  /** Why registration panics. */
  datatype Panic = NilGetter | RegisteredTwice

  /** The package-level `groups` map. */
  type Registry = map<Bytes, Group>

  /**
   * `NewGroup`: a nil getter panics; otherwise a group with an empty cache
   * and no picker is registered under `name`, replacing any earlier one.
   */
  function NewGroup(groups: Registry, name: Bytes, cacheBytes: int, getter: Option<Loader>): (r: Result<(Registry, Group), Panic>)
    ensures getter.None? <==> r.Failure?
    ensures r.Failure? ==> r.error == NilGetter
    ensures r.Success? ==>
              var (groups', g) := r.value;
              && g.name == name && g.cacheBytes == cacheBytes && g.getter == getter.value
              && g.mainCache == ByteCache.Zero && g.peers.None?
              && groups' == groups[name := g]
  {
    if getter.None? then Failure(NilGetter)
    else
      var g := Group(name, getter.value, ByteCache.Zero, None, cacheBytes);
      Success((groups[name := g], g))
  }

  /** `GetGroup`: the group registered under `name`, or nil. */
  function GetGroup(groups: Registry, name: Bytes): (r: Option<Group>)
    ensures r.Some? <==> name in groups
    ensures r.Some? ==> r.value == groups[name]
  {
    if name in groups then Some(groups[name]) else None
  }

  /** A new group satisfies the invariant, is found under its name, and leaves the other names alone. */
  lemma NewGroupThenGetGroup(groups: Registry, name: Bytes, cacheBytes: int, getter: Loader, other: Bytes)
    ensures var r := NewGroup(groups, name, cacheBytes, Some(getter));
            && r.Success?
            && Inv(r.value.1)
            && GetGroup(r.value.0, name) == Some(r.value.1)
            && (other != name ==> GetGroup(r.value.0, other) == GetGroup(groups, other))
  {
  }

  /** `RegisterPeers`: install the picker once; a second call panics. */
  function RegisterPeers(g: Group, pool: HttpPool.Pool): (r: Result<Group, Panic>)
    ensures g.peers.Some? <==> r.Failure?
    ensures r.Failure? ==> r.error == RegisteredTwice
    ensures r.Success? ==> r.value == g.(peers := Some(pool))
  {
    if g.peers.Some? then Failure(RegisteredTwice) else Success(g.(peers := Some(pool)))
  }

  /** Registering succeeds on a fresh group and fails the second time, whatever the pools. */
  lemma RegisterPeersOnce(g: Group, first: HttpPool.Pool, second: HttpPool.Pool)
    requires g.peers.None?
    ensures RegisterPeers(g, first).Success?
    ensures RegisterPeers(RegisterPeers(g, first).value, second) == Failure(RegisteredTwice)
  {
  }
}
