# groupCache core in Dafny

A model of the core of groupCache, a distributed read-through cache. The
model covers these parts:

- **`lru`**: an entry-bounded least-recently-used list.
- **`cache`**: a byte-accounting wrapper around that list. It charges `len(key) + value.Len()` per entry.
- **`ByteView`**: the immutable value type.
- **`consistenthash`**: a ring of virtual nodes that assigns each key to a peer.
- **`HTTPPool`**: how it builds the ring, how it picks the peer that owns a key, and how `ServeHTTP` splits a request path into a group name and a key.
- **`Group`**: `Get` answers from the local cache, else from the picked peer, else from the user's loader. `populateCache` then evicts the oldest entries until the cache is back within its byte budget. `NewGroup`, `GetGroup` and `RegisterPeers` maintain the group registry and the group's picker.

Everything is pure. Each mutating method becomes a function that returns the new state:

- Go's `OnEvicted` callback becomes the evicted entry, returned to the caller.
- The user's loader and the round trip to a peer are function parameters.
- The ring's hash is a parameter too. The default CRC-32 is not modelled.
- Strings and byte slices are `seq<Byte>`.

Files, one module each:

| file | module | models |
|---|---|---|
| `base.dfy` | `Base` | bytes, 32-bit hashes, `Option`, `Result` |
| `strconv.dfy` | `Strconv` | `strconv.Itoa` / `Atoi` on naturals |
| `sorting.dfy` | `Sorting` | `sort.Ints`, `sort.Search` |
| `lru.dfy` | `Lru` | `lru/lru.go` |
| `byteview.dfy` | `ByteViews` | `geeCache/byteview.go` |
| `cache.dfy` | `ByteCache` | `geeCache/cache.go` |
| `consistenthash.dfy` | `ConsistentHash` | `consistenthash/consistenthash.go` |
| `httppool.dfy` | `HttpPool` | `geeCache/http.go`: `NewHTTPPool`, `Set`, `PickPeer`, the path split of `ServeHTTP` |
| `geecache.dfy` | `GeeCache` | `geeCache/geeCache.go` |
| `scenarios.dfy` | `Scenarios` | the repository's tests, restated as lemmas |

Main results:

- **LRU eviction order.** The LRU list evicts in insertion order (`Lru.EvictsInInsertionOrder`). A key just read is never the next victim (`Lru.TouchProtects`).
- **Byte accounting.** Under the accounting invariant, `nbytes` is exactly the summed charge of the entries present.
- **Re-adding a key.** When a key already present is added again, the source charges the new entry in full and never uncharges the old one (`ByteCache.AddPresentOvercounts`). The model keeps this behaviour as written. `Group` only adds after a miss, so the group never triggers it.
- **`populateCache`.**
  - It always leaves the cache within budget.
  - It evicts oldest-first, and no more than it must.
  - It keeps the new entry exactly when that entry alone fits the budget.
- **Ring lookup.** `Get` answers the owner of the first node at or after the key's hash, wrapping round. On a ring built by `Set`, a picked peer is one of the peers set, never `self`, and is reached through its own getter.
- **`Group.Get`.**
  - The empty key is refused.
  - A hit makes no call.
  - A peer's answer is returned but not cached.
  - A failed peer falls back to the loader.
  - A loader error caches nothing.
  - A loaded value that fits the budget is served from the cache on the next `Get`.

## Model

| member | source | states |
|---|---|---|
| Lru.New | groupCache/lru/lru.go:25-31 | a new list is consistent, empty, and keeps the bound it was given |
| Lru.Remove | groupCache/lru/lru.go:58-61 | unlinking `k` leaves exactly the other keys, still without repeats; the list is one shorter when `k` was listed and unchanged otherwise |
| Lru.RemoveKeepsOrder | groupCache/lru/lru.go:58-61 | on a list without repeats, unlinking `k` cuts out its one position and keeps the keys before and after it in their order |
| Lru.Get | groupCache/lru/lru.go:33-43 | a hit returns the stored value and moves the key to the front of the list; a miss returns nothing and leaves the list as it was; the list stays consistent with the same length |
| Lru.RemoveOldest | groupCache/lru/lru.go:46-65 | an empty list is left alone and reports nothing; otherwise the tail key is unlinked, dropped from the index, and reported with its value to the eviction callback |
| Lru.Add | groupCache/lru/lru.go:67-86 | a present key takes the new value and moves to the front with no eviction; a new key goes to the front, and an entry is evicted exactly when the bound is non-zero and now exceeded; the evicted entry is the previous tail, and the index map then gains the new key and loses exactly the evicted one; an unbounded list never evicts; a list within its bound stays within it |
| Lru.Len | groupCache/lru/lru.go:88-93 | on a consistent list, `Len` (the length of the linked list) equals the number of keys in the index map |
| Lru.TouchProtects | groupCache/lru/lru.go:33-55 | after `Get(key)` on a list of two or more entries, the next `RemoveOldest` evicts some other key |
| Lru.EvictsInInsertionOrder | groupCache/lru/lru.go:67-86 | adding distinct keys to a list bounded by `n` evicts exactly the first `len(keys) - n` of them, oldest first, and keeps the rest, newest first |
| ByteViews.String | groupCache/geeCache/byteview.go:25-30 | a non-nil byte slice is what is viewed, whatever the string holds; with a nil slice the string is |
| ByteViews.Len | groupCache/geeCache/byteview.go:11-16 | the length is that of the viewed bytes, whichever field holds them |
| ByteViews.CloneBytes | groupCache/geeCache/byteview.go:33-37 | the clone holds the same bytes as the original |
| ByteViews.ByteSlice | groupCache/geeCache/byteview.go:18-23 | the slice returned is exactly the viewed bytes, of length `Len()` |
| ByteViews.ViewRoundTrip | groupCache/geeCache/byteview.go:5-30 | wrapping bytes as a slice or as a string and reading them back through `ByteSlice`, `String` or `Len` gives them back |
| ByteCache.Add | groupCache/geeCache/cache.go:15-30 | the first `add` creates the unbounded list; the key is then present with the new value at the front of the list; `nbytes` grows by `len(key) + value.Len()`; the entry count grows by one exactly when the key was absent; an absent key goes in front of the old list, a present one moves to the front, and in both cases only that key's value changes |
| ByteCache.AddKeepsAccounted | groupCache/geeCache/cache.go:27-29 | adding an absent key keeps `nbytes` equal to the summed charge of the entries |
| ByteCache.Get | groupCache/geeCache/cache.go:32-42 | a hit happens exactly when the key is present, returns its value and promotes it; a miss (also on the nil list) changes nothing; `nbytes` and the entries are unchanged |
| ByteCache.GetKeepsAccounted | groupCache/geeCache/cache.go:32-42 | promoting an entry keeps `nbytes` equal to the summed charge |
| ByteCache.RemoveOldest | groupCache/geeCache/cache.go:44-50 | on an empty cache nothing changes; otherwise the oldest key leaves the list and the map, and `nbytes` drops by exactly that entry's charge |
| ByteCache.RemoveOldestKeepsAccounted | groupCache/geeCache/cache.go:21-24 | the eviction callback's subtraction keeps `nbytes` equal to the summed charge |
| ByteCache.NBytes | groupCache/geeCache/cache.go:53-58 | with exact accounting, `bytes()` is the summed charge of the entries present, so never negative |
| ByteCache.EmptyMeansZero | groupCache/geeCache/cache.go:53-58 | with exact accounting, `bytes()` is never negative and is zero on an empty cache |
| ByteCache.AddPresentOvercounts | groupCache/geeCache/cache.go:27-29 | re-adding a present key charges the new entry without uncharging the old one: `nbytes` then exceeds the summed charge by the old entry's charge |
| ByteCache.OvercountOutlivesEntries | groupCache/geeCache/cache.go:15-50 | adding one key twice and then evicting leaves an empty cache still charged one entry, which `removeOldest` can no longer lower |
| Strconv.Itoa | groupCache/consistenthash/consistenthash.go:43 | the label is a non-empty string of decimal digits with no leading zero |
| Strconv.AtoiItoa | groupCache/consistenthash/consistenthash_test.go:9-15 | parsing the decimal form of `n` gives back `n` |
| Strconv.ItoaInjective | groupCache/consistenthash/consistenthash.go:42-43 | different replica numbers give different labels |
| Sorting.SortInts | groupCache/consistenthash/consistenthash.go:48 | `sort.Ints` returns an ascending permutation of its input |
| Sorting.SortedUnique | groupCache/consistenthash/consistenthash.go:48 | two ascending arrangements of one multiset are equal, so the sorted ring is determined by the positions alone |
| Sorting.SearchFrom | groupCache/consistenthash/consistenthash.go:64-68 | the binary search stays within its bounds and ends where `keys[i] >= h` switches from false to true |
| Sorting.Search | groupCache/consistenthash/consistenthash.go:64-68 | `sort.Search` answers an index whose predecessor is below `h` and whose element (if any) is at least `h` |
| Sorting.SearchFindsLowerBound | groupCache/consistenthash/consistenthash.go:64-68 | on sorted keys, every key before the answer is below `h` and every key from it on is at least `h` |
| ConsistentHash.New | groupCache/consistenthash/consistenthash.go:25-35 | a new ring is consistent, empty, and keeps its replica count |
| ConsistentHash.VirtualNodes | groupCache/consistenthash/consistenthash.go:40-47 | the loops create `replicas` nodes per peer (none for a negative count), each standing for one of the peers |
| ConsistentHash.VirtualNodeAt | groupCache/consistenthash/consistenthash.go:40-46 | node `i` of peer number `p` sits at `hash(itoa(i) + peer)` |
| ConsistentHash.Record | groupCache/consistenthash/consistenthash.go:45 | the positions are the old ones plus the new nodes'; a position no new node takes keeps its owner; every owner comes from the old map or from a node placed there; the last node placed at a position owns it |
| ConsistentHash.Add | groupCache/consistenthash/consistenthash.go:38-49 | the keys end up sorted and hold the old positions plus every new node's position, counted with repeats; the owners are those the assignments leave |
| ConsistentHash.AddKeepsValid | groupCache/consistenthash/consistenthash.go:38-49 | after `Add`, the keys are sorted and a position has an owner exactly when it is in the keys |
| ConsistentHash.AddKeepsOwner | groupCache/consistenthash/consistenthash.go:38-49 | a position none of the new nodes takes keeps its owner |
| ConsistentHash.IsEmpty | groupCache/consistenthash/consistenthash.go:51-53 | on a consistent ring, the ring is empty exactly when no position has an owner |
| ConsistentHash.Get | groupCache/consistenthash/consistenthash.go:55-77 | an empty ring answers `""`; otherwise the answer is the owner of the first node at or after `hash(key)`, or of node 0 when the hash is past every node |
| ConsistentHash.GetIsFirstAtOrAfter | groupCache/consistenthash/consistenthash.go:60-76 | whichever node is first at or after the key's hash (with wrap-around) is the one whose owner `Get` answers |
| ConsistentHash.GetReturnsOwner | groupCache/consistenthash/consistenthash.go:55-77 | on a non-empty ring the answer is the owner recorded for some node |
| ConsistentHash.GetReturnsAddedPeer | groupCache/consistenthash/consistenthash.go:38-77 | on a ring built from `New` and `Add(peers...)`, every non-empty answer is one of `peers` |
| ConsistentHash.AddOwnersFrom | groupCache/consistenthash/consistenthash.go:38-49 | when every owner of the ring lies in a set, every owner after `Add(peers)` lies in that set or is one of `peers` |
| ConsistentHash.AddEachKeepsValid | groupCache/consistenthash/consistenthash.go:38-49 | any run of `Add` calls keeps the keys sorted and gives a position an owner exactly when it is in the keys |
| ConsistentHash.AddEachOwnersFrom | groupCache/consistenthash/consistenthash.go:38-49 | after any run of `Add` calls, every owner was an owner at the start or is a peer of one of the calls |
| ConsistentHash.GetReturnsPeerOfSomeAdd | groupCache/consistenthash/consistenthash.go:38-77 | on a ring built from `New` and any number of `Add` calls, every non-empty answer is a peer passed to one of them |
| HttpPool.NewPool | groupCache/geeCache/http.go:40-45 | a new pool keeps `self`, uses the default base path, and has no ring and no getters |
| HttpPool.NewPoolValid | groupCache/geeCache/http.go:40-45 | a new pool satisfies the pool invariant |
| HttpPool.Getters | groupCache/geeCache/http.go:89-92 | there is one getter per peer and no other, addressed at `peer + basePath` |
| HttpPool.Set | groupCache/geeCache/http.go:82-94 | the old ring and getters are dropped; the new ring is `defaultReplicas` nodes per peer; the getters are exactly the peers, each addressed at `peer + basePath` |
| HttpPool.SetValid | groupCache/geeCache/http.go:82-94 | after `Set` every getter is addressed at its peer, the ring is consistent, and every owner the ring can answer has a getter |
| HttpPool.PickPeer | groupCache/geeCache/http.go:96-109 | before the first `Set` no peer is picked |
| HttpPool.PickPeerOwner | groupCache/geeCache/http.go:96-109 | on a valid pool a peer is picked exactly when the ring is set and its owner of the key is neither `""` nor `self`, and the pick is that owner's getter |
| HttpPool.PickPeerHasGetter | groupCache/geeCache/http.go:104-105 | a picked peer is never `self` and is reached through the getter addressed at it |
| HttpPool.PickedPeerWasSet | groupCache/geeCache/http.go:86-87 | any owner the ring of `Set(peers...)` answers is one of `peers` |
| HttpPool.PickPeerAfterSet | groupCache/geeCache/http.go:82-109 | after `Set(peers...)`, `PickPeer(key)` answers exactly when the ring's owner is another peer, and then with that peer's getter, addressed at `peer + basePath` |
| HttpPool.SetNoPeersPicksNothing | groupCache/geeCache/http.go:82-109 | after `Set()` with no peers, no key picks a peer |
| HttpPool.IndexByte | groupCache/geeCache/http.go:53 | the answer is the position of the first `/`, or the length when there is none |
| HttpPool.SplitPath | groupCache/geeCache/http.go:47-58 | a path outside the base path is rejected; a path with no `/` after the group is a bad request; otherwise the path is exactly base path, group (without `/`), `/`, key |
| HttpPool.SplitPathRoundTrip | groupCache/geeCache/http.go:52-58 | splitting `basePath + group + "/" + key` for a group without `/` gives back the group and the key, even when the key holds `/` |
| HttpPool.SplitPathAsWritten | groupCache/geeCache/http.go:48-58 | as written, the split routes exactly the paths `SplitPath` accepts, to the same group and key; a path with no `/` after the group gets the 400 reply followed by an index-out-of-range panic |
| HttpPool.NoSlashFallsThrough | groupCache/geeCache/http.go:53-58 | every path under the base path with no `/` after the group gets the 400 reply and then the panic |
| HttpPool.BadRequestFallsThrough | groupCache/geeCache/http.go:54-58 | the path `/_groupCache/scores` gets the 400 reply and then the panic |
| GeeCache.EvictUntil | groupCache/geeCache/geeCache.go:140-148 | the loop ends within budget with exact accounting; it keeps a most-recent prefix of the list with unchanged values; keeping one more entry would exceed the budget; a cache already within budget is untouched |
| GeeCache.EvictKeepsFront | groupCache/geeCache/geeCache.go:140-148 | the loop keeps the most recently used entry exactly when its charge alone is within the budget |
| GeeCache.EvictRound | groupCache/geeCache/geeCache.go:141-147 | while over budget the cache has an entry to evict, and evicting it keeps the accounting and shortens the list by one |
| GeeCache.PopulateCache | groupCache/geeCache/geeCache.go:133-149 | with no budget nothing is cached; otherwise the cache ends within budget, holds the newest part of the list with the new key in front, and keeps the new entry, with its value, exactly when its charge alone fits the budget; when it fits beside the old entries, the result is the cache after `add`, with nothing evicted; the older entries that stay keep their values; eviction stops as soon as the cache fits, since keeping one more entry would exceed the budget |
| GeeCache.AddThenEvict | groupCache/geeCache/geeCache.go:138-148 | under a positive budget, `add` then the eviction loop: the cache ends within budget, is the newest part of the list with the new key in front, keeps the new entry exactly when it fits alone, leaves surviving older values unchanged, and evicts no more than it must |
| GeeCache.GetLocally | groupCache/geeCache/geeCache.go:122-130 | the loader is called once; its bytes are answered, and the cache becomes what `populateCache` leaves for a copy of them; its error is answered and nothing is cached |
| GeeCache.Load | groupCache/geeCache/geeCache.go:99-120 | the group invariant is kept, and a failed load leaves the cache as it was with the loader's error |
| GeeCache.Hit | groupCache/geeCache/geeCache.go:76-78 | a cached key is answered with its value and promoted, with no outside call |
| GeeCache.Get | groupCache/geeCache/geeCache.go:72-81 | the empty key is refused with no call and no change, and is the only key so refused; a cached key is answered from the cache and promoted with no call; a failed `Get` leaves the cache as it was; the group invariant is kept |
| GeeCache.GetMissWithoutPeer | groupCache/geeCache/geeCache.go:99-113 | with no peer picked, a miss calls the loader alone and answers its bytes or its error |
| GeeCache.GetMissCaches | groupCache/geeCache/geeCache.go:99-130 | with no peer picked, a successful load leaves the cache as `populateCache` of the loaded bytes |
| GeeCache.GetFromPeer | groupCache/geeCache/geeCache.go:84-107 | a miss owned by another peer fetches `{group, key}` from it; its answer is returned, not cached, and the loader is never called |
| GeeCache.GetAfterPeerFailure | groupCache/geeCache/geeCache.go:102-112 | a failed peer fetch is dropped and `Get` answers what the loader does, after exactly one fetch and one load |
| GeeCache.GetLoaderError | groupCache/geeCache/geeCache.go:122-126 | a loader error reaches the caller and nothing is cached |
| GeeCache.LoadedThenHit | groupCache/geeCache/geeCache.go:72-130 | a loaded value that fits the budget is answered again by the next `Get` from the cache, with no call |
| GeeCache.OversizedNotCached | groupCache/geeCache/geeCache.go:133-149 | a loaded value larger than the whole budget is answered but does not stay cached |
| GeeCache.NewGroup | groupCache/geeCache/geeCache.go:46-62 | a nil getter panics; otherwise a group with that name, budget and getter, an empty cache and no picker is registered under its name |
| GeeCache.GetGroup | groupCache/geeCache/geeCache.go:64-69 | the group registered under the name, or nil when there is none |
| GeeCache.NewGroupThenGetGroup | groupCache/geeCache/geeCache.go:46-69 | a new group satisfies the group invariant, is found under its name, and leaves other names alone |
| GeeCache.RegisterPeers | groupCache/geeCache/geeCache.go:152-157 | the picker is installed when there is none; a second registration panics |
| GeeCache.RegisterPeersOnce | groupCache/geeCache/geeCache.go:152-157 | registering on a fresh group succeeds and registering again fails, whatever the pools |
| Scenarios.VirtualNodes642 | groupCache/consistenthash/consistenthash_test.go:17-18 | with three replicas and the decimal hash, peers "6", "4", "2" place nodes at 6, 16, 26, 4, 14, 24, 2, 12, 22 |
| Scenarios.Ring642Keys | groupCache/consistenthash/consistenthash_test.go:17-18 | the sorted positions of that ring are 2, 4, 6, 12, 14, 16, 22, 24, 26 |
| Scenarios.Ring6428Keys | groupCache/consistenthash/consistenthash_test.go:34-35 | adding "8" inserts 8, 18 and 28 among the old positions |
| Scenarios.HashingVector | groupCache/consistenthash/consistenthash_test.go:8-45 | keys "2", "11", "23", "27" go to "2", "2", "4", "2"; after adding "8", "27" goes to "8" and the others stay |
| Scenarios.LruGetVector | groupCache/lru/lru_test.go:8-18 | an added key is found with its value; another key is not |
| Scenarios.LruRemoveOldestVector | groupCache/lru/lru_test.go:20-27 | with room for one entry, adding a second evicts the first |
| Scenarios.LruEvictVector | groupCache/lru/lru_test.go:29-50 | adding "myKey0" … "myKey21" to a list of 20 evicts exactly "myKey0" then "myKey1" |
| Scenarios.DbRunCaches | groupCache/geeCache/geeCache_test.go:41-45 | a pass of `Get` over database keys keeps the test group's shape and caches every key asked for, evicting nothing |
| Scenarios.DbRunAnswers | groupCache/geeCache/geeCache_test.go:41-45 | a pass of `Get` over database keys answers each key with its database entry |
| Scenarios.DbRunQuiet | groupCache/geeCache/geeCache_test.go:46-50 | a pass of `Get` over keys that are all cached makes no loader call |
| Scenarios.UnknownKeyFails | groupCache/geeCache/geeCache_test.go:51-53 | "unknown_ket" is not in the database, so `Get` of it is an error whatever is cached |
| Scenarios.GroupGetVector | groupCache/geeCache/geeCache_test.go:26-54 | `NewGroup("testCache", 2<<10, loader)` builds the test group; a first pass over the database keys, in any order, answers each with its entry; a second pass answers them again, from the cache, with no loader call; then "unknown_ket" is an error on the filled cache |

## Left out

- Locking is not modelled: `sync.Mutex` and `sync.RWMutex` in `cache`, `HTTPPool` and the group registry. Every operation is sequential and atomic. `removeOldest` takes the package-level `mu` rather than `c.mu`; that too is a concurrency matter and is not modelled.
- The single-flight `loadGroup.Do` deduplicates concurrent loads, so it is left out. `load` runs its closure directly.
- The network and its encoding are not modelled: `HTTPGetter.Get`, the protobuf messages, and `peers.go`. A peer fetch is the `Transport` parameter, applied to the picked getter and the `{group, key}` request.
- Most of `ServeHTTP` beyond the path split is not modelled: the group lookup, `Get`, marshalling and writing the response. The group lookup writes its 404 without returning, just as the 400 case does.
- `New(replicas, nil)` falls back to CRC-32; that default is not modelled. The ring's hash is a parameter, so `Set` takes it as its `crc` argument.
- `int64` overflow of `nbytes` and `cacheBytes` is not modelled. Integers are unbounded.
- The ring assumes a 64-bit platform, where Go's `int` is 64 bits. There, `int(m.hash(...))` turns the `uint32` hash into a non-negative `int`, and the model does the same.
- The 32-bit `int` is not modelled. On a 32-bit platform, the same conversion wraps hashes of 2^31 and above to negative values (consistenthash.go:43 and :60). That changes the ring's sorted order, and so which node is first at or after a key's hash.
- Logging (`log.Println`), `main.go` and the `GetterFunc` adapter are not modelled. The loader is a function value.
- `PeerPicker` is an interface in the source. The model fixes it to `HTTPPool`.
- Panics are not modelled as panics. The nil-getter panic of `NewGroup` and the second-registration panic of `RegisterPeers` are `Failure` results.
- The registry stores `Group` values, not pointers. A `Get` returns the group's new cache. The caller, not the registry, holds the updated group.
- A nil getter from `httpGetters[peer]` is not modelled. It cannot arise after `Set`, because every owner the ring answers has a getter (`HttpPool.SetValid`).
- Lru.RemoveOldest: requires the list to be consistent (`Lru.Valid`). The list's own operations keep that invariant, and only they build lists.
- Lru.Add: requires `Lru.Valid`, for the same reason.
- ByteCache.Add: requires the list to be consistent and unbounded, as `add` creates it.
- ByteCache.RemoveOldest: requires the same as `ByteCache.Add`.
- ByteCache.Get: requires the same as `ByteCache.Add`.
- GeeCache.Get: requires the group invariant (exact accounting within budget). `NewGroup` establishes it (`GeeCache.NewGroupThenGetGroup`) and every `Get` keeps it. The source states no precondition.
- GeeCache.PopulateCache: requires the key to be absent, which is the only way `getLocally` reaches it: after a miss, with no concurrency. Re-adding a present key is modelled one level down, by `ByteCache.AddPresentOvercounts`.
- GeeCache.GetLocally: requires the key to be absent, as `GeeCache.PopulateCache` does.
- GeeCache.Load: requires the key to be absent, as `GeeCache.PopulateCache` does. Its contract states only the invariant and the failure case. What it answers is stated through `Get` by `GeeCache.GetMissWithoutPeer`, `GeeCache.GetFromPeer`, `GeeCache.GetAfterPeerFailure` and `GeeCache.GetLoaderError`.
- HttpPool.PickPeer: its own contract states only the case with no ring. The general answer is in `HttpPool.PickPeerOwner`.

## Findings

| source | as written | input that shows it | evidently intended | confidence | as-written member | corrected member |
|---|---|---|---|---|---|---|
| groupCache/geeCache/http.go:54-58 | after writing the 400 reply for a path with no `/` after the group name, the handler does not return and reads `parts[1]` of a one-element slice | the path `/_groupCache/scores` | stop after the 400 reply | high; not executed | HttpPool.SplitPathAsWritten | HttpPool.SplitPath |

`HttpPool.BadRequestFallsThrough` exhibits the input. `HttpPool.NoSlashFallsThrough` shows that every such path falls through. The rest of the model uses `HttpPool.SplitPath`, whose contract and `HttpPool.SplitPathRoundTrip` state the intended split.
