# Sharded LRU cache — a Dafny model

This project models the in-memory core of a small sharded cache written in C++
(`LRUCache.cpp`). It has two parts.

- **`LRUCache`** is a store of string keys and values with a fixed capacity.
  - It keeps a recency list, most recently used first, and an index from key to list entry.
  - `get` promotes a hit to the front. On a miss it answers the sentinel `"[MISS]"`.
  - `put` overwrites and promotes a resident key.
  - For a new key, `put` first evicts the back entry when the store is full, then pushes the pair to the front.
- **`ShardManager`** routes a key to shard `hash(key) % primaries.size()`.
  - `insert` writes to the shard's primary while its liveness flag is set, and to every replica of the shard.
  - `retrieve` asks a live primary first, then the replicas in order. It stops at the first answer that is not `"[MISS]"`, and answers `"[MISS:DB fallback required]"` when every queried node misses.
  - `registerPrimary`, `registerReplicas` and `disablePrimary` maintain the routing table.

The model has three modules.

- `LruSpec` (`lru_spec.dfy`) describes a recency list as a sequence of entries.
  - `AfterGet`, `AfterPut` and `Answer` are the list a `get` or `put` leaves and the value a `get` answers.
  - The lemmas state what these operations promise: recency order, contents, keys, eviction and idempotence.
- `LruCache` (`lru_cache.dfy`) is the cache as a class.
  - `lruList` is a `seq<Entry>` and `cacheMap` is a `map<string, string>`.
  - `Valid()` ties them together: unique keys, the capacity bound, and the index agreeing with the list.
  - `Get` and `Put` update both fields step by step, as the C++ does. They are proved against `AfterGet`/`AfterPut`.
- `Sharding` (`sharding.dfy`) contains `CacheNode` and `ShardManager`.
  - The read path also exists as functions of the nodes' lists (`RetrieveResult`, `ReplicasQueried`), and the fallback order is proved about them.
  - The methods loop over the replica sequence and are proved to compute exactly those functions.
  - Nodes are shared object references, as the C++ raw pointers are: the same node or cache may appear in several slots. The contracts therefore hold without any distinctness assumption. Asking or writing the same cache twice is covered by `GetIdempotent` and `PutIdempotent`.
  - `std::hash<string>` is the `hasher` function given to the manager's constructor.

## Model

| member | source | states |
|---|---|---|
| LruSpec.Answer | LRUCache.cpp:46-48 | A get of an absent key answers "[MISS]"; for a resident key the answer is a value paired with that key in the list. |
| LruSpec.AfterGet | LRUCache.cpp:46-47 | A get never changes the list's length; a miss leaves the list as it was, and a hit brings the key's entry to the front. |
| LruSpec.AfterPut | LRUCache.cpp:53-63 | After put the new pair is first; a list within capacity stays within it, and a resident key's put keeps the length. |
| LruSpec.Find | LRUCache.cpp:46 | Locating a key answers the position of its first entry, or none exactly when no entry holds the key. |
| LruSpec.MoveToFront | LRUCache.cpp:47 | The splice keeps the list's length and multiset of entries and puts the chosen entry first. |
| LruSpec.UniqueKeysIff | LRUCache.cpp:37-38 | The list-recursive form of "no key occurs twice" holds exactly when no two positions share a key. |
| LruSpec.LookupAt | LRUCache.cpp:46-48 | With unique keys, looking up the key at position i finds position i and that entry's value. |
| LruSpec.LookupMember | LRUCache.cpp:46-48 | With unique keys, a lookup of k yields v if and only if the pair (k, v) is in the list. |
| LruSpec.LookupResident | LRUCache.cpp:46 | A lookup succeeds if and only if the key is among the list's keys. |
| LruSpec.GetSpec | LRUCache.cpp:44-49 | For an absent key, get answers "[MISS]" and leaves the list as it was. For a resident key, it answers the stored value and the list becomes that entry followed by all other entries in their previous order. |
| LruSpec.MoveToFrontNoDup | LRUCache.cpp:47 | Splicing an entry to the front keeps keys unique. |
| LruSpec.GetKeepsContents | LRUCache.cpp:44-49 | A get only reorders: the same multiset of entries, the same keys, unique keys, and every key looks up the same value. |
| LruSpec.SameEntriesSameLookups | LRUCache.cpp:44-49 | Two duplicate-free lists with the same entries have the same keys and answer every lookup alike. |
| LruSpec.GetIdempotent | LRUCache.cpp:44-49 | A second get of the same key answers the same value and leaves the list as the first left it. |
| LruSpec.MembersExcept | LRUCache.cpp:47 | Removing position i of a duplicate-free list leaves exactly the entries whose key differs from that entry's key. |
| LruSpec.WithoutSplit | LRUCache.cpp:47 | With unique keys, dropping a key's entry is cutting that position out of the list, all other entries keeping their order. |
| LruSpec.PutMembers | LRUCache.cpp:51-65 | After put, the list holds the new pair and exactly the old entries of other keys, minus the back entry when a new key arrives at capacity. |
| LruSpec.PutKeepsInvariant | LRUCache.cpp:51-65 | Put keeps keys unique and the size within capacity, puts the pair at the front, and the key then looks up the new value. |
| LruSpec.NoDupDropAt | LRUCache.cpp:54 | Cutting one entry out of a duplicate-free list keeps it duplicate-free and leaves no entry of that key. |
| LruSpec.NoDupPushFresh | LRUCache.cpp:63 | Pushing an entry whose key is absent keeps keys unique. |
| LruSpec.PutKeys | LRUCache.cpp:53-64 | Resident key: same key set and size. New key at capacity: the back key is replaced by the new key and the size is unchanged. New key below capacity: the key is added and the size grows by one. |
| LruSpec.KeysDropAt | LRUCache.cpp:54 | With unique keys, cutting one entry out removes exactly its key from the key set. |
| LruSpec.KeysEvictBack | LRUCache.cpp:58-63 | Evicting the back entry and pushing a new one swaps their keys in the key set. |
| LruSpec.MembersEvictBack | LRUCache.cpp:58-63 | Evicting the back entry and pushing one of a new key leaves exactly the new entry and the old entries other than the back one. |
| LruSpec.PutLookup | LRUCache.cpp:51-65 | After put, the key looks up the new value, an evicted back key looks up nothing, and every other key looks up what it did before. |
| LruSpec.PutExistingOrder | LRUCache.cpp:53-55 | Putting a resident key yields the new pair followed by the other entries in their previous order; nothing is evicted. |
| LruSpec.PutFront | LRUCache.cpp:51-65 | Whatever the list, put leaves the new pair first, so the key looks up the value just written. |
| LruSpec.PutResidentSplice | LRUCache.cpp:53-55 | Splicing a resident key's entry to the front and overwriting its value is the put of that key. |
| LruSpec.PutIdempotent | LRUCache.cpp:51-65 | Repeating the same put changes nothing further. |
| LruSpec.PromotedSurvivesPut | LRUCache.cpp:44-65 | With capacity of at least two, a key just read is never the one the next put evicts. |
| LruSpec.PutKeep | LRUCache.cpp:51-65 | On the first `capacity` entries of a duplicate-free list, a put gives the first `capacity` entries of that list with the new pair in front and the key's old entry removed. |
| LruSpec.PutsKeepMostRecent | LRUCache.cpp:51-65 | Any sequence of puts into an empty cache, repeated keys included, leaves the `capacity` most recently written keys, newest first, each with its last written value (`Recent`). |
| LruSpec.RecentDistinct | LRUCache.cpp:51-65 | When no key repeats, the most recent entries of a sequence of puts are the sequence reversed. |
| LruSpec.RepeatedKeyExample | LRUCache.cpp:51-65 | Puts of a, b, a, c into an empty cache of capacity 2 leave c then a (with a's second value): rewriting a protected it from eviction and b was evicted. |
| LruSpec.DistinctPutsKeepMostRecent | LRUCache.cpp:51-65 | Putting distinct keys into an empty cache leaves the most recent `capacity` of them, newest first (the case of `PutsKeepMostRecent` without repeated keys). |
| LruCache.IndexKeys | LRUCache.cpp:37-38 | An index in step with a duplicate-free list has exactly the list's keys. |
| LruCache.IndexFromKeys | LRUCache.cpp:37-38 | Conversely, an index with the list's keys and the list's values is in step with it. |
| LruCache.GetIndex | LRUCache.cpp:47 | The index that was in step before a get is still in step after the splice. |
| LruCache.PutIndexResident | LRUCache.cpp:53-55 | For a resident key, overwriting its index entry keeps the index in step with the new list. |
| LruCache.PutIndexEvict | LRUCache.cpp:57-63 | For a new key at capacity, erasing the back key and adding the new one keeps the index in step. |
| LruCache.PutIndexGrow | LRUCache.cpp:62-63 | For a new key below capacity, adding it keeps the index in step. |
| LruCache.GetValid | LRUCache.cpp:44-49 | On a consistent cache the index says whether get hits and holds the answer, and after the splice list and index are still consistent. |
| LruCache.PutValid | LRUCache.cpp:51-65 | On a consistent cache the index says whether the key is resident, and each of put's three index updates leaves list and index consistent within capacity. |
| LruCache.LRUCache.constructor | LRUCache.cpp:42 | A new cache is empty, consistent, and has the given capacity. |
| LruCache.LRUCache.Get | LRUCache.cpp:44-49 | Answers as the list specifies (`Answer`), leaves the list as `AfterGet` describes, keeps the index unchanged, and keeps the cache consistent. |
| LruCache.LRUCache.Put | LRUCache.cpp:51-65 | Leaves the list as `AfterPut` describes and keeps the cache consistent. The index is overwritten for a resident key; it loses exactly the back key and gains the new one when full; otherwise it only gains the new key. |
| Sharding.ShardOf | LRUCache.cpp:124-127 | The shard of a hash is within the number of shards. |
| Sharding.ScanReplicas | LRUCache.cpp:143-147 | The replica scan never answers "[MISS]": it answers the cold-miss sentinel or what some replica's list answers. |
| Sharding.RetrieveResult | LRUCache.cpp:137-147 | A read never answers "[MISS]": it answers the cold-miss sentinel, what the live primary answers, or what some replica answers. |
| Sharding.ScanHit | LRUCache.cpp:143-146 | The replica scan answers the first replica that does not miss and queries exactly the replicas up to it. |
| Sharding.ScanAllMiss | LRUCache.cpp:143-147 | When every replica misses, the scan queries all of them and answers the cold-miss sentinel. |
| Sharding.FallbackOrder | LRUCache.cpp:137-148 | A live primary that hits answers and no replica is queried. Otherwise the first replica that hits answers and the replicas after it are not queried. If all miss, the cold-miss sentinel is answered after all replicas were queried. |
| Sharding.Failover | LRUCache.cpp:137-146 | With the primary down, a key that the first replica holds is answered from that replica, and only that replica is queried. |
| Sharding.ColdMissWhenAbsent | LRUCache.cpp:137-147 | A key resident in no node of the shard is answered with the cold-miss sentinel. |
| Sharding.SameAnswersSameScan | LRUCache.cpp:143-146 | The scan's answer and length depend only on what each replica answers. |
| Sharding.ReadAfterInsert | LRUCache.cpp:129-148 | When every node a write reaches holds the pair and at least one node was written, a read answers the value, unless the value is the sentinel itself. |
| Sharding.CacheNode.constructor | LRUCache.cpp:74-75 | A new node owns a fresh, empty, consistent cache of the given capacity. |
| Sharding.CacheNode.Retrieve | LRUCache.cpp:91-93 | Answers exactly what the node's cache get answers and leaves that cache's list as get does. |
| Sharding.CacheNode.Insert | LRUCache.cpp:95-97 | Leaves the node's cache list as put does and keeps the cache consistent. |
| Sharding.Store | LRUCache.cpp:131-134 | Writing one node records its cache as written since the snapshot. Writing the same cache again leaves it as one write did. |
| Sharding.InsertAll | LRUCache.cpp:132-134 | After the replica loop, every replica's cache holds one put of the pair on top of its snapshot list, and every other cache is as it was. |
| Sharding.Ask | LRUCache.cpp:139-145 | Asking one node answers what its cache held at the snapshot, even if that cache was already asked, and records it as promoted. |
| Sharding.RetrieveFirst | LRUCache.cpp:143-147 | The replica loop answers the replica scan of the snapshot lists. Exactly the replicas the scan queries have promoted the key. |
| Sharding.WriteShard | LRUCache.cpp:129-135 | Every cache the write reaches (each replica, and the primary while live) ends as one put of the pair and looks the key up to the value. Every other node of the shard is unchanged. |
| Sharding.ReadShard | LRUCache.cpp:137-148 | Answers `RetrieveResult` of the shard's lists before the call. Exactly the queried caches have promoted the key, and every other node of the shard is unchanged. |
| Sharding.ShardManager.constructor | LRUCache.cpp:100-104 | A new manager has no primaries, no replica lists, no flags, and the given hash. |
| Sharding.ShardManager.ShardIndex | LRUCache.cpp:124-127 | With at least one primary, the shard index is below the number of primaries. It is computed from the key's hash and the primary count only. |
| Sharding.ShardManager.RegisterPrimary | LRUCache.cpp:107-110 | Appends the node as a new primary with a live flag; the replica table is unchanged. |
| Sharding.ShardManager.RegisterReplicas | LRUCache.cpp:112-115 | Grows the replica table with empty lists up to `index` when needed, then sets that shard's list; every other list and the primaries are unchanged. |
| Sharding.ShardManager.DisablePrimary | LRUCache.cpp:117-122 | For a known shard, clears only its flag. For an unknown shard, nothing changes. |
| Sharding.ShardManager.Insert | LRUCache.cpp:129-135 | Puts the pair into every replica of the key's shard, and into its primary exactly when the flag is set. Those caches then look the key up to the value. Every cache of the shard that the write does not reach is unchanged (a down primary's cache, unless it is also a replica of the shard), and no cache outside the shard changes. |
| Sharding.ShardManager.Retrieve | LRUCache.cpp:137-148 | Answers the fallback result of the key's shard as it was before the call. Only the queried caches promote the key. A shard without a replica slot can still be read when its live primary answers the key. |

## Left out

- ZooKeeper: the connection handle, the watcher, `connectToZooKeeper` and node registration (`LRUCache.cpp:18-32`, `76-89`). They are a foreign C library and network I/O.
- Locks (`LRUCache.cpp:39`, `45`, `52`): every operation is modelled as atomic and sequential. The model does not capture the data race in `get`, which mutates `lruList` while holding only a shared lock.
- `APIService` (`LRUCache.cpp:151-169`) is console logging around the manager, and `main` (`LRUCache.cpp:171-211`) is a demo driver. Neither is modelled.
- The warning that `disablePrimary` writes to the console (`LRUCache.cpp:120`) is output only and is not modelled.
- `std::hash<string>` is not modelled internally. It is a constructor parameter `hasher: string -> nat` of `ShardManager`.
- Integer widths: `size_t` values are unbounded `nat`s. Since `h % n < n`, the shard index cannot wrap.
- Iterators: `cacheMap` maps each key to a list iterator. The model maps the key to the value the iterator reaches and recovers the position with `Find`. Iterator stability under `splice` is not modelled.
- Memory: nodes are created with `new` and never freed. Allocation and ownership are not modelled beyond fresh object references.
- LruCache.LRUCache.Put: requires `capacity > 0`. With capacity 0 the C++ calls `back()` on an empty list (`LRUCache.cpp:57-58`), which is undefined behaviour.
- Sharding.CacheNode.Insert: requires the node's capacity to be positive, for the same reason.
- Sharding.ShardManager.Insert: requires `Routable(key)`: at least one primary, one flag per primary, and a replica slot for the key's shard. Without them the C++ takes a modulo by zero (`LRUCache.cpp:126`) or indexes out of range (`LRUCache.cpp:132`). It also requires every cache the write reaches (`WrittenCaches`) to have positive capacity, because `put` on a capacity-0 cache is undefined behaviour (`LRUCache.cpp:57-58`).
- Sharding.ShardManager.Retrieve: requires `Readable(key)`: at least one primary and one flag per primary, for the modulo at `LRUCache.cpp:126`. It also requires a replica slot for the key's shard, unless the shard's primary is live and answers the key. Only a read that reaches the replica loop indexes `replicas` (`LRUCache.cpp:143`).
- Sharding.ShardManager.RegisterReplicas: requires `index >= 0`. For a negative `index`, the comparison with `replicas.size()` converts it to a huge `size_t`, so the table is always resized (`LRUCache.cpp:113`). With `index == -1`, `resize(0)` empties the table and the assignment at `LRUCache.cpp:114` then indexes out of range, which is undefined behaviour. With `index <= -2`, the negative `index + 1` converts to a huge count, so `resize` throws `std::length_error` before anything is assigned. Neither path is modelled.
- Sentinel ambiguity: a stored value equal to `"[MISS]"` is indistinguishable from a miss (`LRUCache.cpp:141`, `145`). The model keeps this behaviour, so `ReadAfterInsert` excludes that value.
- Recovery of a primary, or a configuration error for missing shards, has no code in the repository and is not modelled.
