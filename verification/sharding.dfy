/**
 * Cache nodes and the shard manager: keys are routed to a shard by hash,
 * writes fan out to the shard's primary (while it is live) and to every
 * replica, and reads fall back from the primary to the replicas in order.
 */
module Sharding {
  import opened LruSpec
  import opened LruCache

  /** What the shard manager answers when no node of the shard holds the key. */
  const ColdMiss: string := "[MISS:DB fallback required]"

  /** The shard a hash value routes to, among `shardCount` shards. */
  function ShardOf(h: nat, shardCount: nat): (i: nat)
    requires shardCount > 0
    ensures i < shardCount
  {
    h % shardCount
  }

  // ---------------------------------------------------------------------
  // The read path as a function of the nodes' recency lists
  // ---------------------------------------------------------------------

  /** The first non-miss answer among the replicas, scanned in order, else `ColdMiss`. */
  function ScanReplicas(orders: seq<seq<Entry>>, key: string): (r: string)
    ensures r != Miss
    ensures r == ColdMiss || exists j :: 0 <= j < |orders| && Answer(orders[j], key) == r
  {
    if orders == [] then ColdMiss
    else if Answer(orders[0], key) != Miss then Answer(orders[0], key)
    else ScanReplicas(orders[1..], key)
  }

  /** How many replicas the scan queries: up to and including the first hit. */
  function ScanCount(orders: seq<seq<Entry>>, key: string): (n: nat)
    ensures n <= |orders|
  {
    if orders == [] then 0
    else if Answer(orders[0], key) != Miss then 1
    else 1 + ScanCount(orders[1..], key)
  }

  /** What `retrieve` answers: the live primary's hit, else the replica scan. */
  function RetrieveResult(live: bool, primary: seq<Entry>, orders: seq<seq<Entry>>, key: string): (r: string)
    ensures r != Miss
    ensures r == ColdMiss || (live && r == Answer(primary, key)) ||
      exists j :: 0 <= j < |orders| && Answer(orders[j], key) == r
  {
    if live && Answer(primary, key) != Miss then Answer(primary, key)
    else ScanReplicas(orders, key)
  }

  /** How many replicas `retrieve` queries. */
  function ReplicasQueried(live: bool, primary: seq<Entry>, orders: seq<seq<Entry>>, key: string): (n: nat)
    ensures n <= |orders|
  {
    if live && Answer(primary, key) != Miss then 0
    else ScanCount(orders, key)
  }

  /** Replica `j` is the first whose node answers something other than the sentinel. */
  predicate FirstReplicaHit(orders: seq<seq<Entry>>, key: string, j: nat)
  {
    && j < |orders|
    && Answer(orders[j], key) != Miss
    && forall l :: 0 <= l < j ==> Answer(orders[l], key) == Miss
  }

  /** The scan stops at the first hit and answers it. */
  lemma {:induction false} ScanHit(orders: seq<seq<Entry>>, key: string, j: nat)
    requires FirstReplicaHit(orders, key, j)
    ensures ScanReplicas(orders, key) == Answer(orders[j], key)
    ensures ScanCount(orders, key) == j + 1
  {
    if j > 0 {
      assert FirstReplicaHit(orders[1..], key, j - 1);
      ScanHit(orders[1..], key, j - 1);
    }
  }

  /** One step of the scan, from replica `j` on. */
  lemma ScanStep(orders: seq<seq<Entry>>, key: string, j: nat)
    requires j < |orders|
    ensures ScanReplicas(orders[j..], key) ==
      if Answer(orders[j], key) != Miss then Answer(orders[j], key) else ScanReplicas(orders[j + 1..], key)
    ensures ScanCount(orders[j..], key) ==
      if Answer(orders[j], key) != Miss then 1 else 1 + ScanCount(orders[j + 1..], key)
  {
    assert orders[j..][1..] == orders[j + 1..];
  }

  /** When every replica misses, all are queried and the answer is `ColdMiss`. */
  lemma {:induction false} ScanAllMiss(orders: seq<seq<Entry>>, key: string)
    requires forall l :: 0 <= l < |orders| ==> Answer(orders[l], key) == Miss
    ensures ScanReplicas(orders, key) == ColdMiss
    ensures ScanCount(orders, key) == |orders|
  {
    if orders != [] {
      ScanAllMiss(orders[1..], key);
    }
  }

  /**
   * The fallback order of `retrieve`. A live primary that hits answers and
   * no replica is queried. Otherwise the first replica that hits answers,
   * and the replicas after it are not queried. If every queried node
   * misses, the answer is `ColdMiss` and every replica was queried.
   */
  lemma FallbackOrder(live: bool, primary: seq<Entry>, orders: seq<seq<Entry>>, key: string)
    ensures live && Answer(primary, key) != Miss ==>
      RetrieveResult(live, primary, orders, key) == Answer(primary, key) &&
      ReplicasQueried(live, primary, orders, key) == 0
    ensures !(live && Answer(primary, key) != Miss) ==>
      forall j: nat :: FirstReplicaHit(orders, key, j) ==>
        RetrieveResult(live, primary, orders, key) == Answer(orders[j], key) &&
        ReplicasQueried(live, primary, orders, key) == j + 1
    ensures !(live && Answer(primary, key) != Miss) &&
            (forall l :: 0 <= l < |orders| ==> Answer(orders[l], key) == Miss) ==>
      RetrieveResult(live, primary, orders, key) == ColdMiss &&
      ReplicasQueried(live, primary, orders, key) == |orders|
  {
    forall j: nat | FirstReplicaHit(orders, key, j) {
      ScanHit(orders, key, j);
    }
    if forall l :: 0 <= l < |orders| ==> Answer(orders[l], key) == Miss {
      ScanAllMiss(orders, key);
    }
  }

  /**
   * Failover: with the primary marked down, a key held by the first
   * replica under a value other than the sentinel is answered from it.
   */
  lemma Failover(primary: seq<Entry>, orders: seq<seq<Entry>>, key: string, v: string)
    requires |orders| > 0 && Lookup(orders[0], key) == Some(v) && v != Miss
    ensures RetrieveResult(false, primary, orders, key) == v
    ensures ReplicasQueried(false, primary, orders, key) == 1
  {
    ScanHit(orders, key, 0);
  }

  /** A key resident in no node of the shard is a cold miss. */
  lemma ColdMissWhenAbsent(live: bool, primary: seq<Entry>, orders: seq<seq<Entry>>, key: string)
    requires key !in KeysOf(primary)
    requires forall l :: 0 <= l < |orders| ==> key !in KeysOf(orders[l])
    ensures RetrieveResult(live, primary, orders, key) == ColdMiss
  {
    LookupResident(primary, key);
    forall l | 0 <= l < |orders| ensures Answer(orders[l], key) == Miss {
      LookupResident(orders[l], key);
    }
    ScanAllMiss(orders, key);
  }

  /** The scan depends only on what each replica answers. */
  lemma {:induction false} SameAnswersSameScan(o1: seq<seq<Entry>>, o2: seq<seq<Entry>>, key: string)
    requires |o1| == |o2|
    requires forall l :: 0 <= l < |o1| ==> Answer(o1[l], key) == Answer(o2[l], key)
    ensures ScanReplicas(o1, key) == ScanReplicas(o2, key)
    ensures ScanCount(o1, key) == ScanCount(o2, key)
  {
    if o1 != [] {
      SameAnswersSameScan(o1[1..], o2[1..], key);
    }
  }

  /**
   * Reading back a write: when every node `insert` wrote holds the pair
   * and some node was written, `retrieve` answers the value (unless the
   * value is the sentinel itself).
   */
  lemma ReadAfterInsert(live: bool, primary: seq<Entry>, orders: seq<seq<Entry>>, key: string, value: string)
    requires value != Miss && (live || |orders| > 0)
    requires live ==> Lookup(primary, key) == Some(value)
    requires forall l :: 0 <= l < |orders| ==> Lookup(orders[l], key) == Some(value)
    ensures RetrieveResult(live, primary, orders, key) == value
  {
    if !live {
      ScanHit(orders, key, 0);
    }
  }

  // ---------------------------------------------------------------------
  // Nodes
  // ---------------------------------------------------------------------

  /** A cache node: an identity, a role, and the cache it owns. */
  class CacheNode {
    const nodeId: string
    const isPrimary: bool
    const cache: LRUCache

    constructor (id: string, primary: bool, size: nat)
      ensures nodeId == id && isPrimary == primary
      ensures fresh(cache) && cache.Valid()
      ensures cache.capacity == size && cache.lruList == []
    {
      nodeId := id;
      isPrimary := primary;
      cache := new LRUCache(size);
    }

    /** Delegates to the cache's `get`. */
    method Retrieve(key: string) returns (v: string)
      requires cache.Valid()
      modifies cache
      ensures cache.Valid()
      ensures v == Answer(old(cache.lruList), key)
      ensures cache.lruList == AfterGet(old(cache.lruList), key)
    {
      v := cache.Get(key);
    }

    /** Delegates to the cache's `put`. */
    method Insert(key: string, value: string)
      requires cache.Valid() && cache.capacity > 0
      modifies cache
      ensures cache.Valid()
      ensures cache.lruList == AfterPut(old(cache.lruList), cache.capacity, key, value)
    {
      cache.Put(key, value);
    }
  }

  /** The caches owned by the given nodes. */
  ghost function CachesOf(nodes: seq<CacheNode>): set<LRUCache>
  {
    set n | n in nodes :: n.cache
  }

  /** Taking one more node of a prefix adds its cache. */
  lemma CachesOfStep(nodes: seq<CacheNode>, j: nat)
    requires j < |nodes|
    ensures nodes[j].cache in CachesOf(nodes)
    ensures CachesOf(nodes[..j + 1]) == CachesOf(nodes[..j]) + {nodes[j].cache}
  {
    assert nodes[j] in nodes;
    assert nodes[..j + 1] == nodes[..j] + [nodes[j]];
  }

  /** The caches of a list with one node in front, and of a one-node list. */
  lemma CachesOfCons(n: CacheNode, rest: seq<CacheNode>)
    ensures CachesOf([n] + rest) == {n.cache} + CachesOf(rest)
    ensures CachesOf([n]) == {n.cache}
  {
    assert forall x :: x in [n] + rest <==> x == n || x in rest;
    assert forall x :: x in [n] <==> x == n;
  }

  /** The recency list of each of the given caches. */
  ghost function ListsOf(cs: set<LRUCache>): (r: map<LRUCache, seq<Entry>>)
    reads cs
    ensures r.Keys == cs
    ensures forall c :: c in cs ==> r[c] == c.lruList
  {
    map c | c in cs :: c.lruList
  }

  /** The lists a snapshot records for the given nodes' caches, in order. */
  ghost function ListsAt(start: map<LRUCache, seq<Entry>>, nodes: seq<CacheNode>): (r: seq<seq<Entry>>)
    requires CachesOf(nodes) <= start.Keys
    ensures |r| == |nodes|
    ensures forall j :: 0 <= j < |nodes| ==> r[j] == start[nodes[j].cache]
  {
    if nodes == [] then []
    else
      assert nodes[0] in nodes;
      assert forall n :: n in nodes[1..] ==> n in nodes;
      [start[nodes[0].cache]] + ListsAt(start, nodes[1..])
  }

  /** The recency lists of the given nodes' caches, in order. */
  ghost function Orders(nodes: seq<CacheNode>): (r: seq<seq<Entry>>)
    reads CachesOf(nodes)
    ensures |r| == |nodes|
    ensures forall j :: 0 <= j < |nodes| ==> r[j] == nodes[j].cache.lruList
  {
    ListsAt(ListsOf(CachesOf(nodes)), nodes)
  }

  /** The lists of a list with one node in front, and of a one-node list. */
  lemma OrdersCons(n: CacheNode, rest: seq<CacheNode>)
    ensures Orders([n] + rest) == [n.cache.lruList] + Orders(rest)
    ensures Orders([n]) == [n.cache.lruList]
  {
    CachesOfCons(n, rest);
    var r := Orders([n] + rest);
    assert forall j :: 0 < j < |r| ==> ([n] + rest)[j] == rest[j - 1];
  }

  /**
   * Every cache of `cs` is consistent; those in `written` can hold an entry
   * and have had `put(key, value)` since the snapshot `start` was taken,
   * the others are as recorded.
   */
  ghost predicate Stored(cs: set<LRUCache>, written: set<LRUCache>, key: string, value: string,
                         start: map<LRUCache, seq<Entry>>)
    reads cs
  {
    forall c :: c in cs ==>
      && c.Valid()
      && c in start
      && (c in written ==> c.capacity > 0 && c.lruList == AfterPut(start[c], c.capacity, key, value))
      && (c !in written ==> c.lruList == start[c])
  }

  /**
   * Writes the pair to one node. Writing to a cache already written leaves
   * it as one write did.
   */
  method Store(node: CacheNode, key: string, value: string, ghost cs: set<LRUCache>,
               ghost written: set<LRUCache>, ghost start: map<LRUCache, seq<Entry>>)
    requires node.cache in cs && node.cache.capacity > 0 && Stored(cs, written, key, value, start)
    modifies node.cache
    ensures Stored(cs, written + {node.cache}, key, value, start)
  {
    PutIdempotent(start[node.cache], node.cache.capacity, key, value);
    node.Insert(key, value);
  }

  /** Writing the next node of the loop extends the written set to the longer prefix. */
  lemma StoredStep(nodes: seq<CacheNode>, j: nat, key: string, value: string, cs: set<LRUCache>,
                   written: set<LRUCache>, start: map<LRUCache, seq<Entry>>)
    requires j < |nodes|
    requires Stored(cs, written + CachesOf(nodes[..j]) + {nodes[j].cache}, key, value, start)
    ensures Stored(cs, written + CachesOf(nodes[..j + 1]), key, value, start)
  {
    CachesOfStep(nodes, j);
    assert written + CachesOf(nodes[..j]) + {nodes[j].cache} == written + CachesOf(nodes[..j + 1]);
  }

  /** Every written cache then looks the key up to the value. */
  lemma StoredFound(cs: set<LRUCache>, written: set<LRUCache>, key: string, value: string,
                    start: map<LRUCache, seq<Entry>>)
    requires written <= cs && Stored(cs, written, key, value, start)
    ensures forall c :: c in written ==> Lookup(c.lruList, key) == Some(value)
  {
    forall c | c in written ensures Lookup(c.lruList, key) == Some(value) {
      PutFront(start[c], c.capacity, key, value);
    }
  }

  /** The replica loop of `insert`: every node, in order, stores the pair. */
  method InsertAll(nodes: seq<CacheNode>, key: string, value: string, ghost cs: set<LRUCache>,
                   ghost written: set<LRUCache>, ghost start: map<LRUCache, seq<Entry>>)
    requires CachesOf(nodes) <= cs && Stored(cs, written, key, value, start)
    requires forall c :: c in CachesOf(nodes) ==> c.capacity > 0
    modifies CachesOf(nodes)
    ensures Stored(cs, written + CachesOf(nodes), key, value, start)
  {
    for j := 0 to |nodes|
      invariant Stored(cs, written + CachesOf(nodes[..j]), key, value, start)
    {
      CachesOfStep(nodes, j);
      Store(nodes[j], key, value, cs, written + CachesOf(nodes[..j]), start);
      StoredStep(nodes, j, key, value, cs, written, start);
    }
    assert nodes[..|nodes|] == nodes;
  }

  /**
   * Every cache of `cs` is consistent; those in `asked` have had `get(key)`
   * since the snapshot `start` was taken, the others are as recorded.
   */
  ghost predicate Promoted(cs: set<LRUCache>, asked: set<LRUCache>, key: string, start: map<LRUCache, seq<Entry>>)
    reads cs
  {
    forall c :: c in cs ==>
      && c.Valid()
      && c in start
      && c.lruList == if c in asked then AfterGet(start[c], key) else start[c]
  }

  /**
   * Asks one node. Its answer is what it would have answered at the
   * snapshot, since a `get` does not change what a later `get` of the same
   * key answers.
   */
  method Ask(node: CacheNode, key: string, ghost cs: set<LRUCache>, ghost asked: set<LRUCache>,
             ghost start: map<LRUCache, seq<Entry>>) returns (v: string)
    requires node.cache in cs && Promoted(cs, asked, key, start)
    modifies node.cache
    ensures Promoted(cs, asked + {node.cache}, key, start)
    ensures v == Answer(start[node.cache], key)
  {
    ghost var s := start[node.cache];
    GetIdempotent(s, key);
    assert node.cache.lruList == if node.cache in asked then AfterGet(s, key) else s;
    v := node.Retrieve(key);
    assert node.cache.lruList == AfterGet(s, key);
    forall c | c in cs
      ensures c.Valid() && c in start
      ensures c.lruList == if c in asked + {node.cache} then AfterGet(start[c], key) else start[c]
    {
      if c != node.cache {
        assert c.lruList == old(c.lruList);
      }
    }
  }

  /** Asking the next node of the loop extends the asked set to the longer prefix. */
  lemma PromotedStep(nodes: seq<CacheNode>, j: nat, key: string, cs: set<LRUCache>,
                     asked: set<LRUCache>, start: map<LRUCache, seq<Entry>>)
    requires j < |nodes|
    requires Promoted(cs, asked + CachesOf(nodes[..j]) + {nodes[j].cache}, key, start)
    ensures Promoted(cs, asked + CachesOf(nodes[..j + 1]), key, start)
  {
    CachesOfStep(nodes, j);
    assert asked + CachesOf(nodes[..j]) + {nodes[j].cache} == asked + CachesOf(nodes[..j + 1]);
  }

  /**
   * The replica loop of `retrieve`: nodes are asked in order until one
   * answers something other than the sentinel; `ColdMiss` when none does.
   * Exactly the nodes asked promote the key.
   */
  method RetrieveFirst(nodes: seq<CacheNode>, key: string, ghost cs: set<LRUCache>,
                       ghost asked: set<LRUCache>, ghost start: map<LRUCache, seq<Entry>>)
    returns (v: string)
    requires CachesOf(nodes) <= cs && Promoted(cs, asked, key, start)
    modifies CachesOf(nodes)
    ensures v == ScanReplicas(ListsAt(start, nodes), key)
    ensures Promoted(cs, asked + CachesOf(nodes[..ScanCount(ListsAt(start, nodes), key)]), key, start)
  {
    ghost var orders := ListsAt(start, nodes);
    for j := 0 to |nodes|
      invariant ScanReplicas(orders, key) == ScanReplicas(orders[j..], key)
      invariant ScanCount(orders, key) == j + ScanCount(orders[j..], key)
      invariant Promoted(cs, asked + CachesOf(nodes[..j]), key, start)
    {
      CachesOfStep(nodes, j);
      ScanStep(orders, key, j);
      v := Ask(nodes[j], key, cs, asked + CachesOf(nodes[..j]), start);
      PromotedStep(nodes, j, key, cs, asked, start);
      if v != Miss {
        return;
      }
    }
    v := ColdMiss;
  }

  /** The caches of a shard's nodes. */
  ghost function NodeCaches(primary: CacheNode, reps: seq<CacheNode>): set<LRUCache>
  {
    {primary.cache} + CachesOf(reps)
  }

  /** The caches a write reaches: every replica, and the primary while live. */
  ghost function Written(live: bool, primary: CacheNode, reps: seq<CacheNode>): set<LRUCache>
  {
    CachesOf(reps) + (if live then {primary.cache} else {})
  }

  /** What a read of the shard answers. */
  ghost function ReadOutcome(live: bool, primary: CacheNode, reps: seq<CacheNode>, key: string): string
    reads NodeCaches(primary, reps)
  {
    RetrieveResult(live, primary.cache.lruList, Orders(reps), key)
  }

  /** The caches a read of the shard queries. */
  ghost function Queried(live: bool, primary: CacheNode, reps: seq<CacheNode>, key: string): set<LRUCache>
    reads NodeCaches(primary, reps)
  {
    var n := ReplicasQueried(live, primary.cache.lruList, Orders(reps), key);
    (if live then {primary.cache} else {}) + CachesOf(reps[..n])
  }

  /** The write path of one shard: the live primary, then every replica. */
  method WriteShard(live: bool, primary: CacheNode, reps: seq<CacheNode>, key: string, value: string)
    requires forall c :: c in NodeCaches(primary, reps) ==> c.Valid()
    requires forall c :: c in Written(live, primary, reps) ==> c.capacity > 0
    modifies NodeCaches(primary, reps)
    ensures forall c :: c in NodeCaches(primary, reps) ==> c.Valid()
    ensures forall c :: c in NodeCaches(primary, reps) ==>
      c.lruList == if c in Written(live, primary, reps)
                   then AfterPut(old(c.lruList), c.capacity, key, value)
                   else old(c.lruList)
    ensures forall c :: c in Written(live, primary, reps) ==> Lookup(c.lruList, key) == Some(value)
  {
    ghost var cs := NodeCaches(primary, reps);
    ghost var start := ListsOf(cs);
    ghost var w := Written(live, primary, reps);
    ghost var written: set<LRUCache> := {};
    if live {
      assert primary.cache in w;
      Store(primary, key, value, cs, written, start);
      written := {primary.cache};
    }
    assert CachesOf(reps) <= w;
    InsertAll(reps, key, value, cs, written, start);
    assert written + CachesOf(reps) == w;
    StoredFound(cs, w, key, value, start);
    forall c | c in cs
      ensures c.Valid()
      ensures c.lruList == if c in w then AfterPut(start[c], c.capacity, key, value) else start[c]
    {
    }
  }

  /**
   * The read path of one shard: the live primary first, then the replicas
   * in order, stopping at the first node that does not miss.
   */
  method ReadShard(live: bool, primary: CacheNode, reps: seq<CacheNode>, key: string) returns (v: string)
    requires forall c :: c in NodeCaches(primary, reps) ==> c.Valid()
    modifies NodeCaches(primary, reps)
    ensures forall c :: c in NodeCaches(primary, reps) ==> c.Valid()
    ensures v == old(ReadOutcome(live, primary, reps, key))
    ensures forall c :: c in NodeCaches(primary, reps) ==>
      c.lruList == if c in old(Queried(live, primary, reps, key))
                   then AfterGet(old(c.lruList), key)
                   else old(c.lruList)
  {
    ghost var cs := NodeCaches(primary, reps);
    ghost var start := ListsOf(cs);
    ghost var orders := Orders(reps);
    assert orders == ListsAt(start, reps);
    ghost var asked: set<LRUCache> := {};
    if live {
      v := Ask(primary, key, cs, asked, start);
      if v != Miss {
        return;
      }
      asked := {primary.cache};
    }
    v := RetrieveFirst(reps, key, cs, asked, start);
  }

  // ---------------------------------------------------------------------
  // The shard manager
  // ---------------------------------------------------------------------

  /**
   * Routes keys to shards. Shard `i` has primary `primaries[i]`, liveness
   * flag `primaryStatus[i]` and replicas `replicas[i]`. Nodes are shared
   * references: one node may be registered more than once.
   */
  class ShardManager {
    /** The string hash the process uses. */
    const hasher: string -> nat
    var primaries: seq<CacheNode>
    var replicas: seq<seq<CacheNode>>
    var primaryStatus: seq<bool>

    constructor (hasher: string -> nat)
      ensures Valid()
      ensures this.hasher == hasher
      ensures primaries == [] && replicas == [] && primaryStatus == []
    {
      this.hasher := hasher;
      primaries := [];
      replicas := [];
      primaryStatus := [];
    }

    /** The caches of every registered node. */
    ghost function Caches(): set<LRUCache>
      reads this
    {
      (set i | 0 <= i < |primaries| :: primaries[i].cache) +
      (set s, j | 0 <= s < |replicas| && 0 <= j < |replicas[s]| :: replicas[s][j].cache)
    }

    /** One liveness flag per primary, and every registered cache is consistent. */
    ghost predicate Valid()
      reads this, Caches()
    {
      && |primaryStatus| == |primaries|
      && forall c :: c in Caches() ==> c.Valid()
    }

    /** The shard a key belongs to. */
    function ShardIndex(key: string): (idx: nat)
      reads this
      requires |primaries| > 0
      ensures idx < |primaries|
    {
      ShardOf(hasher(key), |primaries|)
    }

    /** A key can be routed: there is a primary, and its shard has a replica slot. */
    ghost predicate Routable(key: string)
      reads this
    {
      |primaries| > 0 && |primaryStatus| == |primaries| && ShardIndex(key) < |replicas|
    }

    /**
     * A key can be read: there is a primary, and either its shard has a
     * replica slot or its primary is live and answers the key, so that the
     * read returns before it looks the slot up.
     */
    ghost predicate Readable(key: string)
      reads this, Caches()
    {
      && |primaries| > 0
      && |primaryStatus| == |primaries|
      && var idx := ShardIndex(key);
         assert primaries[idx].cache in Caches();
         || idx < |replicas|
         || (primaryStatus[idx] && Answer(primaries[idx].cache.lruList, key) != Miss)
    }

    /** The replica list of shard `idx`; empty when no slot was registered. */
    function Slot(idx: nat): (reps: seq<CacheNode>)
      reads this
      ensures idx < |replicas| ==> reps == replicas[idx]
      ensures idx >= |replicas| ==> reps == []
    {
      if idx < |replicas| then replicas[idx] else []
    }

    /** The caches of every node of shard `idx`. */
    ghost function ShardCaches(idx: nat): set<LRUCache>
      reads this
      requires idx < |primaries|
    {
      NodeCaches(primaries[idx], Slot(idx))
    }

    /** The caches `insert(key, _)` writes to. */
    ghost function WrittenCaches(key: string): set<LRUCache>
      reads this
      requires Routable(key)
    {
      var idx := ShardIndex(key);
      Written(primaryStatus[idx], primaries[idx], replicas[idx])
    }

    /** What `retrieve(key)` answers in the current state. */
    ghost function RetrieveOutcome(key: string): string
      reads this, ShardCaches(ShardIndex(key))
      requires |primaries| > 0 && |primaryStatus| == |primaries|
    {
      var idx := ShardIndex(key);
      ReadOutcome(primaryStatus[idx], primaries[idx], Slot(idx), key)
    }

    /** The caches `retrieve(key)` queries in the current state. */
    ghost function QueriedCaches(key: string): set<LRUCache>
      reads this, ShardCaches(ShardIndex(key))
      requires |primaries| > 0 && |primaryStatus| == |primaries|
    {
      var idx := ShardIndex(key);
      Queried(primaryStatus[idx], primaries[idx], Slot(idx), key)
    }

    /** Adds a primary, live, as the next shard. */
    method RegisterPrimary(node: CacheNode)
      requires Valid() && node.cache.Valid()
      modifies this
      ensures Valid()
      ensures primaries == old(primaries) + [node]
      ensures primaryStatus == old(primaryStatus) + [true]
      ensures replicas == old(replicas)
    {
      primaries := primaries + [node];
      primaryStatus := primaryStatus + [true];
      assert Caches() == old(Caches()) + {node.cache} by {
        assert primaries[|primaries| - 1].cache == node.cache;
        assert forall i :: 0 <= i < |old(primaries)| ==> primaries[i] == old(primaries)[i];
      }
    }

    /**
     * Sets the replica list of shard `index`, first growing the table with
     * empty lists when `index` lies beyond it.
     */
    method RegisterReplicas(index: int, replicaList: seq<CacheNode>)
      requires Valid() && index >= 0
      requires forall n :: n in replicaList ==> n.cache.Valid()
      modifies this
      ensures Valid()
      ensures |replicas| == if index < |old(replicas)| then |old(replicas)| else index + 1
      ensures replicas[index] == replicaList
      ensures forall s :: 0 <= s < |replicas| && s != index ==>
        replicas[s] == if s < |old(replicas)| then old(replicas)[s] else []
      ensures primaries == old(primaries) && primaryStatus == old(primaryStatus)
    {
      if index >= |replicas| {
        replicas := replicas + seq(index + 1 - |replicas|, _ => []);
      }
      replicas := replicas[index := replicaList];
      forall c | c in Caches() ensures c.Valid() {
        if c !in old(Caches()) {
          var s, j :| 0 <= s < |replicas| && 0 <= j < |replicas[s]| && replicas[s][j].cache == c;
          assert s == index;
          assert replicaList[j] in replicaList;
        }
      }
    }

    /** Marks the primary of shard `idx` as down; an unknown shard is ignored. */
    method DisablePrimary(idx: nat)
      requires Valid()
      modifies this
      ensures Valid()
      ensures idx < |old(primaryStatus)| ==> primaryStatus == old(primaryStatus)[idx := false]
      ensures idx >= |old(primaryStatus)| ==> primaryStatus == old(primaryStatus)
      ensures primaries == old(primaries) && replicas == old(replicas)
    {
      if idx < |primaryStatus| {
        primaryStatus := primaryStatus[idx := false];
      }
    }

    /**
     * Writes the pair to every replica of the key's shard, and to its
     * primary while that is live. No other cache changes.
     */
    method Insert(key: string, value: string)
      requires Valid() && Routable(key)
      requires forall c :: c in WrittenCaches(key) ==> c.capacity > 0
      modifies ShardCaches(ShardIndex(key))
      ensures Valid()
      ensures forall c :: c in ShardCaches(ShardIndex(key)) ==>
        c.lruList == if c in WrittenCaches(key)
                     then AfterPut(old(c.lruList), c.capacity, key, value)
                     else old(c.lruList)
      ensures forall c :: c in WrittenCaches(key) ==> Lookup(c.lruList, key) == Some(value)
    {
      var idx := ShardIndex(key);
      WriteShard(primaryStatus[idx], primaries[idx], replicas[idx], key, value);
      forall c | c in Caches() ensures c.Valid() {
        if c !in ShardCaches(idx) {
          assert c in old(Caches());
        }
      }
    }

    /**
     * Answers from the key's shard: the live primary first, then the
     * replicas in order, stopping at the first node that does not miss;
     * `ColdMiss` when every queried node misses. Every queried node
     * promotes the key; the nodes not queried are unchanged.
     */
    method Retrieve(key: string) returns (v: string)
      requires Valid() && Readable(key)
      modifies ShardCaches(ShardIndex(key))
      ensures Valid()
      ensures v == old(RetrieveOutcome(key))
      ensures forall c :: c in ShardCaches(ShardIndex(key)) ==>
        c.lruList == if c in old(QueriedCaches(key))
                     then AfterGet(old(c.lruList), key)
                     else old(c.lruList)
    {
      var idx := ShardIndex(key);
      // Without a slot the live primary answers, so the empty list is never scanned.
      v := ReadShard(primaryStatus[idx], primaries[idx], Slot(idx), key);
      forall c | c in Caches() ensures c.Valid() {
        if c !in ShardCaches(idx) {
          assert c in old(Caches());
        }
      }
    }
  }
}
