/**
 * The single-node cache: a recency list (most recently used at the front)
 * and an index from key to list entry, bounded by a capacity fixed at
 * construction.
 */
module LruCache {
  import opened LruSpec

  /**
   * Every list entry is indexed under its key with its value, and the index
   * is no larger than the list, so it holds nothing else (`IndexKeys`).
   */
  ghost predicate IndexAgrees(m: map<string, string>, s: seq<Entry>)
  {
    && |m| == |s|
    && forall i :: 0 <= i < |s| ==> s[i].key in m && m[s[i].key] == s[i].value
  }

  /** A subset is no larger than its superset, and equal when as large. */
  lemma {:induction false} SubsetCard(a: set<string>, b: set<string>)
    requires a <= b
    ensures |a| <= |b|
    ensures |a| == |b| ==> a == b
    decreases a
  {
    if a != {} {
      var x :| x in a;
      SubsetCard(a - {x}, b - {x});
    } else if b != {} {
      var x :| x in b;
      assert |b| > 0;
    }
  }

  /** A list of distinct keys has as many keys as entries. */
  lemma {:induction false} KeysCard(s: seq<Entry>)
    requires NoDupKeys(s)
    ensures |KeysOf(s)| == |s|
  {
    if s != [] {
      KeysOfConcat([s[0]], s[1..]);
      KeysOfSingleton(s[0]);
      assert [s[0]] + s[1..] == s;
      KeysCard(s[1..]);
      assert s[0].key !in KeysOf(s[1..]);
    }
  }

  /** An index in step with a list of distinct keys holds exactly its keys. */
  lemma IndexKeys(m: map<string, string>, s: seq<Entry>)
    requires NoDupKeys(s) && IndexAgrees(m, s)
    ensures m.Keys == KeysOf(s)
  {
    KeysCard(s);
    SubsetCard(KeysOf(s), m.Keys);
  }

  /** Conversely, the key sets agreeing gives the size condition. */
  lemma IndexFromKeys(m: map<string, string>, s: seq<Entry>)
    requires NoDupKeys(s) && m.Keys == KeysOf(s)
    requires forall i :: 0 <= i < |s| ==> m[s[i].key] == s[i].value
    ensures IndexAgrees(m, s)
  {
    KeysCard(s);
    assert |m| == |m.Keys|;
  }

  /** Promoting an entry leaves the index in step with the list. */
  lemma GetIndex(s: seq<Entry>, m: map<string, string>, key: string)
    requires NoDupKeys(s) && IndexAgrees(m, s)
    ensures IndexAgrees(m, AfterGet(s, key))
  {
    var r := AfterGet(s, key);
    GetKeepsContents(s, key);
    forall p | 0 <= p < |r| ensures r[p].key in m && m[r[p].key] == r[p].value {
      assert r[p] in multiset(s);
    }
    assert |r| == |multiset(r)| == |multiset(s)| == |s|;
  }

  /**
   * The index updates `put` makes keep it in step with the list. For a
   * resident key its value is replaced ...
   */
  lemma PutIndexResident(s: seq<Entry>, m: map<string, string>, capacity: nat, key: string, value: string)
    requires capacity > 0 && NoDupKeys(s) && |s| <= capacity && IndexAgrees(m, s)
    requires key in m
    ensures IndexAgrees(m[key := value], AfterPut(s, capacity, key, value))
  {
    IndexKeys(m, s);
    PutIndexKeys(s, m.Keys, capacity, key, value);
    PutKeepsInvariant(s, capacity, key, value);
    PutValues(s, m, capacity, key, value, m[key := value]);
    IndexFromKeys(m[key := value], AfterPut(s, capacity, key, value));
  }

  /** ... for a new key at capacity the back key is erased and `key` added ... */
  lemma PutIndexEvict(s: seq<Entry>, m: map<string, string>, capacity: nat, key: string, value: string)
    requires capacity > 0 && NoDupKeys(s) && |s| <= capacity && IndexAgrees(m, s)
    requires key !in m && |s| >= capacity
    ensures IndexAgrees((m - {s[|s| - 1].key})[key := value], AfterPut(s, capacity, key, value))
  {
    var m' := (m - {s[|s| - 1].key})[key := value];
    IndexKeys(m, s);
    PutIndexKeys(s, m.Keys, capacity, key, value);
    PutKeepsInvariant(s, capacity, key, value);
    assert m'.Keys == m.Keys - {s[|s| - 1].key} + {key};
    PutValues(s, m, capacity, key, value, m');
    IndexFromKeys(m', AfterPut(s, capacity, key, value));
  }

  /** ... and below capacity `key` is simply added. */
  lemma PutIndexGrow(s: seq<Entry>, m: map<string, string>, capacity: nat, key: string, value: string)
    requires capacity > 0 && NoDupKeys(s) && |s| <= capacity && IndexAgrees(m, s)
    requires key !in m && |s| < capacity
    ensures IndexAgrees(m[key := value], AfterPut(s, capacity, key, value))
  {
    IndexKeys(m, s);
    PutIndexKeys(s, m.Keys, capacity, key, value);
    PutKeepsInvariant(s, capacity, key, value);
    MapUpdateKeys(m, key, value);
    PutValues(s, m, capacity, key, value, m[key := value]);
    IndexFromKeys(m[key := value], AfterPut(s, capacity, key, value));
  }

  /** Updating a map adds the key to its key set. */
  lemma MapUpdateKeys(m: map<string, string>, key: string, value: string)
    ensures m[key := value].Keys == m.Keys + {key}
  {
  }

  /** The key set after `put`, stated on a given key set of the list, in each of the three cases. */
  lemma PutIndexKeys(s: seq<Entry>, ks: set<string>, capacity: nat, key: string, value: string)
    requires capacity > 0 && NoDupKeys(s) && |s| <= capacity && ks == KeysOf(s)
    ensures key in ks ==> ks == KeysOf(AfterPut(s, capacity, key, value))
    ensures key !in ks && |s| >= capacity ==>
      ks - {s[|s| - 1].key} + {key} == KeysOf(AfterPut(s, capacity, key, value))
    ensures key !in ks && |s| < capacity ==>
      ks + {key} == KeysOf(AfterPut(s, capacity, key, value))
  {
    PutKeys(s, capacity, key, value);
  }

  /** The map `put` leaves gives each entry of the new list its value. */
  lemma PutValues(s: seq<Entry>, m: map<string, string>, capacity: nat, key: string, value: string,
                  m': map<string, string>)
    requires capacity > 0 && NoDupKeys(s) && IndexAgrees(m, s)
    requires m'.Keys == KeysOf(AfterPut(s, capacity, key, value))
    requires m' == if key in m then m[key := value]
                   else if |s| >= capacity then (m - {s[|s| - 1].key})[key := value]
                   else m[key := value]
    ensures forall p :: 0 <= p < |AfterPut(s, capacity, key, value)| ==>
      m'[AfterPut(s, capacity, key, value)[p].key] == AfterPut(s, capacity, key, value)[p].value
  {
    var r := AfterPut(s, capacity, key, value);
    PutMembers(s, capacity, key, value);
    forall p | 0 <= p < |r| ensures m'[r[p].key] == r[p].value {
      assert r[p] in r;
      if r[p].key != key {
        var q :| 0 <= q < |s| && s[q] == r[p];
      }
    }
  }

  /**
   * `get` on a consistent list and index: the index tells whether the key
   * is resident and holds the answer, and the promoted list is consistent
   * with the unchanged index.
   */
  lemma GetValid(s: seq<Entry>, m: map<string, string>, key: string)
    requires UniqueKeys(s) && IndexAgrees(m, s)
    ensures key in m <==> Find(s, key).Some?
    ensures key in m ==> m[key] == Answer(s, key)
    ensures |AfterGet(s, key)| == |s|
    ensures UniqueKeys(AfterGet(s, key)) && IndexAgrees(m, AfterGet(s, key))
  {
    UniqueKeysIff(s);
    LookupResident(s, key);
    IndexKeys(m, s);
    GetKeepsContents(s, key);
    GetIndex(s, m, key);
    UniqueKeysIff(AfterGet(s, key));
  }

  /**
   * `put` on a consistent list and index: the index tells whether the key
   * is resident, and each of the three index updates leaves the new list
   * and index consistent.
   */
  lemma PutValid(s: seq<Entry>, m: map<string, string>, capacity: nat, key: string, value: string)
    requires capacity > 0 && |s| <= capacity && UniqueKeys(s) && IndexAgrees(m, s)
    ensures key in m <==> Find(s, key).Some?
    ensures |AfterPut(s, capacity, key, value)| <= capacity
    ensures UniqueKeys(AfterPut(s, capacity, key, value))
    ensures key in m ==> IndexAgrees(m[key := value], AfterPut(s, capacity, key, value))
    ensures key !in m && |s| >= capacity ==>
      IndexAgrees((m - {s[|s| - 1].key})[key := value], AfterPut(s, capacity, key, value))
    ensures key !in m && |s| < capacity ==>
      IndexAgrees(m[key := value], AfterPut(s, capacity, key, value))
  {
    UniqueKeysIff(s);
    UniqueKeysIff(AfterPut(s, capacity, key, value));
    LookupResident(s, key);
    IndexKeys(m, s);
    PutKeepsInvariant(s, capacity, key, value);
    if key in m {
      PutIndexResident(s, m, capacity, key, value);
    } else if |s| >= capacity {
      PutIndexEvict(s, m, capacity, key, value);
    } else {
      PutIndexGrow(s, m, capacity, key, value);
    }
  }

  class LRUCache {
    const capacity: nat
    /** The recency list, most recently used first. */
    var lruList: seq<Entry>
    /**
     * The index. Each key maps to what its list iterator dereferences to,
     * the stored value; the entry's position is recovered with `Find`.
     */
    var cacheMap: map<string, string>

    /**
     * Index and list agree, keys are unique and the capacity is respected.
     * Uniqueness is stated with the recursive `UniqueKeys` rather than the
     * pairwise `NoDupKeys`: it adds no quantifier to the heap proofs of the
     * methods below, and `UniqueKeysIff` shows the two say the same.
     */
    ghost predicate Valid()
      reads this
    {
      && |lruList| <= capacity
      && UniqueKeys(lruList)
      && IndexAgrees(cacheMap, lruList)
    }

    constructor (cap: nat)
      ensures Valid()
      ensures capacity == cap && lruList == [] && cacheMap == map[]
    {
      capacity := cap;
      lruList := [];
      cacheMap := map[];
    }

    /**
     * Answers the value stored under `key` and promotes its entry to the
     * front, or answers `Miss` and changes nothing.
     */
    method Get(key: string) returns (v: string)
      requires Valid()
      modifies this
      ensures Valid()
      ensures v == Answer(old(lruList), key)
      ensures lruList == AfterGet(old(lruList), key)
      ensures cacheMap == old(cacheMap)
    {
      GetValid(lruList, cacheMap, key);
      if key !in cacheMap {
        return Miss;
      }
      var i := Find(lruList, key).value;
      lruList := MoveToFront(lruList, i);
      v := cacheMap[key];
    }

    /**
     * Stores `value` under `key` at the front. A resident key is updated in
     * place; for a new key at capacity the back entry is evicted first.
     */
    method Put(key: string, value: string)
      requires Valid() && capacity > 0
      modifies this
      ensures Valid()
      ensures lruList == AfterPut(old(lruList), capacity, key, value)
      ensures key in old(cacheMap) ==> cacheMap == old(cacheMap)[key := value]
      ensures key !in old(cacheMap) && |old(lruList)| >= capacity ==>
        cacheMap == (old(cacheMap) - {old(lruList)[|old(lruList)| - 1].key})[key := value]
      ensures key !in old(cacheMap) && |old(lruList)| < capacity ==>
        cacheMap == old(cacheMap)[key := value]
    {
      ghost var before := lruList;
      PutValid(lruList, cacheMap, capacity, key, value);
      if key in cacheMap {
        var i := Find(lruList, key).value;
        PutResidentSplice(before, capacity, key, value);
        lruList := MoveToFront(lruList, i);
        lruList := lruList[0 := Entry(key, value)];
        cacheMap := cacheMap[key := value];
      } else {
        assert Find(before, key) == None;
        if |lruList| >= capacity {
          var last := lruList[|lruList| - 1];
          cacheMap := cacheMap - {last.key};
          lruList := lruList[..|lruList| - 1];
        }
        lruList := [Entry(key, value)] + lruList;
        cacheMap := cacheMap[key := value];
      }
    }
  }
}
