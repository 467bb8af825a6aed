/**
 * The expiry-only cache `TimedCache`: an unbounded map from keys to cache entries
 * whose only removal path modelled here is the expiry sweep `pruneCache`.
 */
module CacheImpl {
  import opened Sequences

  /** One cached entry (`CacheObject`): its key and its value. The bookkeeping that
      decides expiry is not part of this model; expiry is a predicate over entries. */
  datatype CacheObject<K, V> = CacheObject(key: K, obj: V)

  /** The entries of `m` that survive a sweep under `isExpired`. */
  function Kept<K, V>(m: map<K, CacheObject<K, V>>, isExpired: CacheObject<K, V> -> bool): map<K, CacheObject<K, V>>
  {
    map k | k in m && !isExpired(m[k]) :: m[k]
  }

  /** The keys of `m` whose entries a sweep under `isExpired` removes. */
  function ExpiredKeys<K, V>(m: map<K, CacheObject<K, V>>, isExpired: CacheObject<K, V> -> bool): set<K>
  {
    set k | k in m && isExpired(m[k])
  }

  /** The `onRemove(key, value)` notifications for the entries of `m` under the keys `ks`, in that order. */
  function Notifications<K, V>(ks: seq<K>, m: map<K, CacheObject<K, V>>): (r: seq<(K, V)>)
    requires forall i :: 0 <= i < |ks| ==> ks[i] in m
    ensures |r| == |ks|
    ensures forall i :: 0 <= i < |ks| ==> r[i] == (m[ks[i]].key, m[ks[i]].obj)
  {
    if ks == [] then [] else [(m[ks[0]].key, m[ks[0]].obj)] + Notifications(ks[1..], m)
  }

  /** A sweep splits the map: the kept entries and the removed keys partition it, so
      the number removed is the old size minus the new size and never exceeds the old size. */
  lemma {:induction false} SweepPartition<K, V>(m: map<K, CacheObject<K, V>>, isExpired: CacheObject<K, V> -> bool)
    ensures Kept(m, isExpired).Keys !! ExpiredKeys(m, isExpired)
    ensures Kept(m, isExpired).Keys + ExpiredKeys(m, isExpired) == m.Keys
    ensures |Kept(m, isExpired)| + |ExpiredKeys(m, isExpired)| == |m|
    ensures |ExpiredKeys(m, isExpired)| <= |m|
  {
    var kept, gone := Kept(m, isExpired).Keys, ExpiredKeys(m, isExpired);
    assert kept + gone == m.Keys;
    assert |kept + gone| == |kept| + |gone|;
    assert |Kept(m, isExpired)| == |kept|;
  }

  /** A sweep leaves no expired entry behind and keeps every other entry as it was. */
  lemma SweepKeepsExactlyLive<K, V>(m: map<K, CacheObject<K, V>>, isExpired: CacheObject<K, V> -> bool, k: K)
    ensures k in Kept(m, isExpired) <==> k in m && !isExpired(m[k])
    ensures k in Kept(m, isExpired) ==> Kept(m, isExpired)[k] == m[k] && !isExpired(Kept(m, isExpired)[k])
  {
  }

  /** A second sweep under the same predicate removes nothing. */
  lemma SweepIdempotent<K, V>(m: map<K, CacheObject<K, V>>, isExpired: CacheObject<K, V> -> bool)
    ensures Kept(Kept(m, isExpired), isExpired) == Kept(m, isExpired)
    ensures ExpiredKeys(Kept(m, isExpired), isExpired) == {}
  {
  }

  class TimedCache<K(==), V> {
    /** The capacity bound; 0 means unbounded. */
    var capacity: int
    /** The default time-out in milliseconds (a Java `long`). */
    var timeout: int
    /** The storage, key to entry (`cacheMap`). */
    var cacheMap: map<K, CacheObject<K, V>>
    /** Every `onRemove(key, value)` notification so far, oldest first. */
    var removed: seq<(K, V)>

    /** `TimedCache(long timeout, Map map)`: unbounded, storing the given time-out and map (`storage`) as they are. */
    constructor (timeout: int, storage: map<K, CacheObject<K, V>>)
      ensures capacity == 0 && this.timeout == timeout && cacheMap == storage && removed == []
    {
      capacity := 0;
      this.timeout := timeout;
      cacheMap := storage;
      removed := [];
    }

    /** `TimedCache(long timeout)`: the same over a fresh, empty map. */
    constructor WithTimeout(timeout: int)
      ensures capacity == 0 && this.timeout == timeout && cacheMap == map[] && removed == []
    {
      capacity := 0;
      this.timeout := timeout;
      cacheMap := map[];
      removed := [];
    }

    /**
     * `pruneCache()`: remove every expired entry, notify `onRemove` once per removed
     * entry with that entry's key and value, and return how many were removed.
     * The map is walked in an order the model leaves open; `order` is the order in
     * which the removed keys were met.
     */
    method PruneCache(isExpired: CacheObject<K, V> -> bool) returns (count: int, ghost order: seq<K>)
      modifies this
      ensures cacheMap == Kept(old(cacheMap), isExpired)
      ensures forall k :: k in cacheMap ==> !isExpired(cacheMap[k])
      ensures forall k :: k in old(cacheMap) && !isExpired(old(cacheMap)[k]) ==> k in cacheMap && cacheMap[k] == old(cacheMap)[k]
      ensures forall i :: 0 <= i < |order| ==> order[i] in old(cacheMap) && isExpired(old(cacheMap)[order[i]])
      ensures Distinct(order) && (set i | 0 <= i < |order| :: order[i]) == ExpiredKeys(old(cacheMap), isExpired)
      ensures removed == old(removed) + Notifications(order, old(cacheMap))
      ensures count == |order| == |old(cacheMap)| - |cacheMap|
      ensures 0 <= count <= |old(cacheMap)|
      ensures capacity == old(capacity) && timeout == old(timeout)
    {
      ghost var m0 := cacheMap;
      var m := cacheMap;
      var log := removed;
      var remaining := m.Keys;
      count := 0;
      order := [];
      while remaining != {}
        invariant Sweeping(m, order, m0, remaining, isExpired)
        invariant log == old(removed) + Notifications(order, m0)
        invariant count == |order|
        invariant capacity == old(capacity) && timeout == old(timeout)
        decreases remaining
      {
        var k :| k in remaining;
        var co := m[k];
        if isExpired(co) {
          SweepRemoves(m, order, m0, remaining, isExpired, k);
          NotificationsSnoc(order, k, m0);
          assert log + [(co.key, co.obj)] == old(removed) + Notifications(order + [k], m0);
          m := m - {k};
          log := log + [(co.key, co.obj)];
          order := order + [k];
          count := count + 1;
        } else {
          SweepKeeps(m, order, m0, remaining, isExpired, k);
        }
        remaining := remaining - {k};
      }
      SweepDone(m, order, m0, isExpired);
      cacheMap := m;
      removed := log;
    }
  }

  /** The state of a sweep of `m0` that still has `remaining` to visit: `m` has lost
      exactly the visited expired entries, `order` lists those, each once, and the
      sizes add up. */
  ghost predicate Sweeping<K, V>(m: map<K, CacheObject<K, V>>, order: seq<K>, m0: map<K, CacheObject<K, V>>, remaining: set<K>, isExpired: CacheObject<K, V> -> bool)
  {
    && remaining <= m0.Keys
    && (forall k :: k in m ==> k in m0 && m[k] == m0[k] && (k in remaining || !isExpired(m0[k])))
    && (forall k :: k in m0 && (k in remaining || !isExpired(m0[k])) ==> k in m)
    && (forall i :: 0 <= i < |order| ==> order[i] in m0 && order[i] !in remaining && isExpired(m0[order[i]]))
    && (forall k :: k in m0 && k !in remaining && isExpired(m0[k]) ==> k in order)
    && Distinct(order)
    && |m| + |order| == |m0|
  }

  /** Visiting an expired entry removes it and appends its key to `order`. */
  lemma SweepRemoves<K, V>(m: map<K, CacheObject<K, V>>, order: seq<K>, m0: map<K, CacheObject<K, V>>, remaining: set<K>, isExpired: CacheObject<K, V> -> bool, k: K)
    requires Sweeping(m, order, m0, remaining, isExpired)
    requires k in remaining && isExpired(m0[k])
    ensures k in m && m[k] == m0[k]
    ensures Sweeping(m - {k}, order + [k], m0, remaining - {k}, isExpired)
  {
    Shrink(m, k);
    var order' := order + [k];
    forall i | 0 <= i < |order'|
      ensures order'[i] in m0 && order'[i] !in remaining - {k} && isExpired(m0[order'[i]])
    {
      if i < |order| { assert order'[i] == order[i]; }
    }
    forall x | x in m0 && x !in remaining - {k} && isExpired(m0[x])
      ensures x in order'
    {
      if x != k { assert x in order; }
      else { assert order'[|order|] == k; }
    }
  }

  /** Visiting a live entry changes nothing but the set still to visit. */
  lemma SweepKeeps<K, V>(m: map<K, CacheObject<K, V>>, order: seq<K>, m0: map<K, CacheObject<K, V>>, remaining: set<K>, isExpired: CacheObject<K, V> -> bool, k: K)
    requires Sweeping(m, order, m0, remaining, isExpired)
    requires k in remaining && !isExpired(m0[k])
    ensures k in m && m[k] == m0[k]
    ensures Sweeping(m, order, m0, remaining - {k}, isExpired)
  {
  }

  /** A sweep with nothing left to visit has produced `Kept` and met every expired key once. */
  lemma SweepDone<K, V>(m: map<K, CacheObject<K, V>>, order: seq<K>, m0: map<K, CacheObject<K, V>>, isExpired: CacheObject<K, V> -> bool)
    requires Sweeping(m, order, m0, {}, isExpired)
    ensures m == Kept(m0, isExpired)
    ensures forall i :: 0 <= i < |order| ==> order[i] in m0 && isExpired(m0[order[i]])
    ensures (set i | 0 <= i < |order| :: order[i]) == ExpiredKeys(m0, isExpired)
    ensures |order| == |m0| - |m| <= |m0|
    ensures forall k :: k in m ==> !isExpired(m[k])
    ensures forall k :: k in m0 && !isExpired(m0[k]) ==> k in m && m[k] == m0[k]
    ensures Distinct(order)
  {
    var seen := set i | 0 <= i < |order| :: order[i];
    forall x | x in ExpiredKeys(m0, isExpired) ensures x in seen {
      assert x in order;
    }
  }

  /** Removing a present key shrinks a map by one. */
  lemma Shrink<K, V>(m: map<K, V>, k: K)
    requires k in m
    ensures |m - {k}| == |m| - 1
  {
    assert (m - {k}).Keys == m.Keys - {k};
  }

  /** Notifications of a sequence extended by one key. */
  lemma NotificationsSnoc<K, V>(ks: seq<K>, k: K, m: map<K, CacheObject<K, V>>)
    requires forall i :: 0 <= i < |ks| ==> ks[i] in m
    requires k in m
    ensures Notifications(ks + [k], m) == Notifications(ks, m) + [(m[k].key, m[k].obj)]
  {
  }

  /** Two sweeps in a row: the second removes nothing and notifies nobody. */
  method PruneTwice<K(==), V>(c: TimedCache<K, V>, isExpired: CacheObject<K, V> -> bool) returns (first: int, second: int)
    modifies c
    ensures second == 0
    ensures c.cacheMap == Kept(old(c.cacheMap), isExpired)
    ensures |c.removed| == |old(c.removed)| + first
  {
    ghost var o1, o2;
    first, o1 := c.PruneCache(isExpired);
    SweepIdempotent(old(c.cacheMap), isExpired);
    second, o2 := c.PruneCache(isExpired);
    assert |o2| == 0;
  }
}
