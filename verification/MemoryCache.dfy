/**
 `MemoryCache` of shared/cache_manager.py: a dictionary of entries beside a list of keys in
 order of access.
 */
module MemoryCache {
  import opened Prelude
  import opened LossyTtlMap

  datatype CacheEntry<V> = CacheEntry(value: V, ttlSeconds: int, createdAt: real, accessCount: nat, lastAccessed: real)
  {
    predicate IsExpired(now: real) { now - createdAt > ttlSeconds as real }
    function Touched(now: real): CacheEntry<V> { this.(accessCount := accessCount + 1, lastAccessed := now) }
    function AsWrite(): Write<V> { Write(value, createdAt, ttlSeconds) }
  }

  function IndexOf<K(==)>(s: seq<K>, k: K): (i: nat)
    requires k in s
    ensures i < |s| && s[i] == k && k !in s[..i]
  {
    if s[0] == k then 0 else IndexOf(s[1..], k) + 1
  }

  function Cut<K>(s: seq<K>, i: nat): (r: seq<K>)
    requires i < |s|
    ensures |r| == |s| - 1 && forall j :: 0 <= j < |r| ==> r[j] == s[if j < i then j else j + 1]
  {
    s[..i] + s[i + 1..]
  }

  // list.remove: the first occurrence goes.
  function Without<K(==)>(s: seq<K>, k: K): seq<K>
    requires k in s
  {
    Cut(s, IndexOf(s, k))
  }

  ghost predicate Distinct<K>(s: seq<K>) {
    forall i, j :: 0 <= i < j < |s| ==> s[i] != s[j]
  }

  // `order` lists `keys` once each, least recently touched first.
  ghost predicate Lists<K(!new), V>(order: seq<K>, keys: set<K>, ops: seq<Op<K, V>>) {
    Distinct(order) && InTouchOrder(order, ops) && forall k {:trigger k in order} :: k in order <==> k in keys
  }

  lemma CutMembers<K>(s: seq<K>, i: nat, x: K)
    requires i < |s| && Distinct(s)
    ensures x in Cut(s, i) <==> x in s && x != s[i]
  {
    if x in s && x != s[i] {
      var j :| 0 <= j < |s| && s[j] == x;
      assert Cut(s, i)[if j < i then j else j - 1] == x;
    }
  }

  lemma WithoutLists<K(!new), V>(order: seq<K>, keys: set<K>, ops: seq<Op<K, V>>, k: K)
    requires Lists(order, keys, ops) && k in keys
    ensures Lists(Without(order, k), keys - {k}, ops)
  {
    var i := IndexOf(order, k);
    forall x ensures x in Cut(order, i) <==> x in keys - {k} {
      CutMembers(order, i, x);
    }
  }

  lemma TouchLists<K(!new), V>(order: seq<K>, keys: set<K>, ops: seq<Op<K, V>>, op: Op<K, V>)
    requires Lists(order, keys, ops) && op.key !in keys && !op.Drop?
    ensures Lists(order + [op.key], keys + {op.key}, ops + [op])
  {
    TouchedGoesLast(order, ops, op);
  }

  lemma DropLists<K(!new), V>(order: seq<K>, keys: set<K>, ops: seq<Op<K, V>>, k: K)
    requires Lists(order, keys, ops)
    ensures Lists(order, keys, ops + [Drop(k)])
  {
    DropKeepsOrder(order, ops, k);
  }

  lemma {:induction false} AsManyAsKeys<K(!new)>(s: seq<K>, keys: set<K>)
    requires Distinct(s) && forall x :: x in s <==> x in keys
    ensures |s| == |keys|
  {
    if s == [] {
      assert keys == {};
    } else {
      var last := s[|s| - 1];
      assert s == s[..|s| - 1] + [last];
      AsManyAsKeys(s[..|s| - 1], keys - {last});
    }
  }

  ghost function Writes<K, V>(cache: map<K, CacheEntry<V>>): map<K, Write<V>> {
    map k | k in cache :: cache[k].AsWrite()
  }

  // Every other key was touched after the victim.
  ghost predicate IsLeastRecent<K(!new), V>(keys: set<K>, ops: seq<Op<K, V>>, victim: K) {
    victim in keys && forall k :: k in keys && k != victim ==> LastTouch(ops, victim) < LastTouch(ops, k)
  }

  lemma EvictFirst<K(!new), V>(order: seq<K>, keys: set<K>, ops: seq<Op<K, V>>)
    requires order != [] && Lists(order, keys, ops)
    ensures IsLeastRecent(keys, ops, order[0])
    ensures Lists(order[1..], keys - {order[0]}, ops + [Drop(order[0])])
  {
    var rest := order[1..];
    assert order[0] in order;
    assert forall k :: k in order <==> k == order[0] || k in rest;
    forall k | k in keys && k != order[0] ensures LastTouch(ops, order[0]) < LastTouch(ops, k) {
      assert k in order;
    }
    DropLists(rest, keys - {order[0]}, ops, order[0]);
  }

  // The stored entries under their last writes, with `key` written anew.
  lemma StoreRemembers<K(!new), V>(cache: map<K, CacheEntry<V>>, ops: seq<Op<K, V>>, key: K, e: CacheEntry<V>)
    requires Remembers(Writes(cache), ops)
    ensures Remembers(Writes(cache[key := e]), ops + [LossyTtlMap.Set(key, e.AsWrite())])
  {
    RemembersOneMore(Writes(cache), ops, LossyTtlMap.Set(key, e.AsWrite()));
    assert Writes(cache[key := e]) == (Writes(cache) - {key})[key := e.AsWrite()];
  }

  lemma StoreLast<K(!new), V>(cache: map<K, CacheEntry<V>>, order: seq<K>, ops: seq<Op<K, V>>, key: K, e: CacheEntry<V>)
    requires Lists(order, cache.Keys - {key}, ops) && Remembers(Writes(cache), ops)
    ensures var ops' := ops + [LossyTtlMap.Set(key, e.AsWrite())];
            Lists(order + [key], cache[key := e].Keys, ops') && Remembers(Writes(cache[key := e]), ops')
    ensures |cache[key := e]| <= |cache| + 1
  {
    TouchLists(order, cache.Keys - {key}, ops, LossyTtlMap.Set(key, e.AsWrite()));
    StoreRemembers(cache, ops, key, e);
    assert cache[key := e].Keys == (cache.Keys - {key}) + {key};
    assert |cache[key := e].Keys| <= |cache.Keys| + 1;
  }

  lemma DropRemembers<K(!new), V>(cache: map<K, CacheEntry<V>>, ops: seq<Op<K, V>>, key: K)
    requires Remembers(Writes(cache), ops)
    ensures Remembers(Writes(cache - {key}), ops + [Drop(key)])
  {
    RemembersOneMore(Writes(cache), ops, Drop(key));
    assert Writes(cache - {key}) == Writes(cache) - {key};
  }

  lemma TouchRemembers<K(!new), V>(cache: map<K, CacheEntry<V>>, ops: seq<Op<K, V>>, key: K, e: CacheEntry<V>)
    requires Remembers(Writes(cache), ops) && key in cache && e.AsWrite() == cache[key].AsWrite()
    ensures Writes(cache[key := e]) == Writes(cache) && Remembers(Writes(cache), ops + [Hit(key)])
  {
    RemembersOneMore(Writes(cache), ops, Hit(key));
  }

  lemma MinusOneMore<K, E>(m: map<K, E>, gone: set<K>, k: K)
    ensures m - gone - {k} == m - (gone + {k})
  {
  }

  lemma HitIsAnswer<K(!new), V>(cache: map<K, CacheEntry<V>>, ops: seq<Op<K, V>>, key: K, now: real)
    requires Remembers(Writes(cache), ops) && key in cache && !cache[key].IsExpired(now)
    ensures AnswerOf(ops, key, now) == Some(cache[key].value)
  {
    assert key in Writes(cache);
  }

  lemma MissIsAnswer<K(!new), V>(cache: map<K, CacheEntry<V>>, ops: seq<Op<K, V>>, key: K, now: real)
    requires Remembers(Writes(cache), ops) && (key in cache ==> cache[key].IsExpired(now))
    ensures AnswerOf(ops, key, now) == None
  {
    assert key in Writes(cache) <==> key in cache;
  }

  function ExpiredKeys<K(==), V>(cache: map<K, CacheEntry<V>>, now: real): set<K> {
    set k | k in cache && cache[k].IsExpired(now)
  }

  // Nothing was done since `before` but dropping some of the keys.
  ghost predicate OnlyDrops<K(!new), V>(ops: seq<Op<K, V>>, before: seq<Op<K, V>>, keys: set<K>) {
    before <= ops && forall i :: |before| <= i < |ops| ==> ops[i].Drop? && ops[i].key in keys
  }

  // The keys in `gone` are, and nothing else happened.
  ghost predicate CleanedOf<K(!new), V>(gone: set<K>, cache: map<K, CacheEntry<V>>, first: map<K, CacheEntry<V>>,
                                        ops: seq<Op<K, V>>, before: seq<Op<K, V>>)
  {
    cache == first - gone && OnlyDrops(ops, before, gone)
  }

  lemma CleanedOneMore<K(!new), V>(gone: set<K>, cache: map<K, CacheEntry<V>>, first: map<K, CacheEntry<V>>,
                                   ops: seq<Op<K, V>>, before: seq<Op<K, V>>, key: K)
    requires CleanedOf(gone, cache, first, ops, before)
    ensures CleanedOf(gone + {key}, cache - {key}, first, if key in cache then ops + [Drop(key)] else ops, before)
  {
    MinusOneMore(first, gone, key);
  }

  ghost predicate Consistent<K(!new), V>(cache: map<K, CacheEntry<V>>, order: seq<K>, ops: seq<Op<K, V>>,
                               maxSize: int)
  {
    && Lists(order, cache.Keys, ops)
    && Remembers(Writes(cache), ops)
    && |cache| <= Max(0, maxSize)
  }

  class MemoryCache<K(!new, ==), V> {
    const maxSize: int
    var cache: map<K, CacheEntry<V>>
    var accessOrder: seq<K>
    var hits: nat
    var misses: nat
    var evictions: nat
    ghost var ops: seq<Op<K, V>>

    ghost predicate Valid()
      reads this`cache, this`accessOrder, this`ops
    {
      Consistent(cache, accessOrder, ops, maxSize)
    }

    constructor (maxSize: int := 1000)
      ensures Valid() && cache == map[] && ops == [] && this.maxSize == maxSize && hits == misses == evictions == 0
    {
      this.maxSize := maxSize;
      cache, accessOrder, hits, misses, evictions, ops := map[], [], 0, 0, 0, [];
    }

    // A hit: the key moves to the end of the access order.
    method Touch(key: K, now: real)
      requires Valid() && key in cache
      modifies this`cache, this`accessOrder, this`ops
      ensures Valid() && ops == old(ops) + [Hit(key)]
      ensures key in cache && cache == old(cache)[key := cache[key]]
      ensures cache[key].AsWrite() == old(cache[key]).AsWrite()
      ensures cache[key].accessCount == old(cache[key]).accessCount + 1 && cache[key].lastAccessed == now
      ensures accessOrder == Without(old(accessOrder), key) + [key]
    {
      WithoutLists(accessOrder, cache.Keys, ops, key);
      TouchLists(Without(accessOrder, key), cache.Keys - {key}, ops, Hit(key));
      TouchRemembers(cache, ops, key, cache[key].Touched(now));
      assert cache[key := cache[key].Touched(now)].Keys == (cache.Keys - {key}) + {key};
      accessOrder := Without(accessOrder, key);
      accessOrder := accessOrder + [key];
      cache := cache[key := cache[key].Touched(now)];
      ops := ops + [Hit(key)];
    }

    method Get(key: K, now: real) returns (value: Option<V>)
      requires Valid()
      modifies this
      ensures Valid() && evictions == old(evictions)
      ensures value == if key in old(cache) && !old(cache[key]).IsExpired(now)
                       then Some(old(cache[key]).value) else None
      ensures value == AnswerOf(old(ops), key, now)
      ensures value.Some? ==>
                && ops == old(ops) + [Hit(key)] && hits == old(hits) + 1 && misses == old(misses)
                && key in cache && cache == old(cache)[key := cache[key]]
                && cache[key].AsWrite() == old(cache[key]).AsWrite()
                && cache[key].accessCount == old(cache[key]).accessCount + 1 && cache[key].lastAccessed == now
      ensures value.None? ==>
                && ops == (if key in old(cache) then old(ops) + [Drop(key)] else old(ops))
                && hits == old(hits) && misses == old(misses) + 1 && cache == old(cache) - {key}
    {
      if key !in cache || cache[key].IsExpired(now) {
        MissIsAnswer(cache, ops, key, now);
      }
      if key !in cache {
        misses := misses + 1;
        return None;
      }
      if cache[key].IsExpired(now) {
        Remove(key);
        misses := misses + 1;
        return None;
      }
      value := Some(cache[key].value);
      HitIsAnswer(cache, ops, key, now);
      Touch(key, now);
      hits := hits + 1;
    }

    // What the access order lists while `key` is being set.
    function Others(key: K): seq<K>
      requires Valid()
      reads this`cache, this`accessOrder, this`ops
    {
      assert key in cache ==> key in accessOrder;
      if key in cache then Without(accessOrder, key) else accessOrder
    }

    // One turn of the eviction loop, with `key` already taken off the access order.
    method EvictOldest(key: K)
      requires Lists(accessOrder, cache.Keys - {key}, ops) && Remembers(Writes(cache), ops) && accessOrder != []
      modifies this`cache, this`accessOrder, this`evictions, this`ops
      ensures Lists(accessOrder, cache.Keys - {key}, ops) && Remembers(Writes(cache), ops)
      ensures var victim := old(accessOrder)[0];
              && IsLeastRecent(old(cache).Keys - {key}, old(ops), victim)
              && accessOrder == old(accessOrder)[1..] && cache == old(cache) - {victim} && |cache| == |old(cache)| - 1
              && evictions == old(evictions) + 1 && ops == old(ops) + [Drop(victim)]
    {
      var oldest := accessOrder[0];
      EvictFirst(accessOrder, cache.Keys - {key}, ops);
      DropRemembers(cache, ops, oldest);
      assert oldest in accessOrder;
      assert (cache - {oldest}).Keys == cache.Keys - {oldest};
      assert cache.Keys - {oldest} - {key} == cache.Keys - {key} - {oldest};
      accessOrder := accessOrder[1..];
      cache := cache - {oldest};
      evictions := evictions + 1;
      ops := ops + [Drop(oldest)];
    }

    method Store(key: K, entry: CacheEntry<V>)
      requires Lists(accessOrder, cache.Keys - {key}, ops) && Remembers(Writes(cache), ops) && |cache| < maxSize
      modifies this`cache, this`accessOrder, this`ops
      ensures Valid() && cache == old(cache)[key := entry] && accessOrder == old(accessOrder) + [key]
      ensures ops == old(ops) + [LossyTtlMap.Set(key, entry.AsWrite())]
    {
      StoreLast(cache, accessOrder, ops, key, entry);
      cache := cache[key := entry];
      accessOrder := accessOrder + [key];
      ops := ops + [LossyTtlMap.Set(key, entry.AsWrite())];
    }

    // `true` is Python's IndexError, from popping an empty access order.
    method Set(key: K, value: V, ttlSeconds: int := 300, now: real) returns (raised: bool)
      requires Valid()
      modifies this`cache, this`accessOrder, this`evictions, this`ops
      ensures raised <==> maxSize < 1 || (maxSize == 1 && key in old(cache))
      ensures raised ==> cache == old(cache) && accessOrder == [] && evictions == old(evictions) && ops == old(ops)
      ensures !raised ==> Valid()
      ensures !raised && |old(cache)| < maxSize ==>
                var entry := CacheEntry(value, ttlSeconds, now, 0, now);
                && cache == old(cache)[key := entry] && evictions == old(evictions)
                && ops == old(ops) + [LossyTtlMap.Set(key, entry.AsWrite())]
      ensures !raised && |old(cache)| >= maxSize ==>
                var entry, others := CacheEntry(value, ttlSeconds, now, 0, now), old(Others(key));
                && others != [] && IsLeastRecent(old(cache).Keys - {key}, old(ops), others[0])
                && cache == (old(cache) - {others[0]})[key := entry] && evictions == old(evictions) + 1
                && ops == old(ops) + [Drop(others[0])] + [LossyTtlMap.Set(key, entry.AsWrite())]
    {
      AsManyAsKeys(accessOrder, cache.Keys);
      ghost var others := Others(key);
      if key in cache {
        WithoutLists(accessOrder, cache.Keys, ops, key);
        accessOrder := Without(accessOrder, key);
      }
      while |cache| >= maxSize
        invariant Lists(accessOrder, cache.Keys - {key}, ops) && Remembers(Writes(cache), ops)
        invariant accessOrder == others ==> cache == old(cache) && ops == old(ops) && evictions == old(evictions)
        invariant accessOrder != others ==>
                    && others != [] && IsLeastRecent(old(cache).Keys - {key}, old(ops), others[0])
                    && cache == old(cache) - {others[0]} && ops == old(ops) + [Drop(others[0])]
                    && evictions == old(evictions) + 1 && |old(cache)| >= maxSize > |cache|
        decreases |cache|
      {
        if accessOrder == [] {
          return true;
        }
        EvictOldest(key);
      }
      Store(key, CacheEntry(value, ttlSeconds, now, 0, now));
      return false;
    }

    // _remove
    method Remove(key: K)
      requires Valid()
      modifies this`cache, this`accessOrder, this`ops
      ensures Valid() && cache == old(cache) - {key}
      ensures ops == if key in old(cache) then old(ops) + [Drop(key)] else old(ops)
    {
      if key in cache {
        WithoutLists(accessOrder, cache.Keys, ops, key);
        DropLists(Without(accessOrder, key), cache.Keys - {key}, ops, key);
        DropRemembers(cache, ops, key);
        assert (cache - {key}).Keys == cache.Keys - {key};
        cache := cache - {key};
        accessOrder := Without(accessOrder, key);
        ops := ops + [Drop(key)];
      }
    }

    method Delete(key: K) returns (deleted: bool)
      requires Valid()
      modifies this`cache, this`accessOrder, this`ops
      ensures Valid() && deleted == (key in old(cache)) && cache == old(cache) - {key}
      ensures ops == if key in old(cache) then old(ops) + [Drop(key)] else old(ops)
    {
      deleted := key in cache;
      Remove(key);
    }

    method CleanupExpired(now: real) returns (removed: nat)
      requires Valid()
      modifies this`cache, this`accessOrder, this`ops
      ensures Valid()
      ensures cache == old(cache) - ExpiredKeys(old(cache), now)
      ensures removed == |ExpiredKeys(old(cache), now)|
      ensures OnlyDrops(ops, old(ops), ExpiredKeys(old(cache), now))
    {
      var expired := ExpiredKeys(cache, now);
      ghost var gone: set<K> := {};
      var todo := expired;
      while todo != {}
        invariant Valid() && gone + todo == expired
        invariant CleanedOf(gone, cache, old(cache), ops, old(ops))
      {
        var key :| key in todo;
        CleanedOneMore(gone, cache, old(cache), ops, old(ops), key);
        Remove(key);
        todo, gone := todo - {key}, gone + {key};
      }
      assert gone == expired;
      return |expired|;
    }

    method Clear()
      requires Valid()
      modifies this
      ensures Valid() && cache == map[] && accessOrder == [] && hits == misses == evictions == 0
      ensures ops == []
    {
      cache, accessOrder, hits, misses, evictions := map[], [], 0, 0, 0;
      ops := [];
    }
  }
}
