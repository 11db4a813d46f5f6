/**
 `EmbeddingCache` of shared/embedding_cache.py: an OrderedDict with one lifetime for all
 entries, modelled as its entries and its key order.
 */
module EmbeddingCache {
  import opened Prelude
  import opened LossyTtlMap
  import MemoryCache

  datatype Slot<V> = Slot(embedding: V, timestamp: real)

  ghost function Writes<K, V>(cache: map<K, Slot<V>>, ttl: int): map<K, Write<V>> {
    map k | k in cache :: Write(cache[k].embedding, cache[k].timestamp, ttl)
  }

  // OrderedDict assignment: a new key goes last, a present one keeps its place.
  function Place<K(==)>(order: seq<K>, key: K): seq<K> {
    if key in order then order else order + [key]
  }

  ghost predicate Keeps<K(!new)>(order: seq<K>, keys: set<K>) {
    MemoryCache.Distinct(order) && forall k {:trigger k in order} :: k in order <==> k in keys
  }

  // Position in the history of the last hit of `key`, or of the last write that found it absent,
  // whichever is later; -1 when there is none.
  function LastPlaced<K(!new, ==), V>(ops: seq<Op<K, V>>, key: K): int {
    if ops == [] then -1
    else
      var before, op := ops[..|ops| - 1], ops[|ops| - 1];
      if op.key == key && (op.Hit? || (op.Set? && LastWrite(before, key).None?)) then |before|
      else LastPlaced(before, key)
  }

  ghost predicate InPlaceOrder<K(!new), V>(order: seq<K>, ops: seq<Op<K, V>>) {
    forall i, j :: 0 <= i < j < |order| ==> LastPlaced(ops, order[i]) < LastPlaced(ops, order[j])
  }

  // `order` lists the keys that hold a value once each, in the order of their placing.
  ghost predicate Lists<K(!new), V>(order: seq<K>, keys: set<K>, ops: seq<Op<K, V>>) {
    Keeps(order, keys) && InPlaceOrder(order, ops) && forall k :: k in keys <==> LastWrite(ops, k).Some?
  }

  // Every other key was placed after this one.
  ghost predicate IsFirstPlaced<K(!new), V>(keys: set<K>, ops: seq<Op<K, V>>, first: K) {
    first in keys && forall k :: k in keys && k != first ==> LastPlaced(ops, first) < LastPlaced(ops, k)
  }

  lemma PlacedOneMore<K(!new), V>(ops: seq<Op<K, V>>, op: Op<K, V>, key: K)
    ensures LastPlaced(ops + [op], key) ==
            if op.key == key && (op.Hit? || (op.Set? && LastWrite(ops, key).None?)) then |ops| else LastPlaced(ops, key)
  {
    assert (ops + [op])[..|ops|] == ops;
  }

  lemma {:induction false} PlacedByTouch<K(!new), V>(ops: seq<Op<K, V>>, key: K)
    ensures -1 <= LastPlaced(ops, key) <= LastTouch(ops, key) < |ops|
  {
    LastTouchBelow(ops, key);
    if ops != [] {
      PlacedByTouch(ops[..|ops| - 1], key);
    }
  }

  lemma HitLists<K(!new), V>(order: seq<K>, keys: set<K>, ops: seq<Op<K, V>>, k: K)
    requires Lists(order, keys, ops) && k in keys
    ensures Lists(MemoryCache.Without(order, k) + [k], keys, ops + [Hit(k)])
  {
    WithoutKeeps(order, keys, k);
    var rest, op := MemoryCache.Without(order, k), Op<K, V>.Hit(k);
    GoesLast(rest, ops, op);
    forall x ensures LastWrite(ops + [op], x) == LastWrite(ops, x) {
      OneMore(ops, op, x);
    }
    LastKeeps(rest, keys - {k}, k);
    assert keys - {k} + {k} == keys;
  }

  lemma DropLists<K(!new), V>(order: seq<K>, keys: set<K>, ops: seq<Op<K, V>>, k: K)
    requires Lists(order, keys, ops) && k in keys
    ensures Lists(MemoryCache.Without(order, k), keys - {k}, ops + [Drop(k)])
  {
    WithoutKeeps(order, keys, k);
    var op := Op<K, V>.Drop(k);
    forall x
      ensures LastPlaced(ops + [op], x) == LastPlaced(ops, x)
      ensures LastWrite(ops + [op], x) == if x == k then None else LastWrite(ops, x)
    {
      PlacedOneMore(ops, op, x);
      OneMore(ops, op, x);
    }
  }

  // A write of a present key moves nothing; a new key is the last one placed.
  lemma SetLists<K(!new), V>(order: seq<K>, keys: set<K>, ops: seq<Op<K, V>>, key: K, w: Write<V>)
    requires Lists(order, keys, ops)
    ensures Lists(Place(order, key), keys + {key}, ops + [LossyTtlMap.Set(key, w)])
  {
    var op := LossyTtlMap.Set(key, w);
    forall x
      ensures LastWrite(ops + [op], x) == if x == key then Some(w) else LastWrite(ops, x)
      ensures key in order ==> LastPlaced(ops + [op], x) == LastPlaced(ops, x)
    {
      PlacedOneMore(ops, op, x);
      OneMore(ops, op, x);
    }
    if key !in order {
      GoesLast(order, ops, op);
      LastKeeps(order, keys, key);
    } else {
      assert keys + {key} == keys;
    }
  }

  lemma GoesLast<K(!new), V>(rest: seq<K>, ops: seq<Op<K, V>>, op: Op<K, V>)
    requires InPlaceOrder(rest, ops) && op.key !in rest
    requires op.Hit? || (op.Set? && LastWrite(ops, op.key).None?)
    ensures InPlaceOrder(rest + [op.key], ops + [op])
  {
    var order, ops' := rest + [op.key], ops + [op];
    forall i, j | 0 <= i < j < |order| ensures LastPlaced(ops', order[i]) < LastPlaced(ops', order[j]) {
      PlacedOneMore(ops, op, order[i]);
      PlacedOneMore(ops, op, order[j]);
      PlacedByTouch(ops, order[i]);
    }
  }

  lemma LastKeeps<K(!new)>(order: seq<K>, keys: set<K>, key: K)
    requires Keeps(order, keys) && key !in keys
    ensures Keeps(order + [key], keys + {key})
  {
    assert key !in order;
  }

  // The first key of the order is the first placed, and also the least recently touched one unless it
  // was overwritten since.
  lemma FirstIsFirstPlaced<K(!new), V>(order: seq<K>, keys: set<K>, ops: seq<Op<K, V>>)
    requires order != [] && Lists(order, keys, ops)
    ensures IsFirstPlaced(keys, ops, order[0])
    ensures LastTouch(ops, order[0]) == LastPlaced(ops, order[0]) ==> MemoryCache.IsLeastRecent(keys, ops, order[0])
    ensures MemoryCache.Without(order, order[0]) == order[1..]
  {
    assert order[0] in order;
    forall k | k in keys && k != order[0]
      ensures LastPlaced(ops, order[0]) < LastPlaced(ops, k) <= LastTouch(ops, k)
    {
      assert k in order;
      PlacedByTouch(ops, k);
    }
  }

  lemma WithoutKeeps<K(!new)>(order: seq<K>, keys: set<K>, k: K)
    requires Keeps(order, keys) && k in keys
    ensures Keeps(MemoryCache.Without(order, k), keys - {k})
  {
    var i := MemoryCache.IndexOf(order, k);
    forall x ensures x in MemoryCache.Cut(order, i) <==> x in keys - {k} {
      MemoryCache.CutMembers(order, i, x);
    }
  }

  lemma WriteRemembers<K(!new), V>(cache: map<K, Slot<V>>, ttl: int, ops: seq<Op<K, V>>, key: K, s: Slot<V>)
    requires Remembers(Writes(cache, ttl), ops)
    ensures Remembers(Writes(cache[key := s], ttl), ops + [LossyTtlMap.Set(key, Write(s.embedding, s.timestamp, ttl))])
  {
    var w := Write(s.embedding, s.timestamp, ttl);
    RemembersOneMore(Writes(cache, ttl), ops, LossyTtlMap.Set(key, w));
    assert Writes(cache[key := s], ttl) == (Writes(cache, ttl) - {key})[key := w];
  }

  lemma DropRemembers<K(!new), V>(cache: map<K, Slot<V>>, ttl: int, ops: seq<Op<K, V>>, key: K)
    requires Remembers(Writes(cache, ttl), ops)
    ensures Remembers(Writes(cache - {key}, ttl), ops + [Drop(key)])
  {
    RemembersOneMore(Writes(cache, ttl), ops, Drop(key));
    assert Writes(cache - {key}, ttl) == Writes(cache, ttl) - {key};
  }

  // Overwriting does not count as a touch: a write keeps the order least-recently-touched
  // first exactly when the key is new or already last.
  lemma WriteKeepsTouchOrderIff<K(!new), V>(order: seq<K>, ops: seq<Op<K, V>>, key: K, w: Write<V>)
    requires MemoryCache.Distinct(order) && InTouchOrder(order, ops)
    ensures InTouchOrder(Place(order, key), ops + [LossyTtlMap.Set(key, w)]) <==>
            key !in order || order[|order| - 1] == key
  {
    var op := LossyTtlMap.Set(key, w);
    if key !in order {
      TouchedGoesLast(order, ops, op);
    } else {
      forall k ensures LastTouch(ops + [op], k) == (if k == key then |ops| else LastTouch(ops, k)) < |ops| + 1 {
        OneMore(ops, op, k);
        LastTouchBelow(ops, k);
      }
      if order[|order| - 1] != key {
        var i :| 0 <= i < |order| && order[i] == key;
        assert LastTouch(ops + [op], order[i]) >= LastTouch(ops + [op], order[|order| - 1]);
      } else {
        forall i, j | 0 <= i < j < |order|
          ensures LastTouch(ops + [op], order[i]) < LastTouch(ops + [op], order[j])
        {
          LastTouchBelow(ops, order[i]);
        }
      }
    }
  }

  class EmbeddingCache<K(!new, ==), V> {
    const maxSize: int
    const ttlSeconds: int
    var cache: map<K, Slot<V>>
    var order: seq<K>
    ghost var ops: seq<Op<K, V>>

    ghost predicate Valid()
      reads this
    {
      Lists(order, cache.Keys, ops) && Remembers(Writes(cache, ttlSeconds), ops) && |cache| <= Max(0, maxSize)
    }

    constructor (maxSize: int := 1000, ttlSeconds: int := 86400)
      ensures Valid() && ops == [] && this.maxSize == maxSize && this.ttlSeconds == ttlSeconds
    {
      this.maxSize, this.ttlSeconds := maxSize, ttlSeconds;
      cache, order, ops := map[], [], [];
    }

    method Get(key: K, now: real) returns (embedding: Option<V>)
      requires Valid()
      modifies this
      ensures Valid()
      ensures embedding == AnswerOf(old(ops), key, now)
      ensures embedding == if key in old(cache) && now - old(cache[key]).timestamp <= ttlSeconds as real
                           then Some(old(cache[key]).embedding) else None
      ensures embedding.Some? ==>
                cache == old(cache) && order == MemoryCache.Without(old(order), key) + [key]
                    && ops == old(ops) + [Hit(key)]
      ensures embedding.None? ==>
                && cache == old(cache) - {key}
                && order == (if key in old(cache) then MemoryCache.Without(old(order), key) else old(order))
                && ops == (if key in old(cache) then old(ops) + [Drop(key)] else old(ops))
    {
      assert LastWrite(ops, key) ==
             if key in Writes(cache, ttlSeconds) then Some(Writes(cache, ttlSeconds)[key]) else None;
      if key !in cache {
        return None;
      }
      if now - cache[key].timestamp > ttlSeconds as real {
        DropLists(order, cache.Keys, ops, key);
        DropRemembers(cache, ttlSeconds, ops, key);
        assert (cache - {key}).Keys == cache.Keys - {key};
        cache := cache - {key};
        order := MemoryCache.Without(order, key);
        ops := ops + [Drop(key)];
        return None;
      }
      HitLists(order, cache.Keys, ops, key);
      RemembersOneMore(Writes(cache, ttlSeconds), ops, Hit(key));
      order := MemoryCache.Without(order, key) + [key];  // move_to_end
      ops := ops + [Hit(key)];
      embedding := Some(cache[key].embedding);
    }

    // Drops the first key of the order, which is the one whose last hit, or last write that found it
    // absent, is the oldest.
    method PopOldest()
      requires Valid() && order != []
      modifies this
      ensures Valid()
      ensures var oldest := old(order)[0];
              && order == old(order)[1..] && cache == old(cache) - {oldest} && |cache| == |old(cache)| - 1
              && ops == old(ops) + [Drop(oldest)] && IsFirstPlaced(old(cache).Keys, old(ops), oldest)
    {
      var oldest := order[0];
      FirstIsFirstPlaced(order, cache.Keys, ops);
      DropLists(order, cache.Keys, ops, oldest);
      DropRemembers(cache, ttlSeconds, ops, oldest);
      assert (cache - {oldest}).Keys == cache.Keys - {oldest};
      order := order[1..];
      cache := cache - {oldest};
      ops := ops + [Drop(oldest)];
    }

    // `true` is Python's KeyError, from popping an empty dictionary.  At capacity a write
    // evicts the first key even when it overwrites a present one.
    method Set(key: K, embedding: V, now: real) returns (raised: bool)
      requires Valid()
      modifies this
      ensures Valid() && raised == (maxSize < 1)
      ensures raised ==> cache == old(cache) && order == old(order) && ops == old(ops)
      ensures !raised && |old(cache)| < maxSize ==>
                && cache == old(cache)[key := Slot(embedding, now)] && order == Place(old(order), key)
                && ops == old(ops) + [LossyTtlMap.Set(key, Write(embedding, now, ttlSeconds))]
      ensures !raised && |old(cache)| >= maxSize ==>
                && old(order) != [] && IsFirstPlaced(old(cache).Keys, old(ops), old(order)[0])
                && cache == (old(cache) - {old(order)[0]})[key := Slot(embedding, now)]
                && order == Place(old(order)[1..], key)
                && ops == old(ops) + [Drop(old(order)[0])] + [LossyTtlMap.Set(key, Write(embedding, now, ttlSeconds))]
    {
      MemoryCache.AsManyAsKeys(order, cache.Keys);
      if order != [] {
        FirstIsFirstPlaced(order, cache.Keys, ops);
      }
      while |cache| >= maxSize
        invariant Valid() && |order| == |cache|
        invariant order == old(order) ==> cache == old(cache) && ops == old(ops)
        invariant order != old(order) ==>
                    && old(order) != [] && order == old(order)[1..] && cache == old(cache) - {old(order)[0]}
                    && ops == old(ops) + [Drop(old(order)[0])] && |old(cache)| >= maxSize > |cache|
        decreases |cache|
      {
        if order == [] {
          return true;
        }
        PopOldest();
      }
      Store(key, embedding, now);
      return false;
    }

    method Store(key: K, embedding: V, now: real)
      requires Valid() && |cache| < maxSize
      modifies this
      ensures Valid() && cache == old(cache)[key := Slot(embedding, now)] && order == Place(old(order), key)
      ensures ops == old(ops) + [LossyTtlMap.Set(key, Write(embedding, now, ttlSeconds))]
    {
      SetLists(order, cache.Keys, ops, key, Write(embedding, now, ttlSeconds));
      WriteRemembers(cache, ttlSeconds, ops, key, Slot(embedding, now));
      assert cache[key := Slot(embedding, now)].Keys == cache.Keys + {key};
      assert |cache.Keys + {key}| <= |cache.Keys| + 1;
      order := Place(order, key);
      cache := cache[key := Slot(embedding, now)];
      ops := ops + [LossyTtlMap.Set(key, Write(embedding, now, ttlSeconds))];
    }

    method Invalidate(key: K)
      requires Valid()
      modifies this
      ensures Valid() && cache == old(cache) - {key}
      ensures order == if key in old(cache) then MemoryCache.Without(old(order), key) else old(order)
      ensures ops == if key in old(cache) then old(ops) + [Drop(key)] else old(ops)
    {
      if key in cache {
        DropLists(order, cache.Keys, ops, key);
        DropRemembers(cache, ttlSeconds, ops, key);
        assert (cache - {key}).Keys == cache.Keys - {key};
        cache := cache - {key};
        order := MemoryCache.Without(order, key);
        ops := ops + [Drop(key)];
      }
    }
  }
}
