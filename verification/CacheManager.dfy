/**
 `CacheManager` of shared/cache_manager.py: a MemoryCache over Redis.

 Other processes write to the same Redis (`OthersWrite`).  Each method that names one moment
 is one uninterrupted step; `Get`, `Set` and `Delete` are the coroutines made of them, and
 since every step keeps `Valid`, so does any interleaving of them.

 The question is how stale a served value can be.  A promoted value gets 60 fresh seconds in
 memory, counted from the promotion and not from the Redis read that it follows.  If the
 answer arrives before the Redis entry is gone, the value is never served 60 seconds or more
 past its lifetime; if it arrives later, it can be, by exactly that delay (`Overrun`).
 */
module CacheManager {
  import opened Prelude
  import MemoryCache

  // `Null` is Python's None, which the code cannot tell from a miss.
  datatype Json<V> = Null | Data(payload: V)

  datatype RedisEntry<V> = RedisEntry(value: Json<V>, goneAt: real)

  // One `set`: the moment it reached a tier, and its lifetime.
  datatype SetEvent<V> = SetEvent(key: string, value: Json<V>, at: real, ttl: int)
  {
    function Until(): real { at + ttl as real }
  }

  const DEFAULT_TTL: int := 300
  const PROMOTED_TTL: int := 60

  // Whether any promoted answer arrived only when its Redis entry was gone, and by how much at most.
  datatype Overrun = OnTime | Late(delay: real)
  {
    predicate Ok() { Late? ==> delay >= 0.0 }

    predicate Allows(until: real, now: real) {
      if OnTime? then now < until else now <= until + delay
    }

    predicate NoWorseThan(other: Overrun) {
      OnTime? || (other.Late? && delay <= other.delay)
    }
  }

  function AfterAnswer(late: Overrun, goneAt: real, now: real): Overrun {
    if now < goneAt then late
    else if late.Late? && late.delay > now - goneAt then late
    else Late(now - goneAt)
  }

  // Some `set` of this value for this key, at most `slack` seconds past its lifetime.
  ghost predicate SetWithin<V>(writes: seq<SetEvent<V>>, key: string, value: Json<V>, now: real, slack: real,
                               late: Overrun)
  {
    exists i :: 0 <= i < |writes| && writes[i].key == key && writes[i].value == value
                && late.Allows(writes[i].Until() + slack, now)
  }

  // Some `set` of this value for this key, with a lifetime that ends just then.
  ghost predicate SetUntil<V>(writes: seq<SetEvent<V>>, key: string, value: Json<V>, until: real) {
    exists i :: 0 <= i < |writes| && writes[i].key == key && writes[i].value == value && writes[i].Until() == until
  }

  lemma SetWithinLonger<V>(writes: seq<SetEvent<V>>, e: SetEvent<V>, key: string, value: Json<V>, now: real,
                           slack: real, late: Overrun, late': Overrun)
    requires SetWithin(writes, key, value, now, slack, late) && late.NoWorseThan(late') && late'.Ok()
    ensures SetWithin(writes + [e], key, value, now, slack, late') && SetWithin(writes, key, value, now, slack, late')
  {
    var i :| 0 <= i < |writes| && writes[i].key == key && writes[i].value == value
             && late.Allows(writes[i].Until() + slack, now);
    assert (writes + [e])[i] == writes[i];
  }

  lemma SetUntilLonger<V>(writes: seq<SetEvent<V>>, e: SetEvent<V>, key: string, value: Json<V>, until: real)
    requires SetUntil(writes, key, value, until)
    ensures SetUntil(writes + [e], key, value, until)
  {
    var i :| 0 <= i < |writes| && writes[i].key == key && writes[i].value == value && writes[i].Until() == until;
    assert (writes + [e])[i] == writes[i];
  }

  // Every memory entry dies within 60 seconds, and what answers overran, of the lifetime of a set
  // that wrote it.
  ghost predicate MemoryBacked<V>(cache: map<string, MemoryCache.CacheEntry<Json<V>>>, writes: seq<SetEvent<V>>,
                                  late: Overrun)
  {
    forall k :: k in cache ==>
      SetWithin(writes, k, cache[k].value, cache[k].createdAt + cache[k].ttlSeconds as real, PROMOTED_TTL as real, late)
  }

  ghost predicate RedisBacked<V>(redis: map<string, RedisEntry<V>>, writes: seq<SetEvent<V>>) {
    forall k :: k in redis ==> SetUntil(writes, k, redis[k].value, redis[k].goneAt)
  }

  lemma BackedByMore<V>(cache: map<string, MemoryCache.CacheEntry<Json<V>>>, redis: map<string, RedisEntry<V>>,
                        writes: seq<SetEvent<V>>, late: Overrun, e: SetEvent<V>)
    requires MemoryBacked(cache, writes, late) && RedisBacked(redis, writes) && late.Ok()
    ensures MemoryBacked(cache, writes + [e], late) && RedisBacked(redis, writes + [e])
  {
    forall k | k in cache
      ensures SetWithin(writes + [e], k, cache[k].value, cache[k].createdAt + cache[k].ttlSeconds as real,
                        PROMOTED_TTL as real, late)
    {
      SetWithinLonger(writes, e, k, cache[k].value, cache[k].createdAt + cache[k].ttlSeconds as real,
                      PROMOTED_TTL as real, late, late);
    }
    forall k | k in redis ensures SetUntil(writes + [e], k, redis[k].value, redis[k].goneAt) {
      SetUntilLonger(writes, e, k, redis[k].value, redis[k].goneAt);
    }
  }

  lemma NewEventBacks<V>(writes: seq<SetEvent<V>>, e: SetEvent<V>, slack: real, late: Overrun)
    requires slack > 0.0 && late.Ok()
    ensures SetWithin(writes + [e], e.key, e.value, e.Until(), slack, late)
    ensures SetUntil(writes + [e], e.key, e.value, e.Until())
  {
    assert (writes + [e])[|writes|] == e;
  }

  class CacheManager<V> {
    const memory: MemoryCache.MemoryCache<string, Json<V>>
    const hasRedis: bool
    var redis: map<string, RedisEntry<V>>
    ghost var writes: seq<SetEvent<V>>
    ghost var late: Overrun

    ghost predicate Valid()
      reads this`redis, this`writes, this`late, memory
    {
      && memory.Valid() && memory.maxSize >= 2 && late.Ok()
      && MemoryBacked(memory.cache, writes, late)
      && RedisBacked(redis, writes)
    }

    constructor (hasRedis: bool, memoryCacheSize: int := 1000)
      requires memoryCacheSize >= 2
      ensures Valid() && writes == [] && late == OnTime && redis == map[] && memory.cache == map[]
      ensures this.hasRedis == hasRedis && fresh(memory)
    {
      this.hasRedis := hasRedis;
      memory := new MemoryCache.MemoryCache(memoryCacheSize);
      redis, writes, late := map[], [], OnTime;
    }

    // ----- What can be read

    function Held(key: string, now: real): Json<V>
      reads memory
    {
      if key in memory.cache && !memory.cache[key].IsExpired(now) then memory.cache[key].value else Null
    }

    predicate InRedis(key: string, now: real)
      reads this`redis
    {
      key in redis && now < redis[key].goneAt
    }

    ghost predicate Promoted(key: string, value: Json<V>, now: real)
      reads memory
    {
      key in memory.cache && memory.cache[key] == MemoryCache.CacheEntry(value, 60, now, 0, now)
    }

    // A value promoted when its answer arrived can be served 60 seconds or more past the lifetime of
    // its Redis entry if and only if that entry was gone by then.
    lemma PromotedOverrunsIff(key: string, value: Json<V>, goneAt: real, answeredAt: real)
      requires Promoted(key, value, answeredAt) && value.Data?
      ensures (exists t :: answeredAt <= t && goneAt + 60.0 <= t && Held(key, t) == value)
              <==> answeredAt >= goneAt
      ensures answeredAt >= goneAt ==>
                forall t :: answeredAt <= t ==>
                  (Held(key, t) == value <==> t <= goneAt + 60.0 + (answeredAt - goneAt))
    {
      assert Held(key, answeredAt + 60.0) == value;
    }

    // ----- Steps

    method GetMemory(key: string, now: real) returns (value: Option<Json<V>>)
      requires Valid()
      modifies memory
      ensures Valid()
      ensures value.Some? ==> SetWithin(writes, key, value.value, now, 60.0, late)
      ensures value == if key in old(memory.cache) && !old(memory.cache[key]).IsExpired(now)
                       then Some(old(memory.cache[key]).value) else None
    {
      if key in memory.cache && !memory.cache[key].IsExpired(now) {
        HeldIsBacked(memory.cache, writes, late, key, now);
      }
      value := memory.Get(key, now);
      MemoryStillBacked(old(memory.cache), memory.cache, key);
    }

    // Besides the new entry, nothing but an eviction happens to the others.
    method StoreInMemory(key: string, value: Json<V>, ttl: int, now: real)
      requires memory.Valid() && memory.maxSize >= 2
      modifies memory
      ensures memory.Valid() && key in memory.cache
      ensures memory.cache[key] == MemoryCache.CacheEntry(value, ttl, now, 0, now)
      ensures forall k :: k in memory.cache && k != key ==>
                k in old(memory.cache) && memory.cache[k] == old(memory.cache)[k]
    {
      var raised := memory.Set(key, value, ttl, now);
    }

    // A read leaves every stored value, birth and lifetime as it was.
    lemma MemoryStillBacked(before: map<string, MemoryCache.CacheEntry<Json<V>>>,
                            after: map<string, MemoryCache.CacheEntry<Json<V>>>, key: string)
      requires MemoryBacked(before, writes, late)
      requires forall k :: k in after ==> k in before && after[k].AsWrite() == before[k].AsWrite()
      ensures MemoryBacked(after, writes, late)
    {
      forall k | k in after
        ensures SetWithin(writes, k, after[k].value, after[k].createdAt + after[k].ttlSeconds as real,
                          PROMOTED_TTL as real, late)
      {
        assert after[k].AsWrite() == before[k].AsWrite();
      }
    }

    // The server's side of a read; `goneAt` is when the entry it found goes.
    method ReadRedis(key: string, now: real) returns (value: Option<Json<V>>, ghost goneAt: real)
      requires Valid()
      ensures value == if InRedis(key, now) then Some(redis[key].value) else None
      ensures value.Some? ==> goneAt == redis[key].goneAt && SetUntil(writes, key, value.value, goneAt)
    {
      value, goneAt := None, 0.0;
      if key in redis && now < redis[key].goneAt {
        value, goneAt := Some(redis[key].value), redis[key].goneAt;
      }
    }

    // The answer of a read arrives, maybe when the entry it found is gone, and is put into memory.
    method Promote(key: string, value: Json<V>, ghost goneAt: real, now: real)
      requires Valid() && SetUntil(writes, key, value, goneAt)
      modifies this`late, memory
      ensures Valid() && late == AfterAnswer(old(late), goneAt, now)
      ensures Promoted(key, value, now)
    {
      ghost var before := memory.cache;
      StoreInMemory(key, value, PROMOTED_TTL, now);
      late := AfterAnswer(late, goneAt, now);
      ghost var i :| 0 <= i < |writes| && writes[i].key == key && writes[i].value == value
                     && writes[i].Until() == goneAt;
      assert late.Allows(writes[i].Until() + PROMOTED_TTL as real, now + PROMOTED_TTL as real);
      MemoryBackedAfterSet(before, memory.cache, writes, old(late), late, key);
    }

    method SetMemory(key: string, value: Json<V>, ttl: int, now: real)
      requires Valid()
      modifies this`writes, memory
      ensures Valid() && writes == old(writes) + [SetEvent(key, value, now, ttl)]
      ensures key in memory.cache && memory.cache[key].value == value
      ensures memory.cache[key].createdAt == now && memory.cache[key].ttlSeconds == ttl
    {
      ghost var before := memory.cache;
      ghost var e := SetEvent(key, value, now, ttl);
      StoreInMemory(key, value, ttl, now);
      BackedByMore(before, redis, writes, late, e);
      NewEventBacks(writes, e, PROMOTED_TTL as real, late);
      writes := writes + [e];
      MemoryBackedAfterSet(before, memory.cache, writes, late, late, key);
    }

    // The server's side of a write, which refuses lifetimes below 1; `true` when the command raises.
    method SetRedis(key: string, value: Json<V>, ttl: int, now: real, reply: Reply) returns (raised: bool)
      requires Valid()
      modifies this`redis, this`writes
      ensures Valid() && raised == (ttl <= 0 || !reply.Done?)
      ensures if ttl > 0 && reply.TookEffect()
              then redis == old(redis)[key := RedisEntry(value, now + ttl as real)]
                   && writes == old(writes) + [SetEvent(key, value, now, ttl)]
              else redis == old(redis) && writes == old(writes)
    {
      if ttl <= 0 || !reply.TookEffect() {
        return true;
      }
      ghost var e := SetEvent(key, value, now, ttl);
      BackedByMore(memory.cache, redis, writes, late, e);
      NewEventBacks(writes, e, PROMOTED_TTL as real, late);
      redis := redis[key := RedisEntry(value, now + ttl as real)];
      writes := writes + [e];
      return !reply.Done?;
    }

    // A `set` by another process sharing the Redis server.
    method OthersWrite(key: string, value: Json<V>, ttl: int, now: real)
      requires Valid()
      modifies this`redis, this`writes
      ensures Valid()
      ensures if ttl > 0
              then redis == old(redis)[key := RedisEntry(value, now + ttl as real)]
                   && writes == old(writes) + [SetEvent(key, value, now, ttl)]
              else redis == old(redis) && writes == old(writes)
    {
      var _ := SetRedis(key, value, ttl, now, Done);
    }

    // ----- Coroutines

    // A value served from memory at `now` is less than 60 seconds past the lifetime of a set that
    // wrote it, or exceeds that by no more than some answer overran; one served from Redis was alive
    // when it was read.  Only an answer that arrives when its entry is gone adds to the overrun.
    method Get(key: string, useMemory: bool, useRedis: bool, now: real, reply: Reply, readAt: real, answeredAt: real)
      returns (value: Json<V>)
      requires Valid() && now <= readAt <= answeredAt
      modifies this`late, memory
      ensures Valid()
      ensures value.Data? ==>
                || (useMemory && SetWithin(writes, key, value, now, 60.0, old(late)))
                || (useRedis && SetWithin(writes, key, value, readAt, 0.0, OnTime))
      ensures var held := old(Held(key, now));
              var fromRedis :=
                !(useMemory && held.Data?) && useRedis && hasRedis && reply.Done? && InRedis(key, readAt);
              && value == (if useMemory && held.Data? then held else if fromRedis then redis[key].value else Null)
              && (fromRedis && useMemory ==> Promoted(key, value, answeredAt))
              && late == if fromRedis && useMemory then AfterAnswer(old(late), redis[key].goneAt, answeredAt)
                         else old(late)
    {
      if useMemory {
        var held := GetMemory(key, now);
        if held.Some? && held.value.Data? {
          return held.value;
        }
      }
      if useRedis && hasRedis && reply.Done? {
        var cached, goneAt := ReadRedis(key, readAt);
        if cached.Some? {
          ServedAlive(writes, key, cached.value, goneAt, readAt);
          if useMemory {
            Promote(key, cached.value, goneAt, answeredAt);
          }
          return cached.value;
        }
      }
      return Null;
    }

    // None and 0 both mean the default lifetime.
    method Set(key: string, value: Json<V>, ttlSeconds: Option<int>, useMemory: bool, useRedis: bool,
               now: real, storedAt: real, reply: Reply)
      requires Valid() && now <= storedAt
      modifies this`redis, this`writes, memory
      ensures Valid()
      ensures var ttl := if ttlSeconds.None? || ttlSeconds.value == 0 then 300 else ttlSeconds.value;
              useMemory ==>
                key in memory.cache && memory.cache[key].value == value && memory.cache[key].ttlSeconds == ttl
      ensures !useMemory ==> memory.cache == old(memory.cache)
      ensures var ttl := if ttlSeconds.None? || ttlSeconds.value == 0 then 300 else ttlSeconds.value;
              var stored := useRedis && hasRedis && ttl > 0 && reply.TookEffect();
              && redis == (if stored then old(redis)[key := RedisEntry(value, storedAt + ttl as real)] else old(redis))
              && writes == old(writes) + (if useMemory then [SetEvent(key, value, now, ttl)] else [])
                           + if stored then [SetEvent(key, value, storedAt, ttl)] else []
    {
      var ttl := if ttlSeconds.None? || ttlSeconds.value == 0 then DEFAULT_TTL else ttlSeconds.value;
      if useMemory {
        SetMemory(key, value, ttl, now);
      }
      SetRedisIf(useRedis && hasRedis, key, value, ttl, storedAt, reply);
    }

    method SetRedisIf(wanted: bool, key: string, value: Json<V>, ttl: int, now: real, reply: Reply)
      requires Valid()
      modifies this`redis, this`writes
      ensures Valid()
      ensures var stored := wanted && ttl > 0 && reply.TookEffect();
              && redis == (if stored then old(redis)[key := RedisEntry(value, now + ttl as real)] else old(redis))
              && writes == old(writes) + if stored then [SetEvent(key, value, now, ttl)] else []
    {
      if wanted {
        var _ := SetRedis(key, value, ttl, now, reply);
      }
    }

    method DeleteMemory(key: string) returns (deleted: bool)
      requires Valid()
      modifies memory
      ensures Valid() && memory.cache == old(memory.cache) - {key} && deleted == (key in old(memory.cache))
    {
      deleted := memory.Delete(key);
      MemoryStillBacked(old(memory.cache), memory.cache, key);
    }

    method DeleteRedis(key: string, now: real, reply: Reply) returns (deleted: bool)
      requires Valid()
      modifies this`redis
      ensures Valid()
      ensures redis == if reply.TookEffect() then old(redis) - {key} else old(redis)
      ensures deleted == (reply.Done? && key in old(redis) && now < old(redis)[key].goneAt)
    {
      deleted := reply.Done? && key in redis && now < redis[key].goneAt;
      if reply.TookEffect() {
        redis := redis - {key};
      }
    }

    method Delete(key: string, useMemory: bool, useRedis: bool, now: real, reply: Reply) returns (deleted: bool)
      requires Valid()
      modifies this`redis, memory
      ensures Valid()
      ensures memory.cache == if useMemory then old(memory.cache) - {key} else old(memory.cache)
      ensures redis == if useRedis && hasRedis && reply.TookEffect() then old(redis) - {key} else old(redis)
      ensures deleted <==>
                || (useMemory && key in old(memory.cache))
                || (useRedis && hasRedis && reply.Done? && key in old(redis) && now < old(redis)[key].goneAt)
    {
      deleted := false;
      if useMemory {
        deleted := DeleteMemory(key);
      }
      if useRedis && hasRedis {
        var fromRedis := DeleteRedis(key, now, reply);
        deleted := fromRedis || deleted;
      }
    }
  }

  lemma HeldIsBacked<V>(cache: map<string, MemoryCache.CacheEntry<Json<V>>>, writes: seq<SetEvent<V>>, late: Overrun,
                        key: string, now: real)
    requires MemoryBacked(cache, writes, late) && key in cache && !cache[key].IsExpired(now)
    ensures SetWithin(writes, key, cache[key].value, now, 60.0, late)
  {
    var e := cache[key];
    var i :| 0 <= i < |writes| && writes[i].key == key && writes[i].value == e.value
             && late.Allows(writes[i].Until() + PROMOTED_TTL as real, e.createdAt + e.ttlSeconds as real);
  }

  lemma ServedAlive<V>(writes: seq<SetEvent<V>>, key: string, value: Json<V>, until: real, now: real)
    requires SetUntil(writes, key, value, until) && now < until
    ensures SetWithin(writes, key, value, now, 0.0, OnTime)
  {
    var i :| 0 <= i < |writes| && writes[i].key == key && writes[i].value == value && writes[i].Until() == until;
    assert OnTime.Allows(writes[i].Until() + 0.0, now);
  }

  // Storing one backed entry, over what is left of entries that were backed, is backed.
  lemma MemoryBackedAfterSet<V>(before: map<string, MemoryCache.CacheEntry<Json<V>>>,
                                after: map<string, MemoryCache.CacheEntry<Json<V>>>,
                                writes: seq<SetEvent<V>>, late: Overrun, late': Overrun, key: string)
    requires MemoryBacked(before, writes, late) && late.NoWorseThan(late') && late'.Ok()
    requires forall k :: k in after && k != key ==> k in before && after[k] == before[k]
    requires key in after
    requires SetWithin(writes, key, after[key].value, after[key].createdAt + after[key].ttlSeconds as real,
                       PROMOTED_TTL as real, late')
    ensures MemoryBacked(after, writes, late')
  {
    forall k | k in after && k != key
      ensures SetWithin(writes, k, after[k].value, after[k].createdAt + after[k].ttlSeconds as real,
                        PROMOTED_TTL as real, late')
    {
      var i :| 0 <= i < |writes| && writes[i].key == k && writes[i].value == after[k].value
               && late.Allows(writes[i].Until() + PROMOTED_TTL as real,
                              after[k].createdAt + after[k].ttlSeconds as real);
      assert late'.Allows(writes[i].Until() + PROMOTED_TTL as real,
                          after[k].createdAt + after[k].ttlSeconds as real);
    }
  }

  // A run past the bound: set at 0 for 10 seconds, read at 9, answered at 20, and served from memory
  // at 75, which is 5 seconds after 10 + 60.
  method LateAnswer<V>(v: V) returns (m: CacheManager<V>, served: Json<V>, at: real)
    ensures m.Valid() && m.writes == [SetEvent("k", Data(v), 0.0, 10)]
    ensures served == Data(v) && at >= 0.0 + 10 as real + PROMOTED_TTL as real
  {
    m := new CacheManager(true);
    m.OthersWrite("k", Data(v), 10, 0.0);
    var _ := m.Get("k", true, true, 0.0, Done, 9.0, 20.0);
    at := 75.0;
    served := m.Get("k", true, false, at, Done, at, at);
  }
}
