/**
 What the in-memory caches promise: a map with lifetimes that forgets what it drops and nothing else.

 A history lists what was done to a cache, the drops included.  `LastWrite` is what it then holds for
 a key, and `AnswerOf` what it answers while the lifetime of that lasts.  MemoryCache
 (shared/cache_manager.py) and EmbeddingCache (shared/embedding_cache.py) both refine it.
 */
module LossyTtlMap {
  import opened Prelude

  datatype Write<V> = Write(value: V, at: real, ttl: int)

  // Hits are in the history because they count as touches.
  datatype Op<K, V> = Set(key: K, write: Write<V>) | Hit(key: K) | Drop(key: K)

  function LastWrite<K(!new, ==), V>(ops: seq<Op<K, V>>, key: K): Option<Write<V>> {
    if ops == [] then None
    else
      var before, op := ops[..|ops| - 1], ops[|ops| - 1];
      if op.key != key || op.Hit? then LastWrite(before, key)
      else if op.Set? then Some(op.write)
      else None
  }

  // The answer: the last value written and not dropped since, up to and including the end of its
  // lifetime.
  function AnswerOf<K(!new, ==), V>(ops: seq<Op<K, V>>, key: K, now: real): Option<V> {
    var w := LastWrite(ops, key);
    if w.Some? && now <= w.value.at + w.value.ttl as real then Some(w.value.value) else None
  }

  // Position in the history of the last hit or write of `key`; -1 when there is none.
  function LastTouch<K(!new, ==), V>(ops: seq<Op<K, V>>, key: K): int {
    if ops == [] then -1
    else
      var op := ops[|ops| - 1];
      if op.key == key && !op.Drop? then |ops| - 1 else LastTouch(ops[..|ops| - 1], key)
  }

  // What is stored is, key by key, the last thing written and not dropped since.
  ghost predicate Remembers<K(!new), V>(entries: map<K, Write<V>>, ops: seq<Op<K, V>>) {
    forall k :: LastWrite(ops, k) == if k in entries then Some(entries[k]) else None
  }

  // `order` lists the keys of `entries` once each, least recently touched first.
  ghost predicate InTouchOrder<K(!new), V>(order: seq<K>, ops: seq<Op<K, V>>) {
    forall i, j :: 0 <= i < j < |order| ==> LastTouch(ops, order[i]) < LastTouch(ops, order[j])
  }

  lemma OneMore<K(!new), V>(ops: seq<Op<K, V>>, op: Op<K, V>, key: K)
    ensures LastTouch(ops + [op], key) == if op.key == key && !op.Drop? then |ops| else LastTouch(ops, key)
    ensures LastWrite(ops + [op], key) ==
            if op.key != key || op.Hit? then LastWrite(ops, key) else if op.Set? then Some(op.write) else None
  {
    assert (ops + [op])[..|ops|] == ops;
  }

  lemma {:induction false} LastTouchBelow<K(!new), V>(ops: seq<Op<K, V>>, key: K)
    ensures -1 <= LastTouch(ops, key) < |ops|
  {
    if ops != [] {
      LastTouchBelow(ops[..|ops| - 1], key);
    }
  }

  // Entries that were remembered before one more operation still are, except the one touched.
  lemma RemembersOneMore<K(!new), V>(entries: map<K, Write<V>>, ops: seq<Op<K, V>>, op: Op<K, V>)
    requires Remembers(entries, ops)
    ensures op.Set? ==> Remembers((entries - {op.key})[op.key := op.write], ops + [op])
    ensures op.Hit? ==> Remembers(entries, ops + [op])
    ensures op.Drop? ==> Remembers(entries - {op.key}, ops + [op])
  {
    forall k ensures LastWrite(ops + [op], k) ==
                     if op.key != k || op.Hit? then LastWrite(ops, k) else if op.Set? then Some(op.write) else None
    {
      OneMore(ops, op, k);
    }
  }

  // Moving or adding the touched key to the end keeps the order.
  lemma TouchedGoesLast<K(!new), V>(rest: seq<K>, ops: seq<Op<K, V>>, op: Op<K, V>)
    requires InTouchOrder(rest, ops) && op.key !in rest && !op.Drop?
    ensures InTouchOrder(rest + [op.key], ops + [op])
  {
    var order, ops' := rest + [op.key], ops + [op];
    forall i, j | 0 <= i < j < |order| ensures LastTouch(ops', order[i]) < LastTouch(ops', order[j]) {
      OneMore(ops, op, order[i]);
      OneMore(ops, op, order[j]);
      LastTouchBelow(ops, order[i]);
    }
  }

  lemma DropKeepsOrder<K(!new), V>(rest: seq<K>, ops: seq<Op<K, V>>, key: K)
    requires InTouchOrder(rest, ops)
    ensures InTouchOrder(rest, ops + [Drop(key)])
  {
    forall k ensures LastTouch(ops + [Drop(key)], k) == LastTouch(ops, k) {
      OneMore(ops, Drop(key), k);
    }
  }
}
