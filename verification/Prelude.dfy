/** Small datatypes shared by the other modules. */
module Prelude {
  datatype Option<+T> = None | Some(value: T)

  datatype Result<+T, +E> = Ok(value: T) | Err(error: E)

  // What became of a Redis command; a lost reply raises although the command took effect.
  datatype Reply = Done | LostReply | NotDelivered
  {
    predicate TookEffect() { !NotDelivered? }
  }

  function Max(a: int, b: int): int {
    if a < b then b else a
  }

  function Min(a: int, b: int): int {
    if a < b then a else b
  }

  // What a map holds for a key, or a default.
  function Lookup<K, V>(m: map<K, V>, k: K, default: V): V {
    if k in m then m[k] else default
  }
}
