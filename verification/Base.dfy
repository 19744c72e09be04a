/** Shared result types and byte sequences. */
module Base {
  type byte = x: int | 0 <= x < 256
  type Bytes = seq<byte>

  datatype Option<+T> = None | Some(value: T)
  datatype Result<+T, +E> = Ok(value: T) | Err(error: E)

  const U64_MAX: nat := 0xFFFF_FFFF_FFFF_FFFF
  const U32_MAX: nat := 0xFFFF_FFFF

  type u64 = x: int | 0 <= x <= U64_MAX

  function Min(a: int, b: int): int { if a < b then a else b }

  /** `m` is a part of `n`: the same keys still hold the same values. */
  ghost predicate Sub<K, V>(m: map<K, V>, n: map<K, V>)
  {
    forall k :: k in m ==> k in n && n[k] == m[k]
  }

  /** `order` enumerates `keys`, each once, in whatever order a store lists them. */
  ghost predicate Lists<K>(order: seq<K>, keys: set<K>)
  {
    (forall k :: k in order ==> k in keys) && (forall k :: k in keys ==> k in order) &&
    (forall i, j :: 0 <= i < j < |order| ==> order[i] != order[j])
  }
}
