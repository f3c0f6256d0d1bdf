/** Types shared by every module: bytes, options and the int64 range. */
module Prelude {
  newtype byte = x: int | 0 <= x < 256

  type Bytes = seq<byte>

  datatype Option<+T> = None | Some(value: T)

  const MAX_INT64: int := 0x7FFF_FFFF_FFFF_FFFF
  const MIN_INT64: int := -0x8000_0000_0000_0000
  const MAX_UINT64: int := 0xFFFF_FFFF_FFFF_FFFF

  /** The bound of every compare-and-set retry loop. */
  const MAX_RMW_RETRIES := 50

  predicate InInt64(n: int) {
    MIN_INT64 <= n <= MAX_INT64
  }

  function Max(a: int, b: int): int {
    if a < b then b else a
  }

  function Min(a: int, b: int): int {
    if a < b then a else b
  }

  lemma UnionSize<K, V>(a: map<K, V>, b: map<K, V>)
    ensures |a + b| == |a| + |b.Keys - a.Keys|
    ensures (a + b).Keys == a.Keys + b.Keys
  {
  }
}
