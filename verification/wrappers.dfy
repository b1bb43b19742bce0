/** The Option type used wherever the source has a null pointer, an empty path or a missing key; bytes and words; map insertion. */
module Wrappers {
  datatype Option<+T> = None | Some(value: T)

  type Byte = n: int | 0 <= n < 256

  /** A 32-bit word. */
  type Word = n: int | 0 <= n < 0x1_0000_0000

  /** std::map::emplace and insert: an existing key wins. */
  function Emplace<K, V>(m: map<K, V>, k: K, v: V): map<K, V> {
    if k in m then m else m[k := v]
  }

  function Min(a: int, b: int): int { if a < b then a else b }

  function Max(a: int, b: int): int { if a < b then b else a }
}
