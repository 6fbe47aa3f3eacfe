/// The archive cipher and the string hash. Their algorithms are not part of
/// this model: the reader is verified for every pair of such functions.
module Crypt {
  import opened Bytes

  /// `decrypt` works in place on a byte buffer, so its output has the length
  /// of its input.
  type Cipher = f: (seq<uint8>, uint32) -> seq<uint8> | forall b: seq<uint8>, k: uint32 :: |f(b, k)| == |b|
    witness (b: seq<uint8>, k: uint32) => b

  /// `hash_string(name, hash_type)` and `decrypt(buffer, key)`.
  datatype Primitives = Primitives(hashString: (string, uint32) -> uint32, decrypt: Cipher)

  /// The hash types the reader asks for.
  const HashTableOffset: uint32 := 0x000
  const HashNameA: uint32 := 0x100
  const HashNameB: uint32 := 0x200
  const HashFileKey: uint32 := 0x300
}
