/// Fixed-width unsigned integers and the little-endian byte layout used by
/// every record of an MPQ archive.
module Bytes {

  type uint8 = x: int | 0 <= x < 0x100
  type uint16 = x: int | 0 <= x < 0x1_0000
  type uint32 = x: int | 0 <= x < 0x1_0000_0000
  type uint64 = x: int | 0 <= x < 0x1_0000_0000_0000_0000

  function Min(a: nat, b: nat): nat { if a <= b then a else b }

  /// `n` zero bytes, as `vec![0; n]` allocates them.
  function Zeros(n: nat): (z: seq<uint8>)
    ensures |z| == n && forall i :: 0 <= i < n ==> z[i] == 0
  {
    seq(n, _ => 0)
  }

  /// Little-endian readers: the value stored at byte `i` of `s`.
  function U16At(s: seq<uint8>, i: nat): uint16
    requires i + 2 <= |s|
  {
    s[i] as int + 0x100 * s[i + 1] as int
  }

  function U32At(s: seq<uint8>, i: nat): uint32
    requires i + 4 <= |s|
  {
    U16At(s, i) as int + 0x1_0000 * U16At(s, i + 2) as int
  }

  function U64At(s: seq<uint8>, i: nat): uint64
    requires i + 8 <= |s|
  {
    U32At(s, i) as int + 0x1_0000_0000 * U32At(s, i + 4) as int
  }

  /// Little-endian writers, the inverses of the readers.
  function LeU16(v: uint16): (r: seq<uint8>)
    ensures |r| == 2
  {
    [v % 0x100, v / 0x100]
  }

  function LeU32(v: uint32): (r: seq<uint8>)
    ensures |r| == 4
  {
    LeU16(v % 0x1_0000) + LeU16(v / 0x1_0000)
  }

  function LeU64(v: uint64): (r: seq<uint8>)
    ensures |r| == 8
  {
    LeU32(v % 0x1_0000_0000) + LeU32(v / 0x1_0000_0000)
  }

  /// Reading back a written value gives the value.
  lemma U16Inverse(s: seq<uint8>, i: nat, v: uint16)
    requires i + 2 <= |s| && s[i..i + 2] == LeU16(v)
    ensures U16At(s, i) == v
  {
    assert s[i] == LeU16(v)[0] && s[i + 1] == LeU16(v)[1];
  }

  lemma U32Inverse(s: seq<uint8>, i: nat, v: uint32)
    requires i + 4 <= |s| && s[i..i + 4] == LeU32(v)
    ensures U32At(s, i) == v
  {
    assert s[i..i + 2] == LeU32(v)[..2] == LeU16(v % 0x1_0000);
    assert s[i + 2..i + 4] == LeU32(v)[2..] == LeU16(v / 0x1_0000);
    U16Inverse(s, i, v % 0x1_0000);
    U16Inverse(s, i + 2, v / 0x1_0000);
  }

  lemma U64Inverse(s: seq<uint8>, i: nat, v: uint64)
    requires i + 8 <= |s| && s[i..i + 8] == LeU64(v)
    ensures U64At(s, i) == v
  {
    assert s[i..i + 4] == LeU64(v)[..4] == LeU32(v % 0x1_0000_0000);
    assert s[i + 4..i + 8] == LeU64(v)[4..] == LeU32(v / 0x1_0000_0000);
    U32Inverse(s, i, v % 0x1_0000_0000);
    U32Inverse(s, i + 4, v / 0x1_0000_0000);
  }

  /// Writing back a read value gives the bytes it was read from.
  lemma U16Bytes(s: seq<uint8>, i: nat)
    requires i + 2 <= |s|
    ensures LeU16(U16At(s, i)) == s[i..i + 2]
  {
  }

  lemma U32Bytes(s: seq<uint8>, i: nat)
    requires i + 4 <= |s|
    ensures LeU32(U32At(s, i)) == s[i..i + 4]
  {
    SplitU32(U16At(s, i), U16At(s, i + 2));
    U16Bytes(s, i);
    U16Bytes(s, i + 2);
    assert s[i..i + 4] == s[i..i + 2] + s[i + 2..i + 4];
  }

  lemma U64Bytes(s: seq<uint8>, i: nat)
    requires i + 8 <= |s|
    ensures LeU64(U64At(s, i)) == s[i..i + 8]
  {
    SplitU64(U32At(s, i), U32At(s, i + 4));
    U32Bytes(s, i);
    U32Bytes(s, i + 4);
    assert s[i..i + 8] == s[i..i + 4] + s[i + 4..i + 8];
  }

  /// Reading at `i` of the bytes from `k` on is reading at `k + i`.
  lemma U32AtSlice(s: seq<uint8>, k: nat, i: nat)
    requires k + i + 4 <= |s|
    ensures U32At(s[k..], i) == U32At(s, k + i)
  {
    assert s[k..][i] == s[k + i] && s[k..][i + 1] == s[k + i + 1];
    assert s[k..][i + 2] == s[k + i + 2] && s[k..][i + 3] == s[k + i + 3];
  }

  /// A 32-bit value made of two 16-bit halves splits back into them.
  lemma SplitU32(lo: uint16, hi: uint16)
    ensures (lo + 0x1_0000 * hi) % 0x1_0000 == lo && (lo + 0x1_0000 * hi) / 0x1_0000 == hi
  {
  }

  /// A 64-bit value made of two 32-bit halves splits back into them.
  lemma SplitU64(lo: uint32, hi: uint32)
    ensures (lo + 0x1_0000_0000 * hi) % 0x1_0000_0000 == lo && (lo + 0x1_0000_0000 * hi) / 0x1_0000_0000 == hi
  {
  }

  /// `x & y` on unsigned integers, bit by bit from the lowest.
  function BitAnd(x: nat, y: nat): nat
  {
    if x == 0 || y == 0 then 0
    else 2 * BitAnd(x / 2, y / 2) + (if x % 2 == 1 && y % 2 == 1 then 1 else 0)
  }

  /// Masking keeps only bits of the mask, so the result is at most the mask.
  lemma {:induction false} BitAndBelowMask(x: nat, mask: nat)
    ensures BitAnd(x, mask) <= mask
  {
    if x != 0 && mask != 0 {
      BitAndBelowMask(x / 2, mask / 2);
    }
  }

  /// `flags & bit != 0` for a mask `bit` with a single bit set.
  predicate HasFlag(flags: nat, bit: nat)
    requires bit > 0
  {
    (flags / bit) % 2 == 1
  }
}
