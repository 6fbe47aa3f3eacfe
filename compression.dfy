/// Decompression of one compressed block (src/compression.rs). The first byte
/// of the block is a bit mask of compression methods; only the zlib bit
/// produces output. The zlib codec itself is an abstract function.
module Compression {
  import opened Bytes

  /// A zlib stream decoder: the bytes a zlib stream inflates to (for a
  /// damaged stream, the bytes produced before the damage).
  type Inflater = seq<uint8> -> seq<uint8>

  const Huffman: uint8 := 0x01
  const Zlib: uint8 := 0x02
  // The method bits below are named for completeness; `decompress` tests
  // only the Huffman and zlib bits, so nothing here uses them.
  const PkZip: uint8 := 0x08
  const BZip2: uint8 := 0x10
  const Sparse: uint8 := 0x20
  const AdpcmStereo: uint8 := 0x40
  const AdpcmMono: uint8 := 0x80
  const Lzma: uint8 := 0x12

  /// `methods & m != 0` for a single-bit method `m`.
  predicate HasMethod(methods: uint8, m: uint8)
    requires m > 0
  {
    HasFlag(methods, m)
  }

  /// The count `decompress` returns and the contents of `out` afterwards.
  datatype Decompressed = Decompressed(total: nat, out: seq<uint8>)

  /// `decompress(data, out)`. With the zlib bit set, the inflated payload
  /// `data[1..]` is written to the front of `out`, as much of it as fits, and
  /// the count written is returned. Every other method only reports itself,
  /// so the result is then 0 and `out` is untouched.
  function Decompress(inflate: Inflater, data: seq<uint8>, out: seq<uint8>): (r: Decompressed)
    requires |data| > 0
    ensures |r.out| == |out|
    ensures r.total <= |out|
  {
    var methods := data[0];
    if HasMethod(methods, Zlib) then
      var inflated := inflate(data[1..]);
      var n := Min(|inflated|, |out|);
      Decompressed(n, inflated[..n] + out[n..])
    else
      Decompressed(0, out)
  }

  /// With the zlib bit set, `out` starts with the inflated payload (cut to
  /// the room available) and the rest of `out` is unchanged.
  lemma ZlibFillsOutput(inflate: Inflater, data: seq<uint8>, out: seq<uint8>)
    requires |data| > 0 && HasMethod(data[0], Zlib)
    ensures var r := Decompress(inflate, data, out);
      && r.total == Min(|inflate(data[1..])|, |out|)
      && r.out[..r.total] == inflate(data[1..])[..r.total]
      && r.out[r.total..] == out[r.total..]
  {
  }

  /// Without the zlib bit, nothing is produced whatever other bits are set.
  lemma OnlyZlibProduces(inflate: Inflater, data: seq<uint8>, out: seq<uint8>)
    requires |data| > 0 && !HasMethod(data[0], Zlib)
    ensures Decompress(inflate, data, out) == Decompressed(0, out)
  {
  }

  /// The zlib branch wins over every other bit: two blocks with the zlib bit
  /// set and the same payload decompress alike, whatever else their method
  /// bytes say.
  lemma ZlibWins(inflate: Inflater, a: seq<uint8>, b: seq<uint8>, out: seq<uint8>)
    requires |a| > 0 && |b| > 0 && a[1..] == b[1..]
    requires HasMethod(a[0], Zlib) && HasMethod(b[0], Zlib)
    ensures Decompress(inflate, a, out) == Decompress(inflate, b, out)
  {
  }

  /// The Huffman bit is tested first but changes nothing: setting or
  /// clearing it leaves the result as it was.
  lemma HuffmanBitIgnored(inflate: Inflater, data: seq<uint8>, out: seq<uint8>)
    requires |data| > 0
    ensures var flipped := if HasMethod(data[0], Huffman) then data[0] - 1 else data[0] + 1;
      Decompress(inflate, [flipped] + data[1..], out) == Decompress(inflate, data, out)
  {
    var flipped := if HasMethod(data[0], Huffman) then data[0] - 1 else data[0] + 1;
    assert ([flipped] + data[1..])[1..] == data[1..];
  }
}
