/// The on-disk records of an MPQ archive (src/archive.rs, Header, UserDataHeader,
/// Hash and Block) and their little-endian decoders. Each decoder comes with
/// the matching encoder; the two round-trip lemmas per record say that every
/// field is read from exactly its own bytes.
module Records {
  import opened Bytes

  const HeaderSize := 44
  const UserDataHeaderSize := 16
  /// Hash and Block records are both 16 bytes long.
  const EntrySize := 16

  datatype Header = Header(
    magic: seq<uint8>,
    headerSize: uint32,
    archiveSize: uint32,
    formatVersion: uint16,
    sectorSizeShift: uint16,
    hashTableOffset: uint32,
    blockTableOffset: uint32,
    hashTableCount: uint32,
    blockTableCount: uint32,
    extendedOffset: uint64,
    hashTableOffsetHigh: uint16,
    blockTableOffsetHigh: uint16)

  datatype UserDataHeader = UserDataHeader(
    magic: seq<uint8>,
    userDataSize: uint32,
    headerOffset: uint32,
    userDataHeaderSize: uint32)

  datatype HashEntry = HashEntry(hashA: uint32, hashB: uint32, locale: uint16, platform: uint16, blockIndex: uint32)

  datatype BlockEntry = BlockEntry(offset: uint32, packedSize: uint32, unpackedSize: uint32, flags: uint32)

  // ---------------------------------------------------------------- decoders

  function DecodeHeader(src: seq<uint8>): Header
    requires |src| == HeaderSize
  {
    Header(
      src[..4],
      U32At(src, 0x04), U32At(src, 0x08),
      U16At(src, 0x0C), U16At(src, 0x0E),
      U32At(src, 0x10), U32At(src, 0x14),
      U32At(src, 0x18), U32At(src, 0x1C),
      U64At(src, 0x20),
      U16At(src, 0x28), U16At(src, 0x2A))
  }

  function DecodeUserDataHeader(src: seq<uint8>): UserDataHeader
    requires |src| >= UserDataHeaderSize
  {
    UserDataHeader(src[..4], U32At(src, 0x4), U32At(src, 0x8), U32At(src, 0xC))
  }

  function DecodeHash(src: seq<uint8>): HashEntry
    requires |src| >= EntrySize
  {
    HashEntry(U32At(src, 0), U32At(src, 4), U16At(src, 8), U16At(src, 10), U32At(src, 12))
  }

  function DecodeBlock(src: seq<uint8>): BlockEntry
    requires |src| >= EntrySize
  {
    BlockEntry(U32At(src, 0), U32At(src, 0x4), U32At(src, 0x8), U32At(src, 0xC))
  }

  // ---------------------------------------------------------------- encoders

  function EncodeHeader(h: Header): (r: seq<uint8>)
    requires |h.magic| == 4
    ensures |r| == HeaderSize
  {
    h.magic
    + LeU32(h.headerSize) + LeU32(h.archiveSize)
    + LeU16(h.formatVersion) + LeU16(h.sectorSizeShift)
    + LeU32(h.hashTableOffset) + LeU32(h.blockTableOffset)
    + LeU32(h.hashTableCount) + LeU32(h.blockTableCount)
    + LeU64(h.extendedOffset)
    + LeU16(h.hashTableOffsetHigh) + LeU16(h.blockTableOffsetHigh)
  }

  function EncodeUserDataHeader(u: UserDataHeader): (r: seq<uint8>)
    requires |u.magic| == 4
    ensures |r| == UserDataHeaderSize
  {
    u.magic + LeU32(u.userDataSize) + LeU32(u.headerOffset) + LeU32(u.userDataHeaderSize)
  }

  function EncodeHash(h: HashEntry): (r: seq<uint8>)
    ensures |r| == EntrySize
  {
    LeU32(h.hashA) + LeU32(h.hashB) + LeU16(h.locale) + LeU16(h.platform) + LeU32(h.blockIndex)
  }

  function EncodeBlock(b: BlockEntry): (r: seq<uint8>)
    ensures |r| == EntrySize
  {
    LeU32(b.offset) + LeU32(b.packedSize) + LeU32(b.unpackedSize) + LeU32(b.flags)
  }

  // ------------------------------------------------------------ round trips

  /// Decoding an encoded header gives back every field.
  lemma HeaderRoundTrip(h: Header)
    requires |h.magic| == 4
    ensures DecodeHeader(EncodeHeader(h)) == h
  {
    var s := EncodeHeader(h);
    var p0 := h.magic;
    var p1 := p0 + LeU32(h.headerSize);
    var p2 := p1 + LeU32(h.archiveSize);
    var p3 := p2 + LeU16(h.formatVersion);
    var p4 := p3 + LeU16(h.sectorSizeShift);
    var p5 := p4 + LeU32(h.hashTableOffset);
    var p6 := p5 + LeU32(h.blockTableOffset);
    var p7 := p6 + LeU32(h.hashTableCount);
    var p8 := p7 + LeU32(h.blockTableCount);
    var p9 := p8 + LeU64(h.extendedOffset);
    var p10 := p9 + LeU16(h.hashTableOffsetHigh);
    assert s == p10 + LeU16(h.blockTableOffsetHigh);
    // every prefix is a prefix of the whole encoding
    PrefixOf(p10, LeU16(h.blockTableOffsetHigh), s);
    PrefixOf(p9, LeU16(h.hashTableOffsetHigh), s);
    PrefixOf(p8, LeU64(h.extendedOffset), s);
    PrefixOf(p7, LeU32(h.blockTableCount), s);
    PrefixOf(p6, LeU32(h.hashTableCount), s);
    PrefixOf(p5, LeU32(h.blockTableOffset), s);
    PrefixOf(p4, LeU32(h.hashTableOffset), s);
    PrefixOf(p3, LeU16(h.sectorSizeShift), s);
    PrefixOf(p2, LeU16(h.formatVersion), s);
    PrefixOf(p1, LeU32(h.archiveSize), s);
    PrefixOf(p0, LeU32(h.headerSize), s);
    U32Inverse(s, 0x04, h.headerSize);
    U32Inverse(s, 0x08, h.archiveSize);
    U16Inverse(s, 0x0C, h.formatVersion);
    U16Inverse(s, 0x0E, h.sectorSizeShift);
    U32Inverse(s, 0x10, h.hashTableOffset);
    U32Inverse(s, 0x14, h.blockTableOffset);
    U32Inverse(s, 0x18, h.hashTableCount);
    U32Inverse(s, 0x1C, h.blockTableCount);
    U64Inverse(s, 0x20, h.extendedOffset);
    U16Inverse(s, 0x28, h.hashTableOffsetHigh);
    U16Inverse(s, 0x2A, h.blockTableOffsetHigh);
  }

  /// If `prefix + piece` is a prefix of `s`, then `piece` sits in `s` right
  /// after `prefix`.
  lemma PrefixOf(prefix: seq<uint8>, piece: seq<uint8>, s: seq<uint8>)
    requires |prefix + piece| <= |s| && s[..|prefix + piece|] == prefix + piece
    ensures s[..|prefix|] == prefix
    ensures s[|prefix|..|prefix| + |piece|] == piece
  {
    assert s[..|prefix|] == (prefix + piece)[..|prefix|];
    assert s[|prefix|..|prefix| + |piece|] == (prefix + piece)[|prefix|..];
  }

  /// Encoding a decoded header gives back all 44 bytes: no byte of the
  /// window is ignored and none is read twice.
  lemma HeaderBytes(src: seq<uint8>)
    requires |src| == HeaderSize
    ensures EncodeHeader(DecodeHeader(src)) == src
  {
    var h := DecodeHeader(src);
    var e := h.magic;
    assert e == src[..4];
    U32Bytes(src, 0x04); e := Extend(src, e, 4, LeU32(h.headerSize));
    U32Bytes(src, 0x08); e := Extend(src, e, 8, LeU32(h.archiveSize));
    U16Bytes(src, 0x0C); e := Extend(src, e, 12, LeU16(h.formatVersion));
    U16Bytes(src, 0x0E); e := Extend(src, e, 14, LeU16(h.sectorSizeShift));
    U32Bytes(src, 0x10); e := Extend(src, e, 16, LeU32(h.hashTableOffset));
    U32Bytes(src, 0x14); e := Extend(src, e, 20, LeU32(h.blockTableOffset));
    U32Bytes(src, 0x18); e := Extend(src, e, 24, LeU32(h.hashTableCount));
    U32Bytes(src, 0x1C); e := Extend(src, e, 28, LeU32(h.blockTableCount));
    U64Bytes(src, 0x20); e := Extend(src, e, 32, LeU64(h.extendedOffset));
    U16Bytes(src, 0x28); e := Extend(src, e, 40, LeU16(h.hashTableOffsetHigh));
    U16Bytes(src, 0x2A); e := Extend(src, e, 42, LeU16(h.blockTableOffsetHigh));
    assert src[..44] == src;
  }

  /// One step of reassembling a window from its fields: a prefix of `s`
  /// followed by the next bytes of `s` is a longer prefix.
  lemma Extend(s: seq<uint8>, prefix: seq<uint8>, at: nat, piece: seq<uint8>) returns (longer: seq<uint8>)
    requires at + |piece| <= |s| && prefix == s[..at] && piece == s[at..at + |piece|]
    ensures longer == prefix + piece && longer == s[..at + |piece|]
  {
    longer := prefix + piece;
  }

  lemma UserDataHeaderRoundTrip(u: UserDataHeader, rest: seq<uint8>)
    requires |u.magic| == 4
    ensures DecodeUserDataHeader(EncodeUserDataHeader(u) + rest) == u
  {
    var s := EncodeUserDataHeader(u) + rest;
    assert s[..4] == u.magic;
    U32Inverse(s, 0x4, u.userDataSize);
    U32Inverse(s, 0x8, u.headerOffset);
    U32Inverse(s, 0xC, u.userDataHeaderSize);
  }

  lemma UserDataHeaderBytes(src: seq<uint8>)
    requires |src| >= UserDataHeaderSize
    ensures EncodeUserDataHeader(DecodeUserDataHeader(src)) == src[..UserDataHeaderSize]
  {
    U32Bytes(src, 0x4);
    U32Bytes(src, 0x8);
    U32Bytes(src, 0xC);
    assert src[..16] == src[..4] + src[4..8] + src[8..12] + src[12..16];
  }

  lemma HashRoundTrip(h: HashEntry, rest: seq<uint8>)
    ensures DecodeHash(EncodeHash(h) + rest) == h
  {
    var s := EncodeHash(h) + rest;
    U32Inverse(s, 0, h.hashA);
    U32Inverse(s, 4, h.hashB);
    U16Inverse(s, 8, h.locale);
    U16Inverse(s, 10, h.platform);
    U32Inverse(s, 12, h.blockIndex);
  }

  lemma HashBytes(src: seq<uint8>)
    requires |src| >= EntrySize
    ensures EncodeHash(DecodeHash(src)) == src[..EntrySize]
  {
    U32Bytes(src, 0);
    U32Bytes(src, 4);
    U16Bytes(src, 8);
    U16Bytes(src, 10);
    U32Bytes(src, 12);
    assert src[..16] == src[0..4] + src[4..8] + src[8..10] + src[10..12] + src[12..16];
  }

  lemma BlockRoundTrip(b: BlockEntry, rest: seq<uint8>)
    ensures DecodeBlock(EncodeBlock(b) + rest) == b
  {
    var s := EncodeBlock(b) + rest;
    U32Inverse(s, 0x0, b.offset);
    U32Inverse(s, 0x4, b.packedSize);
    U32Inverse(s, 0x8, b.unpackedSize);
    U32Inverse(s, 0xC, b.flags);
  }

  lemma BlockBytes(src: seq<uint8>)
    requires |src| >= EntrySize
    ensures EncodeBlock(DecodeBlock(src)) == src[..EntrySize]
  {
    U32Bytes(src, 0);
    U32Bytes(src, 4);
    U32Bytes(src, 8);
    U32Bytes(src, 12);
    assert src[..16] == src[0..4] + src[4..8] + src[8..12] + src[12..16];
  }

  // ------------------------------------------------------------------ tables

  /// The hash table as `Archive::open` builds it: `count` entries, entry `x`
  /// decoded from the bytes starting at `16 * x` of the decrypted buffer.
  function HashTable(plain: seq<uint8>, count: nat): seq<HashEntry>
    requires |plain| == EntrySize * count
  {
    seq(count, x requires 0 <= x < count => DecodeHash(plain[EntrySize * x..]))
  }

  function BlockTable(plain: seq<uint8>, count: nat): seq<BlockEntry>
    requires |plain| == EntrySize * count
  {
    seq(count, x requires 0 <= x < count => DecodeBlock(plain[EntrySize * x..]))
  }

  /// The byte image of a table: its entries encoded one after another.
  function EncodeHashTable(t: seq<HashEntry>): (r: seq<uint8>)
    ensures |r| == EntrySize * |t|
  {
    if t == [] then [] else EncodeHash(t[0]) + EncodeHashTable(t[1..])
  }

  function EncodeBlockTable(t: seq<BlockEntry>): (r: seq<uint8>)
    ensures |r| == EntrySize * |t|
  {
    if t == [] then [] else EncodeBlock(t[0]) + EncodeBlockTable(t[1..])
  }

  /// The bytes from `16 * x` of an encoded table start with entry `x`.
  lemma {:induction false} EncodedHashAt(t: seq<HashEntry>, x: nat)
    requires x < |t|
    ensures EncodeHashTable(t)[EntrySize * x..] == EncodeHash(t[x]) + EncodeHashTable(t[x + 1..])
  {
    if x > 0 {
      EncodedHashAt(t[1..], x - 1);
      assert t[1..][x - 1] == t[x] && t[1..][x..] == t[x + 1..];
      var tail := EncodeHashTable(t[1..]);
      assert EncodeHashTable(t)[EntrySize * x..] == tail[EntrySize * (x - 1)..];
    }
  }

  lemma {:induction false} EncodedBlockAt(t: seq<BlockEntry>, x: nat)
    requires x < |t|
    ensures EncodeBlockTable(t)[EntrySize * x..] == EncodeBlock(t[x]) + EncodeBlockTable(t[x + 1..])
  {
    if x > 0 {
      EncodedBlockAt(t[1..], x - 1);
      assert t[1..][x - 1] == t[x] && t[1..][x..] == t[x + 1..];
      var tail := EncodeBlockTable(t[1..]);
      assert EncodeBlockTable(t)[EntrySize * x..] == tail[EntrySize * (x - 1)..];
    }
  }

  /// Decoding the image of a table gives back exactly its entries, in order.
  lemma HashTableRoundTrip(t: seq<HashEntry>)
    ensures HashTable(EncodeHashTable(t), |t|) == t
  {
    var r := HashTable(EncodeHashTable(t), |t|);
    forall x | 0 <= x < |t| ensures r[x] == t[x] {
      EncodedHashAt(t, x);
      HashRoundTrip(t[x], EncodeHashTable(t[x + 1..]));
    }
  }

  lemma BlockTableRoundTrip(t: seq<BlockEntry>)
    ensures BlockTable(EncodeBlockTable(t), |t|) == t
  {
    var r := BlockTable(EncodeBlockTable(t), |t|);
    forall x | 0 <= x < |t| ensures r[x] == t[x] {
      EncodedBlockAt(t, x);
      BlockRoundTrip(t[x], EncodeBlockTable(t[x + 1..]));
    }
  }
}
