/// Reading a file's data out of an opened archive (src/archive.rs, `File::size`,
/// `File::read`, `File::read_blocks` and `File::read_block`). Each operation
/// is specified by a function that gives the value returned and the output
/// buffer afterwards, or `Panic` where the program would panic, and is
/// implemented by a method that writes into the buffer in place.
module MpqFile {
  import opened Bytes
  import opened Io
  import opened Records
  import opened Compression
  import opened MpqArchive

  /// Block flags.
  const Implode := 0x0000_0100      // imploded with the PKware library
  const Compress := 0x0000_0200     // compressed with the methods of the first byte
  const Encrypted := 0x0001_0000
  const PatchFile := 0x0010_0000
  const SingleUnit := 0x0100_0000   // stored as one block rather than in sectors

  const EncryptionUnsupported := Error(Other, "Block encryption not supported")
  const ImplodeUnsupported := Error(Other, "PKware compression not supported")
  const PatchUnsupported := Error(Other, "Patch file not supported")

  /// What a read does: the count it returns (or its error) and the output
  /// buffer afterwards; or a panic (an index out of range, a `u32`
  /// subtraction that underflows, a division by zero).
  datatype Outcome = Done(result: Result<nat>, out: seq<uint8>) | Panic

  // ------------------------------------------------------------------- size

  /// The hash entry of `f` and the block entry it names both exist.
  predicate Resolves(a: Archive, f: File)
  {
    f.index < |a.hashTable| && a.hashTable[f.index].blockIndex < |a.blockTable|
  }

  function BlockOf(a: Archive, f: File): (b: BlockEntry)
    requires Resolves(a, f)
    ensures b in a.blockTable
  {
    a.blockTable[a.hashTable[f.index].blockIndex]
  }

  /// `File::size`: the unpacked size recorded in the file's block entry.
  function Size(a: Archive, f: File): uint32
    requires Resolves(a, f)
  {
    BlockOf(a, f).unpackedSize
  }

  // -------------------------------------------------------------- one block

  /// `read_block`: read `buffSize` bytes at `block.offset + offset`, then
  /// unpack them into `out`.
  function BlockRead(image: seq<uint8>, inflate: Inflater, buffSize: nat, offset: nat,
                     block: BlockEntry, out: seq<uint8>): (r: Outcome)
    ensures r.Done? ==> |r.out| == |out|
    ensures r.Done? && r.result.Err? ==> r.out == out
  {
    match ReadExact(image, block.offset + offset, buffSize)
    case Err(e) => Done(Err(e), out)
    case Ok(inBuff) => Unpack(inflate, inBuff, block, out)
  }

  /// The rest of `read_block` on the bytes read: reject encrypted and
  /// imploded blocks, then either decompress into `out` or copy as much as
  /// fits and report the block's unpacked size.
  function Unpack(inflate: Inflater, inBuff: seq<uint8>, block: BlockEntry, out: seq<uint8>): (r: Outcome)
    ensures r.Done? ==> |r.out| == |out|
    ensures r.Done? && r.result.Err? ==> r.out == out
  {
    if HasFlag(block.flags, Encrypted) then Done(Err(EncryptionUnsupported), out)
    else if HasFlag(block.flags, Implode) then Done(Err(ImplodeUnsupported), out)
    else if HasFlag(block.flags, Compress) then
      if |inBuff| == 0 then Panic
      else
        var d := Decompress(inflate, inBuff, out);
        Done(Ok(d.total), d.out)
    else
      var n := Min(|out|, |inBuff|);
      Done(Ok(block.unpackedSize), inBuff[..n] + out[n..])
  }

  /// `out` with the bytes from `at` on replaced by `tail`.
  function Splice(out: seq<uint8>, at: nat, tail: seq<uint8>): (r: seq<uint8>)
    requires at <= |out| && |tail| == |out| - at
    ensures |r| == |out| && r[..at] == out[..at] && r[at..] == tail
  {
    out[..at] + tail
  }

  method ReadBlock(image: seq<uint8>, inflate: Inflater, buffSize: nat, offset: nat,
                   block: BlockEntry, out: array<uint8>, at: nat) returns (r: Result<nat>)
    requires at <= out.Length
    requires !BlockRead(image, inflate, buffSize, offset, block, out[at..]).Panic?
    modifies out
    ensures var spec := BlockRead(image, inflate, buffSize, offset, block, old(out[at..]));
      r == spec.result && out[..] == Splice(old(out[..]), at, spec.out)
  {
    var read := ReadExact(image, block.offset + offset, buffSize);
    if read.Err? {
      SpliceOwnTail(out[..], at);
      return Err(read.error);
    }
    r := UnpackInto(inflate, read.value, block, out, at);
  }

  /// `Unpack` writing into `out` from `at` on.
  method UnpackInto(inflate: Inflater, inBuff: seq<uint8>, block: BlockEntry, out: array<uint8>, at: nat)
    returns (r: Result<nat>)
    requires at <= out.Length
    requires !Unpack(inflate, inBuff, block, out[at..]).Panic?
    modifies out
    ensures var spec := Unpack(inflate, inBuff, block, old(out[at..]));
      r == spec.result && out[..] == Splice(old(out[..]), at, spec.out)
  {
    if HasFlag(block.flags, Encrypted) {
      SpliceOwnTail(out[..], at);
      return Err(EncryptionUnsupported);
    }
    if HasFlag(block.flags, Implode) {
      SpliceOwnTail(out[..], at);
      return Err(ImplodeUnsupported);
    }
    if HasFlag(block.flags, Compress) {
      r := DecompressInto(inflate, inBuff, out, at);
      return;
    }
    var n := Min(out.Length - at, |inBuff|);
    ghost var before := out[..];
    CopyInto(out, at, inBuff[..n]);
    CopyIsSplice(before, at, inBuff[..n]);
    return Ok(block.unpackedSize);
  }

  /// Splicing a buffer's own tail back in leaves it as it was.
  lemma SpliceOwnTail(s: seq<uint8>, at: nat)
    requires at <= |s|
    ensures Splice(s, at, s[at..]) == s
  {
  }

  /// Copying `src` in at `at` splices in `src` followed by what was there
  /// after it.
  lemma CopyIsSplice(s: seq<uint8>, at: nat, src: seq<uint8>)
    requires at + |src| <= |s|
    ensures s[..at] + src + s[at + |src|..] == Splice(s, at, src + s[at..][|src|..])
  {
    assert s[at..][|src|..] == s[at + |src|..];
  }

  /// `decompress` writing into `out` from `at` on.
  method DecompressInto(inflate: Inflater, inBuff: seq<uint8>, out: array<uint8>, at: nat) returns (r: Result<nat>)
    requires at <= out.Length && |inBuff| > 0
    modifies out
    ensures var d := Decompress(inflate, inBuff, old(out[at..]));
      r == Ok(d.total) && out[..] == Splice(old(out[..]), at, d.out)
  {
    ghost var before := out[..];
    var d := Decompress(inflate, inBuff, out[at..]);
    forall k | at <= k < out.Length {
      out[k] := d.out[k - at];
    }
    assert out[..] == Splice(before, at, d.out);
    return Ok(d.total);
  }

  /// The element-wise copy of `read_block`: `src` goes to `out` from `at` on.
  method CopyInto(out: array<uint8>, at: nat, src: seq<uint8>)
    requires at + |src| <= out.Length
    modifies out
    ensures out[..] == old(out[..at]) + src + old(out[at + |src|..])
  {
    var k := 0;
    while k < |src|
      invariant 0 <= k <= |src|
      invariant forall j :: 0 <= j < at ==> out[j] == old(out[j])
      invariant forall j :: at <= j < at + k ==> out[j] == src[j - at]
      invariant forall j :: at + k <= j < out.Length ==> out[j] == old(out[j])
    {
      out[at + k] := src[k];
      k := k + 1;
    }
  }

  // ---------------------------------------------------------------- sectors

  /// `n` little-endian u32 sector offsets read one after the other from `pos`.
  function OffsetTable(image: seq<uint8>, pos: nat, n: nat): (r: Result<seq<uint32>>)
    ensures r.Ok? ==> |r.value| == n
  {
    match ReadExact(image, pos, 4 * n)
    case Err(e) => Err(e)
    case Ok(raw) => Ok(seq(n, i requires 0 <= i < n => U32At(raw, 4 * i)))
  }

  /// One turn of the sector loop of `read_blocks`: sector `j` is
  /// `offs[j+1] - offs[j]` bytes at `block.offset + offs[j]`, unpacked into
  /// `out` from position `read` on. The u32 subtraction and the slice
  /// `out[read..]` panic when they underflow.
  function SectorTurn(image: seq<uint8>, inflate: Inflater, block: BlockEntry, offs: seq<uint32>,
                      j: nat, read: nat, out: seq<uint8>): (r: Outcome)
    requires j < |offs| - 1
    ensures r.Done? ==> |r.out| == |out|
    ensures r.Done? && r.result.Err? ==> r.out == out
  {
    if offs[j + 1] < offs[j] || read > |out| then Panic
    else
      match BlockRead(image, inflate, offs[j + 1] - offs[j], offs[j], block, out[read..])
      case Panic => Panic
      case Done(result, o) => Done(result, Splice(out, read, o))
  }

  /// A turn of a loop over sectors: what sector `j` comes to, with `read`
  /// bytes reported so far and the buffer as it stands.
  type Turn = (nat, nat, seq<uint8>) -> Outcome

  /// The turns of the sector loop over the offset table `offs`.
  function SectorTurns(image: seq<uint8>, inflate: Inflater, block: BlockEntry, offs: seq<uint32>): Turn
  {
    (j: nat, read: nat, out: seq<uint8>) => TurnAt(image, inflate, block, offs, j, read, out)
  }

  /// Turn `j` of the sector loop; there is none past the last sector.
  function TurnAt(image: seq<uint8>, inflate: Inflater, block: BlockEntry, offs: seq<uint32>,
                  j: nat, read: nat, out: seq<uint8>): Outcome
  {
    if j < |offs| - 1 then SectorTurn(image, inflate, block, offs, j, read, out) else Panic
  }

  /// A loop running `turn` on sectors `i` to `last - 1`, adding up the
  /// counts they report and stopping at the first error.
  function Loop(turn: Turn, last: nat, i: nat, read: nat, out: seq<uint8>): Outcome
    decreases last - i, 1
  {
    if i >= last then Done(Ok(read), out) else Advance(turn, last, i, read, out)
  }

  /// Turn `i` of `Loop`, then the rest of the loop unless it failed.
  function Advance(turn: Turn, last: nat, i: nat, read: nat, out: seq<uint8>): Outcome
    requires i < last
    decreases last - i, 0
  {
    match turn(i, read, out)
    case Panic => Panic
    case Done(Err(e), _) => Done(Err(e), out)
    case Done(Ok(n), o) => Loop(turn, last, i + 1, read + n, o)
  }

  /// Every turn keeps the length of the buffer.
  ghost predicate KeepsLength(turn: Turn)
  {
    forall j: nat, read: nat, out: seq<uint8> :: turn(j, read, out).Done? ==> |turn(j, read, out).out| == |out|
  }

  lemma {:induction false} LoopKeepsLength(turn: Turn, last: nat, i: nat, read: nat, out: seq<uint8>)
    requires KeepsLength(turn)
    ensures var r := Loop(turn, last, i, read, out); r.Done? ==> |r.out| == |out|
    decreases last - i
  {
    if i < last {
      match turn(i, read, out)
      case Panic =>
      case Done(Err(e), _) =>
      case Done(Ok(n), o) => LoopKeepsLength(turn, last, i + 1, read + n, o);
    }
  }

  lemma SectorTurnsKeepLength(image: seq<uint8>, inflate: Inflater, block: BlockEntry, offs: seq<uint32>)
    ensures KeepsLength(SectorTurns(image, inflate, block, offs))
  {
  }

  /// The sector loop of `read_blocks` from sector `i` on, with `read` bytes
  /// reported so far.
  function SectorsFrom(image: seq<uint8>, inflate: Inflater, block: BlockEntry, offs: seq<uint32>,
                       i: nat, read: nat, out: seq<uint8>): Outcome
    requires i < |offs|
  {
    Loop(SectorTurns(image, inflate, block, offs), |offs| - 1, i, read, out)
  }

  /// One turn of the sector loop: sector `i` is unpacked, then the loop
  /// goes on with the next sector unless it failed.
  lemma SectorStep(image: seq<uint8>, inflate: Inflater, block: BlockEntry, offs: seq<uint32>,
                   i: nat, read: nat, out: seq<uint8>)
    requires i < |offs| - 1
    ensures SectorsFrom(image, inflate, block, offs, i, read, out)
         == match SectorTurn(image, inflate, block, offs, i, read, out)
            case Panic => Panic
            case Done(Err(e), _) => Done(Err(e), out)
            case Done(Ok(n), o) => SectorsFrom(image, inflate, block, offs, i + 1, read + n, o)
  {
    assert SectorsFrom(image, inflate, block, offs, i, read, out)
        == Advance(SectorTurns(image, inflate, block, offs), |offs| - 1, i, read, out);
  }

  /// `read_blocks`: the offset table of `unpacked_size / sector_size + 2`
  /// entries sits at the block's position in the archive; then the sectors.
  function BlocksRead(a: Archive, inflate: Inflater, block: BlockEntry, out: seq<uint8>): Outcome
  {
    if a.sectorSize == 0 then Panic
    else
      match SectorOffsets(a, block)
      case Err(e) => Done(Err(e), out)
      case Ok(offs) => SectorsFrom(a.image, inflate, block, offs, 0, 0, out)
  }

  /// The offset table of a sectored file: one entry per sector of
  /// `sector_size` bytes (`unpacked_size / sector_size + 1` of them) and one
  /// more for the end, at the block's position in the archive.
  function SectorOffsets(a: Archive, block: BlockEntry): (r: Result<seq<uint32>>)
    requires a.sectorSize > 0
    ensures r.Ok? ==> |r.value| == block.unpackedSize / a.sectorSize + 2
  {
    var numSectors := block.unpackedSize / a.sectorSize + 1;
    OffsetTable(a.image, block.offset + a.offset, numSectors + 1)
  }

  /// `File::read`: patch files are refused, single-unit files are one block
  /// of `packed_size` bytes at the archive offset, the rest are sectored.
  function FileRead(a: Archive, inflate: Inflater, f: File, out: seq<uint8>): Outcome
  {
    if !Resolves(a, f) then Panic
    else
      var block := BlockOf(a, f);
      if HasFlag(block.flags, PatchFile) then Done(Err(PatchUnsupported), out)
      else if HasFlag(block.flags, SingleUnit) then BlockRead(a.image, inflate, block.packedSize, a.offset, block, out)
      else BlocksRead(a, inflate, block, out)
  }

  /// A read that comes to an end leaves a buffer of the length it was
  /// given: every block and sector writes inside it.
  lemma ReadKeepsLength(a: Archive, inflate: Inflater, f: File, out: seq<uint8>)
    ensures var r := FileRead(a, inflate, f, out); r.Done? ==> |r.out| == |out|
  {
    if Resolves(a, f) && a.sectorSize > 0 && SectorOffsets(a, BlockOf(a, f)).Ok? {
      var offs := SectorOffsets(a, BlockOf(a, f)).value;
      SectorTurnsKeepLength(a.image, inflate, BlockOf(a, f), offs);
      LoopKeepsLength(SectorTurns(a.image, inflate, BlockOf(a, f), offs), |offs| - 1, 0, 0, out);
    }
  }

  method ReadOffsetTable(image: seq<uint8>, pos: nat, n: nat) returns (r: Result<seq<uint32>>)
    ensures r == OffsetTable(image, pos, n)
  {
    var offsets: seq<uint32> := [];
    for s := 0 to n
      invariant pos + 4 * s <= |image| || s == 0
      invariant |offsets| == s
      invariant forall j :: 0 <= j < s ==> offsets[j] == U32At(image, pos + 4 * j)
    {
      var read := ReadExact(image, pos + 4 * s, 4);
      if read.Err? {
        return Err(read.error);
      }
      offsets := offsets + [U32At(read.value, 0)];
    }
    if n > 0 {
      var raw := ReadExact(image, pos, 4 * n).value;
      assert raw == image[pos..pos + 4 * n];
      forall j | 0 <= j < n
        ensures offsets[j] == U32At(raw, 4 * j)
      {
        assert raw[4 * j] == image[pos + 4 * j] && raw[4 * j + 1] == image[pos + 4 * j + 1];
        assert raw[4 * j + 2] == image[pos + 4 * j + 2] && raw[4 * j + 3] == image[pos + 4 * j + 3];
      }
      assert offsets == seq(n, i requires 0 <= i < n => U32At(raw, 4 * i));
    }
    return Ok(offsets);
  }

  method ReadBlocks(a: Archive, inflate: Inflater, block: BlockEntry, out: array<uint8>) returns (r: Result<nat>)
    requires !BlocksRead(a, inflate, block, out[..]).Panic?
    modifies out
    ensures var spec := BlocksRead(a, inflate, block, old(out[..]));
      r == spec.result && out[..] == spec.out
  {
    var table := ReadSectorOffsets(a, block);
    if table.Err? {
      return Err(table.error);
    }
    r := ReadSectors(a.image, inflate, block, table.value, out);
  }

  /// The division and the offset-table read of `read_blocks`.
  method ReadSectorOffsets(a: Archive, block: BlockEntry) returns (r: Result<seq<uint32>>)
    requires a.sectorSize > 0
    ensures r == SectorOffsets(a, block)
  {
    var numSectors := block.unpackedSize / a.sectorSize + 1;
    r := ReadOffsetTable(a.image, block.offset + a.offset, numSectors + 1);
  }

  /// The sector loop of `read_blocks`.
  method ReadSectors(image: seq<uint8>, inflate: Inflater, block: BlockEntry, offs: seq<uint32>,
                     out: array<uint8>) returns (r: Result<nat>)
    requires |offs| > 0
    requires !SectorsFrom(image, inflate, block, offs, 0, 0, out[..]).Panic?
    modifies out
    ensures var spec := SectorsFrom(image, inflate, block, offs, 0, 0, old(out[..]));
      r == spec.result && out[..] == spec.out
  {
    ghost var spec := SectorsFrom(image, inflate, block, offs, 0, 0, out[..]);
    var read: nat := 0;
    for i := 0 to |offs| - 1
      invariant SectorsFrom(image, inflate, block, offs, i, read, out[..]) == spec
    {
      SectorStep(image, inflate, block, offs, i, read, out[..]);
      var n := ReadSector(image, inflate, block, offs, i, read, out);
      if n.Err? {
        return Err(n.error);
      }
      read := read + n.value;
    }
    return Ok(read);
  }

  /// One turn of the sector loop: sector `i` goes to `out` from `read` on.
  method ReadSector(image: seq<uint8>, inflate: Inflater, block: BlockEntry, offs: seq<uint32>,
                    i: nat, read: nat, out: array<uint8>) returns (r: Result<nat>)
    requires i < |offs| - 1
    requires !SectorTurn(image, inflate, block, offs, i, read, out[..]).Panic?
    modifies out
    ensures var spec := SectorTurn(image, inflate, block, offs, i, read, old(out[..]));
      r == spec.result && out[..] == spec.out
  {
    SectorTurnReads(image, inflate, block, offs, i, read, out[..]);
    var sectorOffset := offs[i];
    var sectorSize := offs[i + 1] - sectorOffset;
    r := ReadBlock(image, inflate, sectorSize, sectorOffset, block, out, read);
  }

  /// A turn of the sector loop that does not panic is the sector's block
  /// read into the buffer from `read` on.
  lemma SectorTurnReads(image: seq<uint8>, inflate: Inflater, block: BlockEntry, offs: seq<uint32>,
                        j: nat, read: nat, out: seq<uint8>)
    requires j < |offs| - 1
    requires !SectorTurn(image, inflate, block, offs, j, read, out).Panic?
    ensures offs[j] <= offs[j + 1] && read <= |out|
    ensures var b := BlockRead(image, inflate, offs[j + 1] - offs[j], offs[j], block, out[read..]);
      !b.Panic? && SectorTurn(image, inflate, block, offs, j, read, out) == Done(b.result, Splice(out, read, b.out))
  {
  }

  method Read(a: Archive, inflate: Inflater, f: File, out: array<uint8>) returns (r: Result<nat>)
    requires !FileRead(a, inflate, f, out[..]).Panic?
    modifies out
    ensures var spec := FileRead(a, inflate, f, old(out[..]));
      r == spec.result && out[..] == spec.out
  {
    var block := a.blockTable[a.hashTable[f.index].blockIndex];
    if HasFlag(block.flags, PatchFile) {
      return Err(PatchUnsupported);
    } else if HasFlag(block.flags, SingleUnit) {
      assert out[..] == out[0..];
      r := ReadBlock(a.image, inflate, block.packedSize, a.offset, block, out, 0);
    } else {
      r := ReadBlocks(a, inflate, block, out);
    }
  }
}

module MpqFileLemmas {
  import opened Bytes
  import opened Io
  import opened Records
  import opened Crypt
  import opened Compression
  import opened MpqArchive
  import opened MpqFile

  // ------------------------------------------------------------------- size

  /// `File::size` of a file of an opened archive: the block index is the
  /// u32 at byte 12 of the file's 16-byte entry in the decrypted hash table,
  /// and the size is the u32 at byte 8 of that block's 16-byte entry in the
  /// decrypted block table.
  lemma SizeFromTables(p: Primitives, image: seq<uint8>, f: File)
    requires ShiftInRange(image) && ArchiveOf(p, image).Ok? && Resolves(ArchiveOf(p, image).value, f)
    ensures var a := ArchiveOf(p, image).value;
      && a.offset + HeaderSize <= |image| && TablesFit(image, a.offset)
      && EntrySize * f.index + EntrySize <= |PlainHashTable(p, image, a.offset)|
      && a.hashTable[f.index].blockIndex == U32At(PlainHashTable(p, image, a.offset), EntrySize * f.index + 12)
      && EntrySize * a.hashTable[f.index].blockIndex + EntrySize <= |PlainBlockTable(p, image, a.offset)|
      && Size(a, f) == U32At(PlainBlockTable(p, image, a.offset), EntrySize * a.hashTable[f.index].blockIndex + 8)
  {
    var a := ArchiveOf(p, image).value;
    OpenLayout(p, image);
    var hashPlain := PlainHashTable(p, image, a.offset);
    var blockPlain := PlainBlockTable(p, image, a.offset);
    var j := a.hashTable[f.index].blockIndex;
    U32AtSlice(hashPlain, EntrySize * f.index, 12);
    U32AtSlice(blockPlain, EntrySize * j, 8);
  }

  // ------------------------------------------------------------- one block

  /// `read_block` fails before looking at anything else when its bytes are
  /// not in the image; then encryption is refused before implosion.
  lemma BlockReadErrors(image: seq<uint8>, inflate: Inflater, buffSize: nat, offset: nat,
                        block: BlockEntry, out: seq<uint8>)
    ensures var r := BlockRead(image, inflate, buffSize, offset, block, out);
      && (!Fits(image, block.offset + offset, buffSize) ==> r == Done(Err(EofError), out))
      && (Fits(image, block.offset + offset, buffSize) && HasFlag(block.flags, Encrypted) ==>
            r == Done(Err(EncryptionUnsupported), out))
      && (Fits(image, block.offset + offset, buffSize) && !HasFlag(block.flags, Encrypted) && HasFlag(block.flags, Implode) ==>
            r == Done(Err(ImplodeUnsupported), out))
  {
  }

  /// A stored block: as many of its bytes as fit go to the front of `out`,
  /// and the block's unpacked size is reported whatever was copied.
  lemma StoredBlock(image: seq<uint8>, inflate: Inflater, buffSize: nat, offset: nat,
                    block: BlockEntry, out: seq<uint8>)
    requires block.offset + offset + buffSize <= |image|
    requires !HasFlag(block.flags, Encrypted) && !HasFlag(block.flags, Implode) && !HasFlag(block.flags, Compress)
    ensures var pos := block.offset + offset;
      var n := Min(|out|, buffSize);
      BlockRead(image, inflate, buffSize, offset, block, out)
      == Done(Ok(block.unpackedSize), image[pos..pos + n] + out[n..])
  {
    var pos := block.offset + offset;
    var n := Min(|out|, buffSize);
    if buffSize > 0 {
      assert image[pos..pos + buffSize][..n] == image[pos..pos + n];
    }
  }

  /// A compressed block is handed whole to `decompress`; an empty one makes
  /// `decompress` index past the end.
  lemma CompressedBlock(image: seq<uint8>, inflate: Inflater, buffSize: nat, offset: nat,
                        block: BlockEntry, out: seq<uint8>)
    requires block.offset + offset + buffSize <= |image|
    requires !HasFlag(block.flags, Encrypted) && !HasFlag(block.flags, Implode) && HasFlag(block.flags, Compress)
    ensures var pos := block.offset + offset;
      var r := BlockRead(image, inflate, buffSize, offset, block, out);
      if buffSize == 0 then r == Panic
      else
        var d := Decompress(inflate, image[pos..pos + buffSize], out);
        r == Done(Ok(d.total), d.out)
  {
  }

  // ------------------------------------------------------------- dispatch

  /// `File::read` refuses patch files whatever their other flags, reads a
  /// single-unit file as one block of `packed_size` bytes at the archive's
  /// offset, and any other file sector by sector.
  lemma FileReadDispatch(a: Archive, inflate: Inflater, f: File, out: seq<uint8>)
    requires Resolves(a, f)
    ensures var block := BlockOf(a, f);
      var r := FileRead(a, inflate, f, out);
      && (HasFlag(block.flags, PatchFile) ==> r == Done(Err(PatchUnsupported), out))
      && (!HasFlag(block.flags, PatchFile) && HasFlag(block.flags, SingleUnit) ==>
            r == BlockRead(a.image, inflate, block.packedSize, a.offset, block, out))
      && (!HasFlag(block.flags, PatchFile) && !HasFlag(block.flags, SingleUnit) ==>
            r == BlocksRead(a, inflate, block, out))
  {
  }

  /// A file whose hash or block entry is missing makes `read` index out of
  /// range.
  lemma UnresolvedPanics(a: Archive, inflate: Inflater, f: File, out: seq<uint8>)
    requires !Resolves(a, f)
    ensures FileRead(a, inflate, f, out) == Panic
  {
  }

  /// Reading a stored single-unit file into a buffer of its size fills the
  /// buffer with the bytes stored for it and reports that size.
  lemma SingleUnitStored(a: Archive, inflate: Inflater, f: File, out: seq<uint8>)
    requires Resolves(a, f)
    requires var block := BlockOf(a, f);
      && HasFlag(block.flags, SingleUnit) && !HasFlag(block.flags, PatchFile)
      && !HasFlag(block.flags, Encrypted) && !HasFlag(block.flags, Implode) && !HasFlag(block.flags, Compress)
      && |out| == Size(a, f) <= block.packedSize
      && block.offset + a.offset + block.packedSize <= |a.image|
    ensures var pos := BlockOf(a, f).offset + a.offset;
      FileRead(a, inflate, f, out) == Done(Ok(Size(a, f)), a.image[pos..pos + |out|])
  {
    var block := BlockOf(a, f);
    StoredBlock(a.image, inflate, block.packedSize, a.offset, block, out);
  }

  // ---------------------------------------------------------------- sectors

  /// Every uncompressed sector reports the whole file's `unpacked_size`, so
  /// in a buffer of the file's size the running total passes the end of the
  /// buffer after two sectors, and the third sector's `out_buf[read..]`
  /// panics.
  lemma UncompressedSectorsOverrun(image: seq<uint8>, inflate: Inflater, block: BlockEntry,
                                   offs: seq<uint32>, out: seq<uint8>)
    requires |offs| >= 4 && offs[0] <= offs[1] <= offs[2] <= offs[3] && block.offset + offs[3] <= |image|
    requires !HasFlag(block.flags, Encrypted) && !HasFlag(block.flags, Implode) && !HasFlag(block.flags, Compress)
    requires |out| == block.unpackedSize > 0
    ensures SectorsFrom(image, inflate, block, offs, 0, 0, out) == Panic
  {
    var size: nat := block.unpackedSize;
    var first := StoredSectorTurn(image, inflate, block, offs, 0, 0, out);
    SectorStep(image, inflate, block, offs, 0, 0, out);
    var second := StoredSectorTurn(image, inflate, block, offs, 1, size, first);
    SectorStep(image, inflate, block, offs, 1, size, first);
    SectorStep(image, inflate, block, offs, 2, size + size, second);
  }

  /// An uncompressed sector in the image reports the block's unpacked size.
  lemma StoredSectorTurn(image: seq<uint8>, inflate: Inflater, block: BlockEntry,
                         offs: seq<uint32>, j: nat, read: nat, out: seq<uint8>) returns (o: seq<uint8>)
    requires j < |offs| - 1 && offs[j] <= offs[j + 1] && block.offset + offs[j + 1] <= |image| && read <= |out|
    requires !HasFlag(block.flags, Encrypted) && !HasFlag(block.flags, Implode) && !HasFlag(block.flags, Compress)
    ensures |o| == |out| && SectorTurn(image, inflate, block, offs, j, read, out) == Done(Ok(block.unpackedSize), o)
  {
    StoredBlock(image, inflate, offs[j + 1] - offs[j], offs[j], block, out[read..]);
    o := SectorTurn(image, inflate, block, offs, j, read, out).out;
  }

  /// A sectored file needs a non-zero sector size, and its offset table of
  /// `unpacked_size / sector_size + 2` entries must be in the image.
  lemma SectorTableNeeded(a: Archive, inflate: Inflater, block: BlockEntry, out: seq<uint8>)
    ensures a.sectorSize == 0 ==> BlocksRead(a, inflate, block, out) == Panic
    ensures a.sectorSize > 0 && !Fits(a.image, block.offset + a.offset, 4 * (block.unpackedSize / a.sectorSize + 2)) ==>
      BlocksRead(a, inflate, block, out) == Done(Err(EofError), out)
  {
  }

  /// Sector `j` is non-empty, lies in the image, and has the zlib bit in
  /// its method byte.
  ghost predicate ZlibSector(image: seq<uint8>, block: BlockEntry, offs: seq<uint32>, j: nat)
    requires j < |offs| - 1
  {
    && offs[j] < offs[j + 1]
    && block.offset + offs[j + 1] <= |image|
    && HasMethod(image[block.offset + offs[j]], Zlib)
  }

  ghost predicate ZlibSectorsFrom(image: seq<uint8>, block: BlockEntry, offs: seq<uint32>, i: nat)
  {
    forall j: nat :: i <= j < |offs| - 1 ==> ZlibSector(image, block, offs, j)
  }

  /// The bytes sector `j` inflates to.
  ghost function InflatedSector(image: seq<uint8>, inflate: Inflater, block: BlockEntry, offs: seq<uint32>, j: nat): seq<uint8>
    requires j < |offs| - 1 && ZlibSector(image, block, offs, j)
  {
    inflate(image[block.offset + offs[j] + 1..block.offset + offs[j + 1]])
  }

  /// What each zlib sector inflates to, sector by sector.
  ghost function InflatedSectors(image: seq<uint8>, inflate: Inflater, block: BlockEntry, offs: seq<uint32>): (r: seq<seq<uint8>>)
    ensures |offs| > 0 ==> |r| == |offs| - 1
    ensures forall j :: 0 <= j < |offs| - 1 && ZlibSector(image, block, offs, j) ==> r[j] == InflatedSector(image, inflate, block, offs, j)
  {
    if |offs| == 0 then []
    else seq(|offs| - 1, j => if 0 <= j < |offs| - 1 && ZlibSector(image, block, offs, j) then InflatedSector(image, inflate, block, offs, j) else [])
  }

  /// `parts[i] + parts[i + 1] + ...`.
  function ConcatFrom(parts: seq<seq<uint8>>, i: nat): seq<uint8>
    decreases |parts| - i
  {
    if i >= |parts| then [] else parts[i] + ConcatFrom(parts, i + 1)
  }

  /// What the sectors from `i` on inflate to, one after the other.
  ghost function InflatedFrom(image: seq<uint8>, inflate: Inflater, block: BlockEntry, offs: seq<uint32>, i: nat): seq<uint8>
  {
    ConcatFrom(InflatedSectors(image, inflate, block, offs), i)
  }

  /// The block flags of a compressed file the reader can handle.
  predicate CompressedOnly(flags: nat)
  {
    HasFlag(flags, Compress) && !HasFlag(flags, Encrypted) && !HasFlag(flags, Implode)
  }

  /// The sectors from `i` on are zlib sectors and what they inflate to fits
  /// in `out` from `read` on.
  ghost predicate ZlibFits(image: seq<uint8>, inflate: Inflater, block: BlockEntry, offs: seq<uint32>,
                           i: nat, read: nat, out: seq<uint8>)
  {
    && i < |offs|
    && ZlibSectorsFrom(image, block, offs, i)
    && read + |InflatedFrom(image, inflate, block, offs, i)| <= |out|
  }

  /// `out` with `data` written into it from `read` on.
  function Written(out: seq<uint8>, read: nat, data: seq<uint8>): (r: seq<uint8>)
    requires read + |data| <= |out|
    ensures |r| == |out|
  {
    out[..read] + data + out[read + |data|..]
  }

  /// Writing `chunk` at `read` and then `rest` right after it writes
  /// `chunk + rest` at `read`.
  lemma WriteTwice(out: seq<uint8>, read: nat, chunk: seq<uint8>, rest: seq<uint8>)
    requires read + |chunk| + |rest| <= |out|
    ensures Written(Written(out, read, chunk), read + |chunk|, rest) == Written(out, read, chunk + rest)
  {
    var next := Written(out, read, chunk);
    assert next[..read + |chunk|] == out[..read] + chunk;
    assert next[read + |chunk| + |rest|..] == out[read + |chunk| + |rest|..];
  }

  /// From sector `j`, `turn` writes `part` at the current position and
  /// reports its length.
  ghost predicate TurnWrites(turn: Turn, j: nat, part: seq<uint8>)
  {
    forall read: nat, out: seq<uint8> :: read + |part| <= |out| ==>
      turn(j, read, out) == Done(Ok(|part|), Written(out, read, part))
  }

  /// Every turn from `i` on writes its part.
  ghost predicate AllWrite(turn: Turn, parts: seq<seq<uint8>>, i: nat)
    decreases |parts| - i
  {
    i >= |parts| || (TurnWrites(turn, i, parts[i]) && AllWrite(turn, parts, i + 1))
  }

  /// A loop whose turn `j` writes `parts[j]` writes the parts one after the
  /// other and reports their total length.
  lemma {:induction false} LoopWritesParts(turn: Turn, parts: seq<seq<uint8>>, i: nat, read: nat, out: seq<uint8>)
    requires i <= |parts| && AllWrite(turn, parts, i)
    requires read + |ConcatFrom(parts, i)| <= |out|
    ensures var all := ConcatFrom(parts, i);
      Loop(turn, |parts|, i, read, out) == Done(Ok(read + |all|), Written(out, read, all))
    decreases |parts| - i
  {
    if i == |parts| {
      assert Written(out, read, []) == out;
    } else {
      var part := parts[i];
      var rest := ConcatFrom(parts, i + 1);
      LoopWritesParts(turn, parts, i + 1, read + |part|, Written(out, read, part));
      WriteTwice(out, read, part, rest);
    }
  }

  /// A zlib sector that fits is inflated into the buffer at `read`.
  lemma ZlibSectorTurn(image: seq<uint8>, inflate: Inflater, block: BlockEntry,
                       offs: seq<uint32>, j: nat, read: nat, out: seq<uint8>)
    requires j < |offs| - 1 && ZlibSector(image, block, offs, j) && CompressedOnly(block.flags)
    requires read + |InflatedSector(image, inflate, block, offs, j)| <= |out|
    ensures var chunk := InflatedSector(image, inflate, block, offs, j);
      SectorTurn(image, inflate, block, offs, j, read, out) == Done(Ok(|chunk|), Written(out, read, chunk))
  {
    var pos := block.offset + offs[j];
    var data := image[pos..block.offset + offs[j + 1]];
    var chunk := InflatedSector(image, inflate, block, offs, j);
    assert data[1..] == image[pos + 1..block.offset + offs[j + 1]];
    var o := chunk + out[read + |chunk|..];
    assert out[read..][|chunk|..] == out[read + |chunk|..];
    assert Decompress(inflate, data, out[read..]) == Decompressed(|chunk|, o);
    assert BlockRead(image, inflate, offs[j + 1] - offs[j], offs[j], block, out[read..]) == Done(Ok(|chunk|), o);
    assert Splice(out, read, o) == Written(out, read, chunk);
  }

  lemma ZlibSectorWrites(image: seq<uint8>, inflate: Inflater, block: BlockEntry, offs: seq<uint32>, j: nat)
    requires CompressedOnly(block.flags) && j < |offs| - 1 && ZlibSector(image, block, offs, j)
    ensures TurnWrites(SectorTurns(image, inflate, block, offs), j, InflatedSectors(image, inflate, block, offs)[j])
  {
    var turn := SectorTurns(image, inflate, block, offs);
    var part := InflatedSectors(image, inflate, block, offs)[j];
    forall read: nat, out: seq<uint8> | read + |part| <= |out|
      ensures turn(j, read, out) == Done(Ok(|part|), Written(out, read, part))
    {
      ZlibSectorTurn(image, inflate, block, offs, j, read, out);
    }
  }

  /// When every sector is zlib-compressed and everything they inflate to
  /// fits, the sectors are inflated one after the other into the buffer
  /// from position `read` on, and the count reported is the total.
  lemma ZlibSectorsAssemble(image: seq<uint8>, inflate: Inflater, block: BlockEntry,
                            offs: seq<uint32>, i: nat, read: nat, out: seq<uint8>)
    requires CompressedOnly(block.flags) && ZlibFits(image, inflate, block, offs, i, read, out)
    ensures var inflated := InflatedFrom(image, inflate, block, offs, i);
      SectorsFrom(image, inflate, block, offs, i, read, out) == Done(Ok(read + |inflated|), Written(out, read, inflated))
  {
    ZlibSectorsWrite(image, inflate, block, offs, i);
    SectorsWriteParts(image, inflate, block, offs, i, read, out);
  }

  /// The sector loop from `i` on, once every turn is known to write what
  /// its sector inflates to.
  lemma SectorsWriteParts(image: seq<uint8>, inflate: Inflater, block: BlockEntry,
                          offs: seq<uint32>, i: nat, read: nat, out: seq<uint8>)
    requires i < |offs| && read + |ConcatFrom(InflatedSectors(image, inflate, block, offs), i)| <= |out|
    requires AllWrite(SectorTurns(image, inflate, block, offs), InflatedSectors(image, inflate, block, offs), i)
    ensures var inflated := ConcatFrom(InflatedSectors(image, inflate, block, offs), i);
      SectorsFrom(image, inflate, block, offs, i, read, out) == Done(Ok(read + |inflated|), Written(out, read, inflated))
  {
    var parts := InflatedSectors(image, inflate, block, offs);
    assert |parts| == |offs| - 1;
    LoopWritesParts(SectorTurns(image, inflate, block, offs), parts, i, read, out);
  }

  /// Every zlib sector from `i` on writes what it inflates to.
  lemma ZlibSectorsWrite(image: seq<uint8>, inflate: Inflater, block: BlockEntry, offs: seq<uint32>, i: nat)
    requires CompressedOnly(block.flags) && ZlibSectorsFrom(image, block, offs, i)
    ensures AllWrite(SectorTurns(image, inflate, block, offs), InflatedSectors(image, inflate, block, offs), i)
    decreases |offs| - i
  {
    var parts := InflatedSectors(image, inflate, block, offs);
    if i < |parts| {
      ZlibSectorWrites(image, inflate, block, offs, i);
      ZlibSectorsWrite(image, inflate, block, offs, i + 1);
    }
  }

  /// A sectored file whose sectors are all zlib-compressed reads as the
  /// concatenation of what they inflate to, when that fits the buffer.
  lemma ZlibBlocksRead(a: Archive, inflate: Inflater, block: BlockEntry, offs: seq<uint32>, out: seq<uint8>)
    requires a.sectorSize > 0 && SectorOffsets(a, block) == Ok(offs) && CompressedOnly(block.flags)
    requires ZlibFits(a.image, inflate, block, offs, 0, 0, out)
    ensures var inflated := InflatedFrom(a.image, inflate, block, offs, 0);
      BlocksRead(a, inflate, block, out) == Done(Ok(|inflated|), inflated + out[|inflated|..])
  {
    BlocksReadSectors(a, inflate, block, offs, out);
    ZlibSectorsAssemble(a.image, inflate, block, offs, 0, 0, out);
    WrittenFromStart(out, InflatedFrom(a.image, inflate, block, offs, 0));
  }

  /// Once the offset table is read, `read_blocks` is its sector loop from
  /// sector 0 with nothing read.
  lemma BlocksReadSectors(a: Archive, inflate: Inflater, block: BlockEntry, offs: seq<uint32>, out: seq<uint8>)
    requires a.sectorSize > 0 && SectorOffsets(a, block) == Ok(offs)
    ensures BlocksRead(a, inflate, block, out) == SectorsFrom(a.image, inflate, block, offs, 0, 0, out)
  {
  }

  lemma WrittenFromStart(out: seq<uint8>, data: seq<uint8>)
    requires |data| <= |out|
    ensures Written(out, 0, data) == data + out[|data|..]
  {
  }
}
