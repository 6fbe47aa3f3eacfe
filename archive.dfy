/// Opening an MPQ archive and looking a file name up in it (src/archive.rs,
/// `Archive::open` and `Archive::open_file`). The archive file is an
/// immutable byte image; seeking and `read_exact` are bounds-checked slices.
module MpqArchive {
  import opened Bytes
  import opened Io
  import opened Crypt
  import opened Records

  /// The header signature is looked for at every multiple of this step.
  const ScanStep := 0x200

  const IdMpqA: seq<uint8> := [0x4D, 0x50, 0x51, 0x1A]  // "MPQ\x1A", the archive header
  const IdMpqB: seq<uint8> := [0x4D, 0x50, 0x51, 0x1B]  // "MPQ\x1B", the user-data header

  /// The names whose hashes are the keys of the two tables.
  const HashTableName := "(hash table)"
  const BlockTableName := "(block table)"

  const NotAnArchive := Error(InvalidData, "Not a valid MPQ archive")

  predicate StartsWith(buffer: seq<uint8>, id: seq<uint8>)
  {
    |id| <= |buffer| && buffer[..|id|] == id
  }

  /// The 44-byte header window at `pos`.
  function Window(image: seq<uint8>, pos: nat): Result<seq<uint8>>
  {
    ReadExact(image, pos, HeaderSize)
  }

  // ----------------------------------------------------------- signature scan

  /// After a user-data header, the window `header_offset` bytes further on
  /// must hold the archive header.
  function FollowRedirect(image: seq<uint8>, target: nat): Result<nat>
  {
    match Window(image, target)
    case Err(e) => Err(e)
    case Ok(next) => if StartsWith(next, IdMpqA) then Ok(target) else Err(NotAnArchive)
  }

  /// The scan loop of `Archive::open`, from `offset` on: the position of the
  /// archive header, or the error that ends the scan.
  function ScanFrom(image: seq<uint8>, offset: nat): (r: Result<nat>)
    ensures r.Ok? ==> r.value + HeaderSize <= |image| && StartsWith(image[r.value..r.value + HeaderSize], IdMpqA)
    decreases |image| - offset
  {
    match Window(image, offset)
    case Err(e) => Err(e)
    case Ok(buffer) =>
      if StartsWith(buffer, IdMpqA) then Ok(offset)
      else if StartsWith(buffer, IdMpqB) then FollowRedirect(image, offset + DecodeUserDataHeader(buffer).headerOffset)
      else ScanFrom(image, offset + ScanStep)
  }

  function Scan(image: seq<uint8>): Result<nat>
  {
    ScanFrom(image, 0)
  }

  /// Candidate `k` (the window at `k * 0x200`) is read in full and starts
  /// with neither signature, so the scan moves past it.
  ghost predicate Skipped(image: seq<uint8>, k: nat)
  {
    var pos := k * ScanStep;
    pos + HeaderSize <= |image|
    && !StartsWith(image[pos..pos + HeaderSize], IdMpqA)
    && !StartsWith(image[pos..pos + HeaderSize], IdMpqB)
  }

  /// The scan tries the candidates 0, 0x200, 0x400, ... in order.
  lemma {:induction false} ScanSkipsCandidates(image: seq<uint8>, k: nat)
    requires forall j :: 0 <= j < k ==> Skipped(image, j)
    ensures Scan(image) == ScanFrom(image, k * ScanStep)
  {
    if k > 0 {
      ScanSkipsCandidates(image, k - 1);
      var pos := (k - 1) * ScanStep;
      assert Skipped(image, k - 1);
      assert pos + ScanStep == k * ScanStep;
    }
  }

  /// What the scan returns at the first candidate that is not skipped: an
  /// error if the window runs past the end of the image, the candidate if it
  /// holds the archive header, and the redirect's outcome if it holds a
  /// user-data header.
  lemma ScanStopsAtFirstCandidate(image: seq<uint8>, k: nat)
    requires forall j :: 0 <= j < k ==> Skipped(image, j)
    requires !Skipped(image, k)
    ensures var pos := k * ScanStep;
      if pos + HeaderSize > |image| then Scan(image) == Err(EofError)
      else
        var window := image[pos..pos + HeaderSize];
        if StartsWith(window, IdMpqA) then Scan(image) == Ok(pos)
        else Scan(image) == FollowRedirect(image, pos + DecodeUserDataHeader(window).headerOffset)
  {
    ScanSkipsCandidates(image, k);
  }

  /// A header found through a redirect lies `header_offset` bytes after a
  /// user-data header; one found directly lies on a multiple of 0x200.
  lemma {:induction false} ScanResultPosition(image: seq<uint8>, offset: nat)
    requires offset % ScanStep == 0
    requires ScanFrom(image, offset).Ok?
    ensures var pos := ScanFrom(image, offset).value;
      || (pos % ScanStep == 0 && offset <= pos)
      || exists k: nat :: (offset <= k * ScanStep && k * ScanStep + HeaderSize <= |image|
           && StartsWith(image[k * ScanStep..k * ScanStep + HeaderSize], IdMpqB)
           && pos == k * ScanStep + DecodeUserDataHeader(image[k * ScanStep..k * ScanStep + HeaderSize]).headerOffset)
    decreases |image| - offset
  {
    var buffer := image[offset..offset + HeaderSize];
    if !StartsWith(buffer, IdMpqA) && StartsWith(buffer, IdMpqB) {
      var k := offset / ScanStep;
      assert k * ScanStep == offset;
    } else if !StartsWith(buffer, IdMpqA) {
      ScanResultPosition(image, offset + ScanStep);
    }
  }

  // ------------------------------------------------------------------ opening

  datatype Archive = Archive(
    image: seq<uint8>,
    header: Header,
    hashTable: seq<HashEntry>,
    blockTable: seq<BlockEntry>,
    sectorSize: uint32,
    offset: nat)

  function Pow2(n: nat): nat
  {
    if n == 0 then 1 else 2 * Pow2(n - 1)
  }

  /// `512 << shift` on a u32: bits moved past bit 31 are lost.
  function SectorSize(shift: nat): uint32
    requires shift < 32
  {
    (0x200 * Pow2(shift)) % 0x1_0000_0000
  }

  lemma {:induction false} Pow2Add(a: nat, b: nat)
    ensures Pow2(a + b) == Pow2(a) * Pow2(b)
  {
    if a > 0 {
      Pow2Add(a - 1, b);
      assert a + b == (a - 1 + b) + 1;
      DoubleProduct(Pow2(a - 1), Pow2(b));
    }
  }

  lemma DoubleProduct(x: nat, y: nat)
    ensures 2 * (x * y) == (2 * x) * y
  {
  }

  lemma {:induction false} Pow2Monotone(a: nat, b: nat)
    requires a <= b
    ensures Pow2(a) <= Pow2(b)
  {
    if a < b {
      Pow2Monotone(a, b - 1);
    }
  }

  lemma Pow2Constants()
    ensures Pow2(22) == 0x40_0000 && Pow2(23) == 0x80_0000
  {
    assert Pow2(3) == 8;
    assert Pow2(2) == 4;
    Pow2Add(2, 3);
    Pow2Add(5, 5);
    Pow2Add(1, 10);
    Pow2Add(11, 11);
    Pow2Add(1, 22);
  }

  /// Shifts up to 22 give `512 * 2^shift`; shifts 23 to 31 push the only set
  /// bit out of the word, and the sector size is 0.
  lemma SectorSizeValue(shift: nat)
    requires shift < 32
    ensures shift <= 22 ==> SectorSize(shift) == 0x200 * Pow2(shift) && SectorSize(shift) >= 0x200
    ensures shift >= 23 ==> SectorSize(shift) == 0
  {
    Pow2Constants();
    if shift <= 22 {
      Pow2Monotone(0, shift);
      Pow2Monotone(shift, 22);
      SectorSizeInRange(shift);
    } else {
      Pow2Add(23, shift - 23);
      SectorSizeWraps(shift, Pow2(shift - 23));
    }
  }

  lemma SectorSizeInRange(shift: nat)
    requires shift <= 22 && 1 <= Pow2(shift) <= 0x40_0000
    ensures SectorSize(shift) == 0x200 * Pow2(shift)
  {
    assert 0x200 <= 0x200 * Pow2(shift) < 0x1_0000_0000;
  }

  lemma SectorSizeWraps(shift: nat, k: nat)
    requires 23 <= shift < 32 && Pow2(shift) == 0x80_0000 * k
    ensures SectorSize(shift) == 0
  {
    assert 0x200 * Pow2(shift) == 0x1_0000_0000 * k;
    WholeWords(k);
  }

  /// A whole number of 2^32 leaves nothing in a u32.
  lemma WholeWords(k: nat)
    ensures (0x1_0000_0000 * k) % 0x1_0000_0000 == 0
  {
  }

  function HeaderAt(image: seq<uint8>, offset: nat): Header
    requires offset + HeaderSize <= |image|
  {
    DecodeHeader(image[offset..offset + HeaderSize])
  }

  /// The `count` records at `pos`, read and decrypted under the key
  /// `hash_string(name, 0x300)`.
  function TableBytes(p: Primitives, image: seq<uint8>, pos: nat, count: nat, name: string): (r: Result<seq<uint8>>)
    ensures r.Ok? <==> Fits(image, pos, EntrySize * count)
    ensures r.Ok? ==> |r.value| == EntrySize * count
  {
    match ReadExact(image, pos, EntrySize * count)
    case Err(e) => Err(e)
    case Ok(raw) => Ok(p.decrypt(raw, p.hashString(name, HashFileKey)))
  }

  /// Both tables of the header found at `offset` lie inside the image.
  predicate TablesFit(image: seq<uint8>, offset: nat)
    requires offset + HeaderSize <= |image|
  {
    TablesFitFor(image, HeaderAt(image, offset), offset)
  }

  /// Both tables of header `h`, at their offsets from `offset`, lie inside
  /// the image.
  predicate TablesFitFor(image: seq<uint8>, h: Header, offset: nat)
  {
    && Fits(image, h.hashTableOffset + offset, EntrySize * h.hashTableCount)
    && Fits(image, h.blockTableOffset + offset, EntrySize * h.blockTableCount)
  }

  /// `512 << sector_size_shift` does not overflow its shift amount once both
  /// tables are read: what `Archive::open` demands of the file.
  predicate ShiftInRange(image: seq<uint8>)
  {
    match Scan(image)
    case Err(_) => true
    case Ok(offset) => TablesFit(image, offset) ==> HeaderAt(image, offset).sectorSizeShift < 32
  }

  /// The archive `Archive::open` builds from an image.
  function ArchiveOf(p: Primitives, image: seq<uint8>): Result<Archive>
    requires ShiftInRange(image)
  {
    match Scan(image)
    case Err(e) => Err(e)
    case Ok(offset) => ArchiveAt(p, image, offset)
  }

  /// The archive whose header was found at `offset`.
  function ArchiveAt(p: Primitives, image: seq<uint8>, offset: nat): Result<Archive>
    requires offset + HeaderSize <= |image|
    requires TablesFit(image, offset) ==> HeaderAt(image, offset).sectorSizeShift < 32
  {
    ArchiveFrom(p, image, HeaderAt(image, offset), offset)
  }

  /// The archive built from `header`, found at `offset`: both tables are
  /// read and decrypted, the hash table first.
  function ArchiveFrom(p: Primitives, image: seq<uint8>, header: Header, offset: nat): Result<Archive>
    requires TablesFitFor(image, header, offset) ==> header.sectorSizeShift < 32
  {
    match TableBytes(p, image, header.hashTableOffset + offset, header.hashTableCount, HashTableName)
    case Err(e) => Err(e)
    case Ok(hashPlain) =>
      match TableBytes(p, image, header.blockTableOffset + offset, header.blockTableCount, BlockTableName)
      case Err(e) => Err(e)
      case Ok(blockPlain) =>
        Ok(Archive(image, header,
                   HashTable(hashPlain, header.hashTableCount),
                   BlockTable(blockPlain, header.blockTableCount),
                   SectorSize(header.sectorSizeShift), offset))
  }

  /// The signature scan of `Archive::open`: probe every 0x200 bytes, follow
  /// a user-data header to the archive header it points to.
  method FindHeader(image: seq<uint8>) returns (r: Result<nat>)
    ensures r == Scan(image)
  {
    var offset: nat := 0;
    while true
      invariant ScanFrom(image, offset) == Scan(image)
      decreases |image| - offset
    {
      var read := ReadExact(image, offset, HeaderSize);
      if read.Err? {
        return Err(read.error);
      }
      var buffer := read.value;
      if StartsWith(buffer, IdMpqA) {
        return Ok(offset);
      }
      if StartsWith(buffer, IdMpqB) {
        var userDataHeader := DecodeUserDataHeader(buffer);
        offset := offset + userDataHeader.headerOffset;
        read := ReadExact(image, offset, HeaderSize);
        if read.Err? {
          return Err(read.error);
        }
        buffer := read.value;
        if !StartsWith(buffer, IdMpqA) {
          return Err(NotAnArchive);
        }
        return Ok(offset);
      }
      offset := offset + ScanStep;
    }
  }

  /// The loop that pushes one decoded hash entry per 16 bytes.
  method DecodeHashTable(buff: seq<uint8>, count: nat) returns (table: seq<HashEntry>)
    requires |buff| == EntrySize * count
    ensures table == HashTable(buff, count)
  {
    table := [];
    for x := 0 to count
      invariant |table| == x
      invariant forall j :: 0 <= j < x ==> table[j] == DecodeHash(buff[EntrySize * j..])
    {
      table := table + [DecodeHash(buff[EntrySize * x..])];
    }
  }

  method DecodeBlockTable(buff: seq<uint8>, count: nat) returns (table: seq<BlockEntry>)
    requires |buff| == EntrySize * count
    ensures table == BlockTable(buff, count)
  {
    table := [];
    for x := 0 to count
      invariant |table| == x
      invariant forall j :: 0 <= j < x ==> table[j] == DecodeBlock(buff[EntrySize * j..])
    {
      table := table + [DecodeBlock(buff[EntrySize * x..])];
    }
  }

  /// `Archive::open`: scan for the header, then read, decrypt and decode the
  /// hash and block tables at their offsets from the header.
  method Open(p: Primitives, image: seq<uint8>) returns (r: Result<Archive>)
    requires ShiftInRange(image)
    ensures r == ArchiveOf(p, image)
  {
    var found := FindHeader(image);
    if found.Err? {
      return Err(found.error);
    }
    var header := HeaderAt(image, found.value);
    r := LoadTables(p, image, header, found.value);
  }

  /// The part of `Archive::open` after `header` was found at `offset`.
  method LoadTables(p: Primitives, image: seq<uint8>, header: Header, offset: nat) returns (r: Result<Archive>)
    requires TablesFitFor(image, header, offset) ==> header.sectorSizeShift < 32
    ensures r == ArchiveFrom(p, image, header, offset)
  {
    var hashBuff := ReadTable(p, image, header.hashTableOffset + offset, header.hashTableCount, HashTableName);
    if hashBuff.Err? {
      return Err(hashBuff.error);
    }
    var hashTable := DecodeHashTable(hashBuff.value, header.hashTableCount);
    var blockBuff := ReadTable(p, image, header.blockTableOffset + offset, header.blockTableCount, BlockTableName);
    if blockBuff.Err? {
      return Err(blockBuff.error);
    }
    var blockTable := DecodeBlockTable(blockBuff.value, header.blockTableCount);
    ArchiveFromOk(p, image, header, offset);
    var sectorSize := SectorSize(header.sectorSizeShift);
    r := Ok(Archive(image, header, hashTable, blockTable, sectorSize, offset));
    assert hashTable == HashTable(hashBuff.value, header.hashTableCount);
    assert blockTable == BlockTable(blockBuff.value, header.blockTableCount);
  }

  /// When both tables can be read, the archive is built from them.
  lemma ArchiveFromOk(p: Primitives, image: seq<uint8>, h: Header, offset: nat)
    requires TablesFitFor(image, h, offset) ==> h.sectorSizeShift < 32
    requires && TableBytes(p, image, h.hashTableOffset + offset, h.hashTableCount, HashTableName).Ok?
             && TableBytes(p, image, h.blockTableOffset + offset, h.blockTableCount, BlockTableName).Ok?
    ensures TablesFitFor(image, h, offset) && h.sectorSizeShift < 32
    ensures ArchiveFrom(p, image, h, offset)
      == Ok(Archive(image, h,
                    HashTable(TableBytes(p, image, h.hashTableOffset + offset, h.hashTableCount, HashTableName).value, h.hashTableCount),
                    BlockTable(TableBytes(p, image, h.blockTableOffset + offset, h.blockTableCount, BlockTableName).value, h.blockTableCount),
                    SectorSize(h.sectorSizeShift), offset))
  {
  }

  /// Seek to a table, read it whole and decrypt it in place.
  method ReadTable(p: Primitives, image: seq<uint8>, pos: nat, count: nat, name: string) returns (r: Result<seq<uint8>>)
    ensures r == TableBytes(p, image, pos, count, name)
  {
    var read := ReadExact(image, pos, EntrySize * count);
    if read.Err? {
      return Err(read.error);
    }
    return Ok(p.decrypt(read.value, p.hashString(name, HashFileKey)));
  }

  /// Opening fails exactly when the scan fails or a table runs past the end
  /// of the image; a scan error is passed on unchanged.
  lemma OpenFails(p: Primitives, image: seq<uint8>)
    requires ShiftInRange(image)
    ensures ArchiveOf(p, image).Err? <==> Scan(image).Err? || !TablesFit(image, Scan(image).value)
    ensures Scan(image).Err? ==> ArchiveOf(p, image) == Err(Scan(image).error)
    ensures Scan(image).Ok? && !TablesFit(image, Scan(image).value) ==> ArchiveOf(p, image) == Err(EofError)
  {
  }

  /// Where an opened archive's parts come from: the header at the signature
  /// position, and table entry `x` decoded from bytes `16 * x` on of the
  /// decrypted table that starts `*_table_offset` bytes after the signature.
  lemma OpenLayout(p: Primitives, image: seq<uint8>)
    requires ShiftInRange(image) && ArchiveOf(p, image).Ok?
    ensures var a := ArchiveOf(p, image).value;
      && Scan(image) == Ok(a.offset)
      && a.image == image
      && a.offset + HeaderSize <= |image|
      && a.header == HeaderAt(image, a.offset)
      && TablesFit(image, a.offset)
      && a.header.sectorSizeShift < 32
      && a.sectorSize == SectorSize(a.header.sectorSizeShift)
      && EntriesFrom(a.hashTable, a.blockTable, PlainHashTable(p, image, a.offset), PlainBlockTable(p, image, a.offset), a.header)
  {
    var o := Scan(image).value;
    ArchiveAtHeader(p, image, o);
    ArchiveAtTables(p, image, o);
  }

  /// The decrypted bytes of the hash table of the header at `offset`.
  function PlainHashTable(p: Primitives, image: seq<uint8>, offset: nat): (r: seq<uint8>)
    requires offset + HeaderSize <= |image| && TablesFit(image, offset)
    ensures |r| == EntrySize * HeaderAt(image, offset).hashTableCount
  {
    var h := HeaderAt(image, offset);
    TableBytes(p, image, h.hashTableOffset + offset, h.hashTableCount, HashTableName).value
  }

  /// The decrypted bytes of the block table of the header at `offset`.
  function PlainBlockTable(p: Primitives, image: seq<uint8>, offset: nat): (r: seq<uint8>)
    requires offset + HeaderSize <= |image| && TablesFit(image, offset)
    ensures |r| == EntrySize * HeaderAt(image, offset).blockTableCount
  {
    var h := HeaderAt(image, offset);
    TableBytes(p, image, h.blockTableOffset + offset, h.blockTableCount, BlockTableName).value
  }

  /// Both tables have the header's entry counts, and entry `x` of each is
  /// decoded from bytes `16 * x` on of its decrypted table.
  ghost predicate EntriesFrom(hashTable: seq<HashEntry>, blockTable: seq<BlockEntry>,
                              hashPlain: seq<uint8>, blockPlain: seq<uint8>, h: Header)
    requires |hashPlain| == EntrySize * h.hashTableCount && |blockPlain| == EntrySize * h.blockTableCount
  {
    && |hashTable| == h.hashTableCount
    && |blockTable| == h.blockTableCount
    && (forall x :: 0 <= x < |hashTable| ==> hashTable[x] == DecodeHash(hashPlain[EntrySize * x..]))
    && (forall x :: 0 <= x < |blockTable| ==> blockTable[x] == DecodeBlock(blockPlain[EntrySize * x..]))
  }

  lemma ArchiveAtHeader(p: Primitives, image: seq<uint8>, o: nat)
    requires o + HeaderSize <= |image|
    requires TablesFit(image, o) ==> HeaderAt(image, o).sectorSizeShift < 32
    requires ArchiveAt(p, image, o).Ok?
    ensures var a := ArchiveAt(p, image, o).value;
      && a.offset == o
      && a.image == image
      && a.header == HeaderAt(image, o)
      && TablesFit(image, o)
      && a.header.sectorSizeShift < 32
      && a.sectorSize == SectorSize(a.header.sectorSizeShift)
  {
  }

  lemma ArchiveAtTables(p: Primitives, image: seq<uint8>, o: nat)
    requires o + HeaderSize <= |image|
    requires TablesFit(image, o) ==> HeaderAt(image, o).sectorSizeShift < 32
    requires ArchiveAt(p, image, o).Ok?
    ensures TablesFit(image, o)
    ensures var a := ArchiveAt(p, image, o).value;
      EntriesFrom(a.hashTable, a.blockTable, PlainHashTable(p, image, o), PlainBlockTable(p, image, o), HeaderAt(image, o))
  {
    var h := HeaderAt(image, o);
    var a := ArchiveAt(p, image, o).value;
    assert a.hashTable == HashTable(PlainHashTable(p, image, o), h.hashTableCount);
    assert a.blockTable == BlockTable(PlainBlockTable(p, image, o), h.blockTableCount);
  }

  // ------------------------------------------------------------------ lookup

  /// A file found by `open_file`: its name and its hash-table index.
  datatype File = File(name: string, index: nat)

  /// `hash_string(name, 0) & (hash_table_count - 1)`; the subtraction wraps
  /// around for an empty table.
  function StartIndex(p: Primitives, archive: Archive, name: string): nat
  {
    var mask: uint32 := (archive.header.hashTableCount - 1) % 0x1_0000_0000;
    BitAnd(p.hashString(name, HashTableOffset), mask)
  }

  predicate Matches(entry: HashEntry, hashA: uint32, hashB: uint32)
  {
    entry.hashA == hashA && entry.hashB == hashB
  }

  /// The probe loop of `open_file` from index `i` to the end of the table.
  function ProbeFrom(table: seq<HashEntry>, i: nat, hashA: uint32, hashB: uint32): Option<nat>
    decreases |table| - i
  {
    if i >= |table| then None
    else if Matches(table[i], hashA, hashB) then Some(i)
    else ProbeFrom(table, i + 1, hashA, hashB)
  }

  function Lookup(p: Primitives, archive: Archive, name: string): Result<File>
  {
    var hashA := p.hashString(name, HashNameA);
    var hashB := p.hashString(name, HashNameB);
    match ProbeFrom(archive.hashTable, StartIndex(p, archive, name), hashA, hashB)
    case Some(i) => Ok(File(name, i))
    case None => Err(Error(NotFound, name))
  }

  /// `Archive::open_file`.
  method OpenFile(p: Primitives, archive: Archive, name: string) returns (r: Result<File>)
    ensures r == Lookup(p, archive, name)
  {
    var startIndex := StartIndex(p, archive, name);
    var hashA := p.hashString(name, HashNameA);
    var hashB := p.hashString(name, HashNameB);
    var i := startIndex;
    while i < |archive.hashTable|
      invariant startIndex <= i
      invariant ProbeFrom(archive.hashTable, i, hashA, hashB) == ProbeFrom(archive.hashTable, startIndex, hashA, hashB)
      decreases |archive.hashTable| - i
    {
      var hash := archive.hashTable[i];
      if hash.hashA == hashA && hash.hashB == hashB {
        return Ok(File(name, i));
      }
      i := i + 1;
    }
    return Err(Error(NotFound, name));
  }

  /// The probe returns the first index from `start` on whose name hashes
  /// match, and nothing when no index from `start` to the end matches.
  lemma {:induction false} ProbeFindsFirstMatch(table: seq<HashEntry>, start: nat, hashA: uint32, hashB: uint32)
    ensures match ProbeFrom(table, start, hashA, hashB)
      case Some(i) =>
        && start <= i < |table| && Matches(table[i], hashA, hashB)
        && forall j :: start <= j < i ==> !Matches(table[j], hashA, hashB)
      case None => forall j :: start <= j < |table| ==> !Matches(table[j], hashA, hashB)
    decreases |table| - start
  {
    if start < |table| && !Matches(table[start], hashA, hashB) {
      ProbeFindsFirstMatch(table, start + 1, hashA, hashB);
    }
  }

  /// `open_file` succeeds exactly when some index between the start index
  /// and the end of the table (no wrap-around) matches both name hashes;
  /// the file holds the first such index and the name. Otherwise the error
  /// is NotFound with the name as its message.
  lemma LookupFirstMatch(p: Primitives, archive: Archive, name: string)
    ensures var start := StartIndex(p, archive, name);
      var hashA := p.hashString(name, HashNameA);
      var hashB := p.hashString(name, HashNameB);
      match Lookup(p, archive, name)
      case Ok(f) =>
        && f.name == name
        && start <= f.index < |archive.hashTable|
        && Matches(archive.hashTable[f.index], hashA, hashB)
        && forall j :: start <= j < f.index ==> !Matches(archive.hashTable[j], hashA, hashB)
      case Err(e) =>
        && e == Error(NotFound, name)
        && forall j :: start <= j < |archive.hashTable| ==> !Matches(archive.hashTable[j], hashA, hashB)
  {
    ProbeFindsFirstMatch(archive.hashTable, StartIndex(p, archive, name),
                         p.hashString(name, HashNameA), p.hashString(name, HashNameB));
  }

  /// The start index lies below the table count: masking with `count - 1`
  /// keeps only bits that are set in it.
  lemma StartIndexBelowCount(p: Primitives, archive: Archive, name: string)
    requires archive.header.hashTableCount > 0
    ensures StartIndex(p, archive, name) < archive.header.hashTableCount
  {
    BitAndBelowMask(p.hashString(name, HashTableOffset), archive.header.hashTableCount - 1);
  }

  /// Locale, platform and block index are not consulted: two tables that
  /// agree on the name hashes give the same lookup result.
  lemma {:induction false} ProbeIgnoresLocale(t: seq<HashEntry>, u: seq<HashEntry>, i: nat, hashA: uint32, hashB: uint32)
    requires |t| == |u|
    requires forall j :: 0 <= j < |t| ==> t[j].hashA == u[j].hashA && t[j].hashB == u[j].hashB
    ensures ProbeFrom(t, i, hashA, hashB) == ProbeFrom(u, i, hashA, hashB)
    decreases |t| - i
  {
    if i < |t| {
      ProbeIgnoresLocale(t, u, i + 1, hashA, hashB);
    }
  }

  lemma LookupIgnoresLocale(p: Primitives, a: Archive, b: Archive, name: string)
    requires a.header.hashTableCount == b.header.hashTableCount && |a.hashTable| == |b.hashTable|
    requires forall j :: 0 <= j < |a.hashTable| ==>
      a.hashTable[j].hashA == b.hashTable[j].hashA && a.hashTable[j].hashB == b.hashTable[j].hashB
    ensures Lookup(p, a, name) == Lookup(p, b, name)
  {
    ProbeIgnoresLocale(a.hashTable, b.hashTable, StartIndex(p, a, name),
                       p.hashString(name, HashNameA), p.hashString(name, HashNameB));
  }
}
