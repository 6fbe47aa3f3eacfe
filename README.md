# MPQ archive reader, modelled in Dafny

This project models the archive access core of a small MPQ reader written in
Rust. MPQ is the archive container format of several games. The model covers:

- the record decoders of `src/archive.rs`: the 44-byte archive header, the
  user-data header, and the 16-byte hash-table and block-table entries, all
  little-endian;
- `Archive::open`: the scan for the `MPQ\x1A` signature every 0x200 bytes,
  the `MPQ\x1B` user-data redirect, and reading, decrypting and decoding the
  hash and block tables at their offsets from the signature, and the sector
  size `512 << sector_size_shift` on a `u32`;
- `Archive::open_file`: the linear probe from the masked start index to the
  end of the hash table;
- `File::size`, `File::read`, `File::read_blocks` and `File::read_block`: flag
  dispatch, the sector offset table, the sector loop with its running total,
  and the in-place copy or decompression into the caller's buffer;
- `decompress` of `src/compression.rs`: the dispatch on the method byte of a
  compressed block, where only the zlib bit produces output;
- `Chain` of `src/chain.rs`: a list of archives searched front to back, where
  the archive added last is searched first, and `read_to_string`'s UTF-8 check.

The archive file is an immutable byte image (`seq<uint8>`). A seek followed
by `read_exact` is a bounds-checked slice that fails with `UnexpectedEof`
past the end of the image. The cipher and the string hash of the `crypt`
module are a pair of arbitrary functions (`Crypt.Primitives`), and the zlib
decoder is an arbitrary function from a stream to the bytes it inflates to
(`Compression.Inflater`). Every result holds for every choice of them.

Each read operation is specified by a function. The function gives the value
returned and the buffer afterwards, or `Panic` where the Rust code would
panic: an index out of range, a `u32` subtraction that underflows, a division
by zero, or `data[0]` on an empty block. The methods write into an `array`
in place, as the Rust code writes into `&mut [u8]`. Each is proved to return
and leave exactly what its function says, whenever that is not a panic.
`Chain` is a class whose `archives` field the methods reassign.
`Archive::open`'s scan loop and `open_file`'s probe loop are methods with
loop invariants, proved equal to recursive functions. `Archive::open`'s table
loops are proved equal to sequence comprehensions. Lemmas about those
functions state the behaviour.

Modules and files:

- `bytes.dfy` (`Bytes`): fixed-width integers and the little-endian readers and writers;
- `io.dfy` (`Io`): errors, results and `read_exact`;
- `crypt.dfy` (`Crypt`): the abstract cipher and hash;
- `compression.dfy` (`Compression`): `decompress`;
- `records.dfy` (`Records`): the four record decoders, their encoders and the tables;
- `archive.dfy` (`MpqArchive`): `Archive::open` and `open_file`;
- `file_read.dfy` (`MpqFile`, `MpqFileLemmas`): the read path;
- `utf8.dfy` (`Utf8`): well-formed UTF-8, the check `String::from_utf8` makes;
- `chain.dfy` (`MpqChain`): the archive chain.

## Model

| member | source | states |
|---|---|---|
| Bytes.U32Inverse | src/archive.rs:46-53 | a u32 written little-endian at byte `i` reads back as the same value |
| Bytes.U16Inverse | src/archive.rs:48-49 | a u16 written little-endian at byte `i` reads back as the same value |
| Bytes.U64Inverse | src/archive.rs:54 | a u64 written little-endian at byte `i` reads back as the same value |
| Bytes.U32Bytes | src/archive.rs:46-53 | writing back a u32 read at byte `i` gives the four bytes it was read from |
| Bytes.U16Bytes | src/archive.rs:48-49 | writing back a u16 read at byte `i` gives the two bytes it was read from |
| Bytes.U64Bytes | src/archive.rs:54 | writing back a u64 read at byte `i` gives the eight bytes it was read from |
| Bytes.BitAndBelowMask | src/archive.rs:216 | `x & mask` is at most `mask` |
| Bytes.Zeros | src/chain.rs:28 | `vec![0; n]` has length `n` and every byte 0 |
| Io.ReadExact | src/archive.rs:145-147 | a read of `n` bytes at `pos` succeeds exactly when it fits in the image (or `n` is 0), gives the `n` bytes at `pos`, and otherwise fails with the `UnexpectedEof` error |
| Records.DecodeHeader | src/archive.rs:43-58 | `Header::new`: magic from bytes 0..4, then the u32, u16 and u64 fields little-endian at their fixed offsets; `Records.HeaderRoundTrip` and `Records.HeaderBytes` state what it computes |
| Records.DecodeUserDataHeader | src/archive.rs:70-77 | `UserDataHeader::new`: magic from bytes 0..4 and u32 fields at 0x4, 0x8, 0xC; stated by the two user-data header lemmas |
| Records.DecodeHash | src/archive.rs:95-103 | `Hash::new`: u32 at 0 and 4, u16 at 8 and 10, u32 at 12; stated by `Records.HashRoundTrip` and `Records.HashBytes` |
| Records.DecodeBlock | src/archive.rs:119-126 | `Block::new`: u32 at 0, 4, 8 and 0xC; stated by `Records.BlockRoundTrip` and `Records.BlockBytes` |
| Records.HeaderRoundTrip | src/archive.rs:43-58 | decoding the 44-byte encoding of a header gives back every field: magic at 0..4, u32 at 0x04, 0x08, u16 at 0x0C, 0x0E, u32 at 0x10, 0x14, 0x18, 0x1C, u64 at 0x20, u16 at 0x28, 0x2A |
| Records.HeaderBytes | src/archive.rs:43-58 | encoding a decoded 44-byte window gives back the window: every byte is read once |
| Records.UserDataHeaderRoundTrip | src/archive.rs:70-77 | the user-data header decodes magic at 0..4 and u32 fields at 0x4, 0x8, 0xC, whatever follows |
| Records.UserDataHeaderBytes | src/archive.rs:70-77 | the user-data header's fields account for its first 16 bytes |
| Records.HashRoundTrip | src/archive.rs:95-103 | a hash entry decodes u32 at 0 and 4, u16 at 8 and 10, u32 at 12, whatever follows |
| Records.HashBytes | src/archive.rs:95-103 | a hash entry's fields account for exactly 16 bytes |
| Records.BlockRoundTrip | src/archive.rs:119-126 | a block entry decodes u32 at 0, 4, 8 and 0xC, whatever follows |
| Records.BlockBytes | src/archive.rs:119-126 | a block entry's fields account for exactly 16 bytes |
| Records.HashTableRoundTrip | src/archive.rs:185-187 | decoding `count` entries at `16 * x` from a table's image gives back exactly its entries, in order |
| Records.BlockTableRoundTrip | src/archive.rs:199-201 | decoding `count` entries at `16 * x` from a table's image gives back exactly its entries, in order |
| Records.HashTable | src/archive.rs:185-187 | the push loop's hash table: entry `x` is the hash entry decoded from the decrypted bytes at `16 * x`; stated by `Records.HashTableRoundTrip` |
| Records.BlockTable | src/archive.rs:199-201 | the push loop's block table: entry `x` is the block entry decoded from the decrypted bytes at `16 * x`; stated by `Records.BlockTableRoundTrip` |
| MpqArchive.FollowRedirect | src/archive.rs:153-166 | after a user-data header: the read error at the target, "Not a valid MPQ archive" when the window there lacks `MPQ\x1A`, otherwise the target; stated by `MpqArchive.ScanStopsAtFirstCandidate` |
| MpqArchive.Scan | src/archive.rs:142-171 | the scan from offset 0; stated by `MpqArchive.ScanSkipsCandidates`, `MpqArchive.ScanStopsAtFirstCandidate` and `MpqArchive.ScanResultPosition` |
| MpqArchive.ScanFrom | src/archive.rs:144-171 | a position the scan returns has a full 44-byte window in the image starting with `MPQ\x1A` |
| MpqArchive.ScanSkipsCandidates | src/archive.rs:144-170 | while windows at 0, 0x200, ... start with neither signature, the scan moves on to the next multiple of 0x200 |
| MpqArchive.ScanStopsAtFirstCandidate | src/archive.rs:144-168 | at the first candidate not skipped, the scan fails with `UnexpectedEof` if the window runs past the end, returns the candidate on `MPQ\x1A`, and follows the user-data redirect on `MPQ\x1B` |
| MpqArchive.ScanResultPosition | src/archive.rs:144-171 | a found header lies on a multiple of 0x200, or `header_offset` bytes after a user-data header that does |
| MpqArchive.FindHeader | src/archive.rs:144-171 | the scan loop, with its redirect and the "Not a valid MPQ archive" error, returns what the scan function gives |
| MpqArchive.SectorSize | src/archive.rs:203 | `512 << sector_size_shift` on a u32; stated by `MpqArchive.SectorSizeValue` |
| MpqArchive.SectorSizeValue | src/archive.rs:203 | `512 << shift` on a u32 is `512 * 2^shift` (at least 512) for shifts up to 22, and 0 for shifts 23 to 31 |
| MpqArchive.TableBytes | src/archive.rs:176-183 | reading a table of `count` entries succeeds exactly when `16 * count` bytes fit in the image, and gives that many decrypted bytes |
| MpqArchive.ReadTable | src/archive.rs:179-183 | seek, read and decrypt of a table gives the table bytes |
| MpqArchive.DecodeHashTable | src/archive.rs:185-187 | the push loop builds the hash table: `count` entries, entry `x` decoded at `16 * x` |
| MpqArchive.DecodeBlockTable | src/archive.rs:199-201 | the push loop builds the block table: `count` entries, entry `x` decoded at `16 * x` |
| MpqArchive.ArchiveOf | src/archive.rs:139-213 | `Archive::open` as a function: the scan's error, or the archive built at the position the scan finds; stated by `MpqArchive.OpenLayout` and `MpqArchive.OpenFails` |
| MpqArchive.ArchiveAt | src/archive.rs:173-212 | the archive built from the header decoded at the found position; stated by `MpqArchive.ArchiveAtHeader` and `MpqArchive.ArchiveAtTables` |
| MpqArchive.ArchiveFrom | src/archive.rs:175-212 | the hash table is read and decrypted, then the block table, the first read error is passed on, and otherwise the archive holds the header, both tables, the sector size and the position; stated by `MpqArchive.ArchiveFromOk` |
| MpqArchive.Open | src/archive.rs:139-213 | opening an image returns the archive specified by scan, tables and sector size, or the first error |
| MpqArchive.LoadTables | src/archive.rs:173-212 | after the header is found, both tables are read, the hash table first, and the archive is built from them |
| MpqArchive.ArchiveFromOk | src/archive.rs:176-212 | when both tables can be read, the archive holds the header, both decoded tables, the sector size and the signature position |
| MpqArchive.OpenFails | src/archive.rs:139-213 | opening fails exactly when the scan fails or a table does not fit in the image, with the scan's error or `UnexpectedEof` |
| MpqArchive.OpenLayout | src/archive.rs:173-212 | an opened archive's header is the 44 bytes at the signature position, the tables are at their offsets from that position with the header's counts and entry `x` decoded at `16 * x`, and the sector size is `512 << shift` |
| MpqArchive.ArchiveAtHeader | src/archive.rs:173-212 | the archive built at a position holds the header decoded there, that position and the sector size |
| MpqArchive.ArchiveAtTables | src/archive.rs:176-201 | the archive built at a position holds the tables decoded from the decrypted bytes at their offsets from that position |
| MpqArchive.Lookup | src/archive.rs:215-231 | `open_file` as a function: the probe from the masked start index, the file of the first match or NotFound with the name; stated by `MpqArchive.LookupFirstMatch` |
| MpqArchive.OpenFile | src/archive.rs:215-231 | the probe loop returns what the lookup function gives |
| MpqArchive.ProbeFindsFirstMatch | src/archive.rs:222-230 | the probe returns the first index from `start` on whose `hash_a` and `hash_b` both match, and nothing exactly when no index from `start` to the end matches |
| MpqArchive.LookupFirstMatch | src/archive.rs:215-231 | `open_file` returns the name and the first matching index in `[start, len)`, with no wrap-around, or NotFound with the name as message when none matches |
| MpqArchive.StartIndex | src/archive.rs:216 | `hash_string(name, 0) & (hash_table_count - 1)`, the subtraction wrapping on a u32 for an empty table; stated by `MpqArchive.StartIndexBelowCount` |
| MpqArchive.ProbeFrom | src/archive.rs:222-228 | the probe from index `i` to the end of the table, without wrapping; stated by `MpqArchive.ProbeFindsFirstMatch` |
| MpqArchive.StartIndexBelowCount | src/archive.rs:216 | the start index `hash & (count - 1)` is below the table count |
| MpqArchive.ProbeIgnoresLocale | src/archive.rs:222-228 | the probe consults only `hash_a` and `hash_b`, never locale, platform or block index |
| MpqArchive.LookupIgnoresLocale | src/archive.rs:215-231 | two archives whose hash tables agree on the name hashes give the same lookup result |
| MpqFile.Size | src/archive.rs:254-259 | `File::size`: the unpacked size of the block entry the file's hash entry names; stated by `MpqFileLemmas.SizeFromTables` |
| MpqFileLemmas.SizeFromTables | src/archive.rs:254-259 | for a file of an opened archive, the block index is the u32 at byte 12 of the file's 16-byte entry in the decrypted hash table, and the size is the u32 at byte 8 of that block's entry in the decrypted block table |
| MpqFile.BlockOf | src/archive.rs:255-256 | the block of a file is an entry of the block table |
| MpqFile.BlockRead | src/archive.rs:300-324 | `read_block` keeps the buffer's length and leaves it untouched when it fails |
| MpqFile.Unpack | src/archive.rs:307-323 | unpacking keeps the buffer's length and leaves it untouched when it refuses the block |
| MpqFile.ReadBlock | src/archive.rs:300-324 | `read_block` into `out` from position `at` returns what `BlockRead` gives, writes its output from `at` on and leaves bytes before `at` unchanged |
| MpqFile.UnpackInto | src/archive.rs:307-323 | the flag checks, the decompression and the element-wise copy write the buffer from `at` on as `Unpack` gives |
| MpqFile.DecompressInto | src/archive.rs:315-316 | `decompress` into the buffer from `at` on returns its count and writes what it produced there |
| MpqFile.CopyInto | src/archive.rs:318-320 | the element-wise copy puts `src` at `at` and leaves every other byte unchanged |
| MpqFile.OffsetTable | src/archive.rs:281-287 | a successful offset-table read holds `n` offsets |
| MpqFile.ReadOffsetTable | src/archive.rs:283-287 | the loop of `read_exact`s of 4 bytes reads the same offsets as one read of `4 * n` bytes, and fails exactly when that does |
| MpqFile.ReadSectorOffsets | src/archive.rs:279-287 | the division `unpacked_size / sector_size + 1` and the offset-table read give the offsets `SectorOffsets` specifies |
| MpqFile.BlocksRead | src/archive.rs:275-298 | `read_blocks` as a function: a zero sector size panics, a missing offset table gives its read error, and otherwise the sector loop runs from sector 0 with total 0; stated by `MpqFileLemmas.SectorTableNeeded` and `MpqFileLemmas.ZlibBlocksRead` |
| MpqFile.FileRead | src/archive.rs:262-273 | `File::read` as a function: a missing hash or block entry panics, then the patch flag is refused, single-unit files are one block and the rest sectored; stated by `MpqFileLemmas.FileReadDispatch` and `MpqFileLemmas.UnresolvedPanics` |
| MpqFile.SectorOffsets | src/archive.rs:281-287 | a sectored file's offset table has `unpacked_size / sector_size + 2` entries |
| MpqFile.SectorTurn | src/archive.rs:291-294 | one sector keeps the buffer's length and leaves it untouched when it fails |
| MpqFile.SectorsFrom | src/archive.rs:289-297 | the sector loop from sector `i` with `read` reported so far; stated by `MpqFile.SectorStep`, `MpqFile.LoopKeepsLength`, `MpqFileLemmas.SectorsWriteParts`, `MpqFileLemmas.ZlibSectorsAssemble` and `MpqFileLemmas.UncompressedSectorsOverrun` |
| MpqFile.SectorStep | src/archive.rs:290-295 | the sector loop runs sector `i`, stops at its error or panic, and otherwise goes on with the running total increased by its count |
| MpqFile.LoopKeepsLength | src/archive.rs:289-297 | a loop whose turns keep the buffer's length keeps it |
| MpqFile.SectorTurnsKeepLength | src/archive.rs:291-294 | every sector turn keeps the buffer's length |
| MpqFile.ReadKeepsLength | src/archive.rs:262-324 | a read that ends keeps the buffer's length |
| MpqFile.ReadSector | src/archive.rs:291-294 | sector `i` is read with length `offs[i+1] - offs[i]` at `block.offset + offs[i]` into the buffer from the running total on, as `SectorTurn` gives |
| MpqFile.ReadSectors | src/archive.rs:289-297 | the sector loop returns the running total or the first error and leaves the buffer as the loop function gives |
| MpqFile.ReadBlocks | src/archive.rs:275-298 | `read_blocks` returns and writes what `BlocksRead` gives |
| MpqFile.Read | src/archive.rs:262-273 | `File::read` returns and writes what `FileRead` gives |
| MpqFileLemmas.BlockReadErrors | src/archive.rs:300-313 | `read_block` fails with `UnexpectedEof` when its bytes are not in the image, then refuses encryption before implosion, and leaves the buffer untouched |
| MpqFileLemmas.StoredBlock | src/archive.rs:317-322 | a stored block copies `min(len(out), buff_size)` of its bytes to the front of `out`, leaves the rest, and reports the block's unpacked size |
| MpqFileLemmas.CompressedBlock | src/archive.rs:315-316 | a compressed block is handed whole to `decompress`; an empty one panics |
| MpqFileLemmas.FileReadDispatch | src/archive.rs:266-272 | patch files are refused whatever their other flags, single-unit files are one block of `packed_size` at the archive offset, all others are sectored |
| MpqFileLemmas.UnresolvedPanics | src/archive.rs:263-264 | a file whose hash or block entry is missing makes `read` panic |
| MpqFileLemmas.SingleUnitStored | src/archive.rs:268-269 | a stored single-unit file (no compression, implode or encryption flag) whose size is at most its `packed_size` and whose `packed_size` bytes lie in the image, read into a buffer of its size, fills it with its bytes at `block.offset + archive offset` and reports its size |
| MpqFileLemmas.SectorTableNeeded | src/archive.rs:281-287 | a zero sector size makes the sectored read panic, and an offset table of `unpacked_size / sector_size + 2` entries that is not in the image fails with `UnexpectedEof` |
| MpqFileLemmas.UncompressedSectorsOverrun | src/archive.rs:289-322 | a file of at least three uncompressed sectors, read into a buffer of its size, panics: each sector reports the whole `unpacked_size`, so the third sector's `out_buf[read..]` starts past the end |
| MpqFileLemmas.WriteTwice | src/archive.rs:294 | writing one sector at the running total and the next right after it writes both, one after the other |
| MpqFileLemmas.LoopWritesParts | src/archive.rs:289-297 | a loop whose turns each write their part at the running total writes the parts one after the other and reports their total length |
| MpqFileLemmas.ZlibSectorTurn | src/archive.rs:291-294 | a zlib sector is inflated into the buffer at the running total, and its count is what it inflates to |
| MpqFileLemmas.ZlibSectorWrites | src/archive.rs:291-294 | a zlib sector's turn writes what it inflates to, whatever the running total and buffer |
| MpqFileLemmas.ZlibSectorsWrite | src/archive.rs:289-295 | every zlib sector from `i` on writes what it inflates to |
| MpqFileLemmas.SectorsWriteParts | src/archive.rs:289-297 | the sector loop from `i` writes the inflated sectors one after the other and reports the total |
| MpqFileLemmas.ZlibSectorsAssemble | src/archive.rs:289-297 | when every sector from `i` is zlib-compressed and the output fits, the loop writes their concatenated inflated bytes from the running total on |
| MpqFileLemmas.ZlibBlocksRead | src/archive.rs:275-298 | a sectored file with a non-zero sector size and the compression flag (no implode or encryption flag), whose offset table is read, and whose sectors all lie in the image, are non-empty and carry the zlib bit, and whose inflated sectors together fit the buffer, reads as the concatenation of what its sectors inflate to, at the front of the buffer, and reports its length (when they do not fit, the reader truncates, and this row promises nothing) |
| Compression.Decompress | src/compression.rs:13-53 | the result never exceeds the buffer and the buffer keeps its length |
| Compression.ZlibFillsOutput | src/compression.rs:20-26 | with the zlib bit set, the inflated payload `data[1..]`, cut to the room available, goes to the front of `out`, the rest is untouched, and its length is returned |
| Compression.OnlyZlibProduces | src/compression.rs:28-52 | without the zlib bit, the result is 0 and `out` is untouched, whatever other bits are set |
| Compression.ZlibWins | src/compression.rs:16-26 | with the zlib bit set, the other bits of the method byte do not matter |
| Compression.HuffmanBitIgnored | src/compression.rs:16-18 | the Huffman bit is tested but changes nothing |
| Utf8.DecodeFirst | src/chain.rs:49 | a well-formed first character takes one to four bytes |
| Utf8.DecodeFirstOfEncoded | src/chain.rs:49 | an encoded character is read back as itself and takes exactly its encoding |
| Utf8.EncodedFirst | src/chain.rs:49 | a well-formed first sequence is the encoding of the character it decodes to |
| Utf8.Decode | src/chain.rs:49-51 | `String::from_utf8`: the text when the bytes are a sequence of well-formed UTF-8 characters, otherwise none; stated by `Utf8.WellFormedIsEncoded`, `Utf8.DecodeEncode` and `Utf8.EncodeDecode` |
| Utf8.DecodeEncode | src/chain.rs:49-51 | decoding an encoded text gives the text back |
| Utf8.EncodeDecode | src/chain.rs:49-51 | the bytes accepted as text are the encoding of that text |
| Utf8.WellFormedIsEncoded | src/chain.rs:49-51 | bytes are accepted exactly when they are the encoding of some text |
| MpqChain.ReadIn | src/chain.rs:26-37 | reading a found file gives a buffer of the file's size, even when `File::read` fails, and panics exactly when the read panics |
| MpqChain.ReadFrom | src/chain.rs:24-44 | `Chain::read` as a function: the first archive, front to back, whose lookup succeeds supplies the file; NotFound "File not found in mpq chain" when none does; stated by `MpqChain.FirstHolderAnswers` and `MpqChain.NotFoundExactly` |
| MpqChain.AsText | src/chain.rs:46-56 | `read_to_string` passes `read`'s error and panics through, and text it hands out encodes the bytes read |
| MpqChain.Chain.constructor | src/chain.rs:11-15 | a new chain is empty |
| MpqChain.Chain.Add | src/chain.rs:17-22 | the opened archive is put in front of the others |
| MpqChain.Chain.Read | src/chain.rs:24-44 | the search loop returns what the chain's read function gives |
| MpqChain.Chain.ReadToString | src/chain.rs:46-56 | `read_to_string` returns the chain's read as text, as `AsText` gives |
| MpqChain.FirstHolderAnswers | src/chain.rs:25-38 | the first archive, front to back, that holds the name answers for the chain; later archives are not consulted |
| MpqChain.NotFoundExactly | src/chain.rs:25-43 | the chain reports "File not found in mpq chain" exactly when no archive holds the name |
| MpqChain.BufferHasFileSize | src/chain.rs:28 | the buffer handed out has the file's size in the archive that answered |
| MpqChain.AddedArchiveShadows | src/chain.rs:17-22 | an added archive answers for a name it holds, and the chain answers as before for any other name |
| MpqChain.StoredFileContents | src/chain.rs:25-37 | a stored single-unit file (no compression, implode or encryption flag) found in the chain, whose unpacked size is at most its `packed_size` and whose `packed_size` bytes lie in the image, reads as the bytes stored for it in the archive image |
| MpqChain.TextIsFileBytes | src/chain.rs:46-56 | `read_to_string` of bytes read is Ok exactly when they are well-formed UTF-8, the text then encodes them, and the error is otherwise InvalidData "Utf8Error" |

## Left out

- `File::extract`, `fmt::Debug for Archive`, `src/main.rs` and `src/lib.rs`: these are file-system writes, formatting, the command line and module wiring.
- The `crypt` module (`decrypt`, `hash_string`) is not part of this model. The model is proved for every pair of such functions, with one constraint: `decrypt` keeps its buffer's length, since it works in place.
- The zlib codec (flate2) is an arbitrary function from a stream to the bytes it inflates to. `total_out` is taken to be the number of those bytes that fit in `out`. The status `Decompress::decompress` returns is ignored by the source and is not modelled.
- `println!` in `decompress` and in `Chain::read` is left out. The error `Chain::read` prints is dropped and the buffer is returned as it stands.
- Files, paths, `seek` and `read_exact` are modelled over an in-memory image. `fs::File::open` failing on a path is not modelled: `Archive::open` and `Chain::add` take the image.
- Integer widths: `read` in `read_blocks`, `archive.offset` and `block.offset as u64 + offset` are `u64` and are modelled as unbounded. They cannot overflow: `read` adds at most `2^23 + 1` counts of `u32` size, since a non-zero sector size is at least 512.
- MpqArchive.Open: requires that `sector_size_shift` is below 32 whenever both tables load. In a debug build a larger shift makes `512 << sector_size_shift` panic; a release build masks the shift amount to its low five bits. The model returns no panic from `open`.
- MpqArchive.StartIndex: `hash_table_count - 1` wraps around, as in a release build. In a debug build an empty hash table makes `open_file` panic instead of reporting NotFound.
- MpqChain.Chain.Add: requires that the image opens, since `Chain::add` panics otherwise.
- MpqChain.Chain.Read and MpqChain.Chain.ReadToString: require that the read does not panic. The panics are modelled in `MpqChain.ReadFrom` as `Panicked`.
- MpqFile.Read, MpqFile.ReadBlocks, MpqFile.ReadSectors, MpqFile.ReadSector, MpqFile.ReadBlock and MpqFile.UnpackInto: require that their specification function is not `Panic`. The panics themselves are stated by the functions and lemmas in `MpqFile` and `MpqFileLemmas`.
- The `u32` subtraction `sector_offsets[i+1] - sector_offset` panics when it underflows, as in a debug build. A release build would wrap around and try to allocate a buffer of nearly 4 GiB.
- `Chain::read` calls `file.size()` without the archive. The model takes the size from the archive in which the file was found.
- `read_block` returns `decompress`'s `u64` where a `Result` is expected. The model takes it as the `Ok` value.
- `String::from_utf8` is modelled by the `Utf8` module: Table 3-7 of section 3.9 of the Unicode Standard.

## Behaviour of this reader that differs from the MPQ format

The model follows the Rust code in each of these:

- `open_file` probes linearly from the start index to the end of the table. It does not wrap around, does not stop at empty entries, and does not look at locale or platform.
- A sectored file has `unpacked_size / sector_size + 1` sectors, not the rounded-up quotient. The offset table is read with one more entry than that.
- Sector offsets are added to the block's offset only, not to the archive's offset.
- Encrypted and imploded blocks are refused. Only zlib decompresses.
- An uncompressed block reports the block's `unpacked_size` as its count, whatever it copied. In a sectored file every sector does so, and `MpqFileLemmas.UncompressedSectorsOverrun` shows that a file of three or more uncompressed sectors then panics. Sector lengths are not checked against the expected size.
- No header field other than the signature is checked.
- A read error inside `Chain::read` is printed and the partly filled buffer is returned as `Ok`.
