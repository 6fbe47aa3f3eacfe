/// A chain of archives searched front to back (src/chain.rs): the archive
/// added last is searched first, and the first archive holding a file
/// supplies its contents.
module MpqChain {
  import opened Bytes
  import opened Io
  import opened Crypt
  import opened Compression
  import opened MpqArchive
  import opened MpqFile
  import MpqFileLemmas
  import Utf8

  const NotInChain := Error(NotFound, "File not found in mpq chain")
  const NotText := Error(InvalidData, "Utf8Error")

  /// What a call on the chain comes to: a value returned, or a panic.
  datatype Reply<T> = Returned(result: Result<T>) | Panicked

  /// Reading a file found in archive `a`: a zeroed buffer of the file's
  /// size is filled by `File::read`. A read error is only reported, and the
  /// buffer is returned as it stands.
  function ReadIn(a: Archive, inflate: Inflater, f: File): (r: Reply<seq<uint8>>)
    ensures r.Returned? ==> Resolves(a, f) && r.result.Ok? && |r.result.value| == Size(a, f)
    ensures r.Panicked? <==> !Resolves(a, f) || FileRead(a, inflate, f, Zeros(Size(a, f))).Panic?
  {
    if !Resolves(a, f) then Panicked
    else
      ReadKeepsLength(a, inflate, f, Zeros(Size(a, f)));
      match FileRead(a, inflate, f, Zeros(Size(a, f)))
      case Panic => Panicked
      case Done(_, out) => Returned(Ok(out))
  }

  /// `Chain::read` over `archives`, front first.
  function ReadFrom(p: Primitives, inflate: Inflater, archives: seq<Archive>, name: string): Reply<seq<uint8>>
    decreases |archives|
  {
    if archives == [] then Returned(Err(NotInChain))
    else match Lookup(p, archives[0], name)
      case Ok(f) => ReadIn(archives[0], inflate, f)
      case Err(_) => ReadFrom(p, inflate, archives[1..], name)
  }

  /// `Chain::read_to_string` on what `Chain::read` came to: the bytes are
  /// handed out as text when they are well-formed UTF-8.
  function AsText(reply: Reply<seq<uint8>>): (r: Reply<string>)
    ensures r.Panicked? <==> reply.Panicked?
    ensures r.Returned? && r.result.Ok? ==> reply.Returned? && reply.result.Ok? && Utf8.Encode(r.result.value) == reply.result.value
    ensures reply.Returned? && reply.result.Err? ==> r == Returned(Err(reply.result.error))
  {
    match reply
    case Panicked => Panicked
    case Returned(Err(e)) => Returned(Err(e))
    case Returned(Ok(buf)) =>
      match Utf8.Decode(buf)
      case Some(text) =>
        Utf8.EncodeDecode(buf);
        Returned(Ok(text))
      case None => Returned(Err(NotText))
  }

  class Chain {
    var archives: seq<Archive>

    /// `Chain::new`: an empty chain.
    constructor ()
      ensures archives == []
    {
      archives := [];
    }

    /// `Chain::add`: the archive is opened and put in front of the others.
    /// An archive that does not open makes `add` panic, so callers must
    /// pass one that opens.
    method Add(p: Primitives, image: seq<uint8>)
      requires ShiftInRange(image) && ArchiveOf(p, image).Ok?
      modifies this
      ensures archives == [ArchiveOf(p, image).value] + old(archives)
    {
      var archive := Open(p, image);
      archives := [archive.value] + archives;
    }

    /// `Chain::read`.
    method Read(p: Primitives, inflate: Inflater, name: string) returns (r: Result<seq<uint8>>)
      requires !ReadFrom(p, inflate, archives, name).Panicked?
      ensures Returned(r) == ReadFrom(p, inflate, archives, name)
    {
      var i := 0;
      while i < |archives|
        invariant 0 <= i <= |archives|
        invariant ReadFrom(p, inflate, archives[i..], name) == ReadFrom(p, inflate, archives, name)
      {
        assert archives[i..][1..] == archives[i + 1..];
        var archive := archives[i];
        var found := OpenFile(p, archive, name);
        if found.Ok? {
          var file := found.value;
          var buf := new uint8[Size(archive, file)](_ => 0);
          assert buf[..] == Zeros(Size(archive, file));
          var _ := MpqFile.Read(archive, inflate, file, buf);
          return Ok(buf[..]);
        }
        i := i + 1;
      }
      return Err(NotInChain);
    }

    /// `Chain::read_to_string`.
    method ReadToString(p: Primitives, inflate: Inflater, name: string) returns (r: Result<string>)
      requires !ReadFrom(p, inflate, archives, name).Panicked?
      ensures Returned(r) == AsText(ReadFrom(p, inflate, archives, name))
    {
      var bytes := Read(p, inflate, name);
      match bytes
      case Err(e) =>
        r := Err(e);
      case Ok(buf) =>
        var text := Utf8.Decode(buf);
        if text.Some? {
          r := Ok(text.value);
        } else {
          r := Err(NotText);
        }
    }
  }

  /// The first archive that holds the name answers for the whole chain.
  lemma {:induction false} FirstHolderAnswers(p: Primitives, inflate: Inflater, archives: seq<Archive>, name: string, k: nat)
    requires k < |archives| && Lookup(p, archives[k], name).Ok?
    requires forall j :: 0 <= j < k ==> Lookup(p, archives[j], name).Err?
    ensures ReadFrom(p, inflate, archives, name) == ReadIn(archives[k], inflate, Lookup(p, archives[k], name).value)
  {
    if k > 0 {
      FirstHolderAnswers(p, inflate, archives[1..], name, k - 1);
    }
  }

  /// The chain reports "not found" exactly when no archive holds the name;
  /// an archive that holds it never makes the read fail.
  lemma {:induction false} NotFoundExactly(p: Primitives, inflate: Inflater, archives: seq<Archive>, name: string)
    ensures ReadFrom(p, inflate, archives, name) == Returned(Err(NotInChain)) <==>
      forall j :: 0 <= j < |archives| ==> Lookup(p, archives[j], name).Err?
    decreases |archives|
  {
    if archives != [] {
      NotFoundExactly(p, inflate, archives[1..], name);
      if forall j :: 0 <= j < |archives[1..]| ==> Lookup(p, archives[1..][j], name).Err? {
        assert forall j :: 1 <= j < |archives| ==> archives[j] == archives[1..][j - 1];
      }
    }
  }

  /// A buffer handed out by the chain has the size recorded for the file in
  /// the archive that answered.
  lemma BufferHasFileSize(p: Primitives, inflate: Inflater, archives: seq<Archive>, name: string, k: nat)
    requires k < |archives| && Lookup(p, archives[k], name).Ok?
    requires forall j :: 0 <= j < k ==> Lookup(p, archives[j], name).Err?
    requires ReadFrom(p, inflate, archives, name).Returned?
    ensures var f := Lookup(p, archives[k], name).value;
      Resolves(archives[k], f) && ReadFrom(p, inflate, archives, name).result.Ok? &&
      |ReadFrom(p, inflate, archives, name).result.value| == Size(archives[k], f)
  {
    FirstHolderAnswers(p, inflate, archives, name, k);
  }

  /// An archive added to a chain shadows the ones already there: the chain
  /// answers from it when it holds the name, and as before otherwise.
  lemma AddedArchiveShadows(p: Primitives, inflate: Inflater, a: Archive, rest: seq<Archive>, name: string)
    ensures Lookup(p, a, name).Ok? ==>
      ReadFrom(p, inflate, [a] + rest, name) == ReadIn(a, inflate, Lookup(p, a, name).value)
    ensures Lookup(p, a, name).Err? ==>
      ReadFrom(p, inflate, [a] + rest, name) == ReadFrom(p, inflate, rest, name)
  {
    assert ([a] + rest)[1..] == rest;
  }

  /// A stored single-unit file found in the chain reads as the bytes stored
  /// for it in the archive image.
  lemma StoredFileContents(p: Primitives, inflate: Inflater, archives: seq<Archive>, name: string, k: nat)
    requires k < |archives| && Lookup(p, archives[k], name).Ok?
    requires forall j :: 0 <= j < k ==> Lookup(p, archives[j], name).Err?
    requires var a := archives[k];
      var f := Lookup(p, a, name).value;
      && Resolves(a, f)
      && var block := BlockOf(a, f);
      && HasFlag(block.flags, SingleUnit) && !HasFlag(block.flags, PatchFile)
      && !HasFlag(block.flags, Encrypted) && !HasFlag(block.flags, Implode) && !HasFlag(block.flags, Compress)
      && block.unpackedSize <= block.packedSize
      && block.offset + a.offset + block.packedSize <= |a.image|
    ensures var a := archives[k];
      var block := BlockOf(a, Lookup(p, a, name).value);
      var pos := block.offset + a.offset;
      ReadFrom(p, inflate, archives, name) == Returned(Ok(a.image[pos..pos + block.unpackedSize]))
  {
    var a := archives[k];
    var f := Lookup(p, a, name).value;
    FirstHolderAnswers(p, inflate, archives, name, k);
    MpqFileLemmas.SingleUnitStored(a, inflate, f, Zeros(Size(a, f)));
  }

  /// Text handed out by `read_to_string` is the file's bytes read as UTF-8,
  /// and bytes that are not well-formed UTF-8 give the UTF-8 error.
  lemma TextIsFileBytes(reply: Reply<seq<uint8>>)
    requires reply.Returned? && reply.result.Ok?
    ensures AsText(reply).Returned?
    ensures AsText(reply).result.Ok? <==> Utf8.Decode(reply.result.value).Some?
    ensures AsText(reply).result.Err? ==> AsText(reply).result.error == NotText
    ensures AsText(reply).result.Ok? ==> Utf8.Encode(AsText(reply).result.value) == reply.result.value
  {
  }
}
