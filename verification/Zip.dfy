/** The central-directory reader (`safe-archive/src/zip.ts`). */
module Zip {
  import opened Results
  import opened Bytes
  import opened Refusals

  const SIGNATURE_EOCD: U32 := 0x06054b50
  const SIGNATURE_ZIP64_EOCD_LOCATOR: U32 := 0x07064b50
  const SIGNATURE_CENTRAL_ENTRY: U32 := 0x02014b50
  const SIGNATURE_LOCAL_HEADER: U32 := 0x04034b50
  const EOCD_FIXED_BYTES := 22
  const EOCD_MAX_SEARCH_BYTES := EOCD_FIXED_BYTES + 0xffff
  const COMPRESSION_STORE := 0
  const COMPRESSION_DEFLATE := 8
  const ZIP64_SENTINEL: U32 := 0xffff_ffff

  /** What the archive claims about one member. */
  datatype CentralEntry = CentralEntry(
    rawPath: string,
    compressedBytes: U32,
    uncompressedBytes: U32,
    compressionMethod: U16,
    localHeaderOffset: U32,
    isDirectory: bool,
    unixMode: Option<U16>)

  /** `mode & 0xf000` for a 16-bit mode. */
  function FileType(mode: U16): U16 { mode / 0x1000 * 0x1000 }

  predicate LooksLikeZip(b: Data) {
    |b| >= 4 && (U32At(b, 0) == SIGNATURE_LOCAL_HEADER || U32At(b, 0) == SIGNATURE_EOCD)
  }

  /** The four signatures as they stand in a file: `PK` and two bytes more. */
  lemma SignatureBytes(b: Data, at: nat)
    requires at + 4 <= |b|
    ensures U32At(b, at) == SIGNATURE_LOCAL_HEADER <==> b[at..at + 4] == [0x50, 0x4b, 3, 4]
    ensures U32At(b, at) == SIGNATURE_CENTRAL_ENTRY <==> b[at..at + 4] == [0x50, 0x4b, 1, 2]
    ensures U32At(b, at) == SIGNATURE_EOCD <==> b[at..at + 4] == [0x50, 0x4b, 5, 6]
    ensures U32At(b, at) == SIGNATURE_ZIP64_EOCD_LOCATOR <==> b[at..at + 4] == [0x50, 0x4b, 6, 7]
  {
    var s := b[at..at + 4];
    LittleEndian(b, at);
    assert s == [s[0], s[1], s[2], s[3]];
  }

  /** What passes for a ZIP begins with a local header or is nothing but an end record. */
  lemma MagicBytes(b: Data)
    ensures LooksLikeZip(b) <==> |b| >= 4 && b[..4] in {[0x50, 0x4b, 3, 4], [0x50, 0x4b, 5, 6]}
  {
    if |b| >= 4 {
      SignatureBytes(b, 0);
    }
  }

  // ---- The end-of-central-directory record ---------------------------------------------------

  function SearchFrom(b: Data): nat {
    if |b| > EOCD_MAX_SEARCH_BYTES then |b| - EOCD_MAX_SEARCH_BYTES else 0
  }

  /** Offsets the backwards search looks at, and where it finds the signature. */
  predicate EocdAt(b: Data, offset: nat) {
    SearchFrom(b) <= offset && offset + EOCD_FIXED_BYTES <= |b| && U32At(b, offset) == SIGNATURE_EOCD
  }

  /** The greatest offset in the window that carries the signature. */
  ghost predicate IsEocd(b: Data, offset: nat) {
    EocdAt(b, offset) && forall later | offset < later :: !EocdAt(b, later)
  }

  /** An end record is looked for in the last 65,557 bytes and must fit in the file. */
  lemma EocdIsNearEnd(b: Data, offset: nat)
    ensures EocdAt(b, offset) <==>
            && |b| - 65_557 <= offset && offset + 22 <= |b|
            && b[offset..offset + 4] == [0x50, 0x4b, 5, 6]
  {
    if offset + 22 <= |b| {
      SignatureBytes(b, offset);
    }
  }

  method FindEocdOffset(b: Data) returns (r: Result<nat, Refusal>)
    requires |b| >= EOCD_FIXED_BYTES
    ensures r.Ok? ==> IsEocd(b, r.value)
    ensures r.Err? ==> r.error == MalformedArchive && forall offset: nat :: !EocdAt(b, offset)
  {
    var searchFrom := SearchFrom(b);
    var offset := |b| - EOCD_FIXED_BYTES;
    while offset >= searchFrom
      invariant searchFrom - 1 <= offset <= |b| - EOCD_FIXED_BYTES
      invariant forall later: nat | offset < later :: !EocdAt(b, later)
    {
      if U32At(b, offset) == SIGNATURE_EOCD {
        return Ok(offset);
      }
      offset := offset - 1;
    }
    return Err(MalformedArchive);
  }

  /** The record the search settles on, if there is one. */
  ghost function FindEocd(b: Data): Option<nat> {
    if exists offset: nat :: IsEocd(b, offset) then
      var offset: nat :| IsEocd(b, offset);
      Some(offset)
    else
      None
  }

  lemma EocdIsUnique(b: Data, offset: nat)
    requires IsEocd(b, offset)
    ensures FindEocd(b) == Some(offset)
  {
  }

  // ---- One central-directory record ----------------------------------------------------------

  /** A decoded record together with where the next one starts. */
  datatype Parsed<T> = Parsed(value: T, next: nat)

  function HostIsUnix(versionMadeBy: U16): bool { versionMadeBy / 0x100 == 3 }

  function EntryOf(versionMadeBy: U16, compression: U16, compressed: U32, uncompressed: U32, name: Data,
                   attributes: U32, localHeaderOffset: U32): CentralEntry
  {
    var rawPath := Latin1(name);
    var unixMode := if HostIsUnix(versionMadeBy) then Some(attributes / 0x1_0000) else None;
    CentralEntry(
      rawPath, compressed, uncompressed, compression, localHeaderOffset,
      (rawPath != "" && rawPath[|rawPath| - 1] == '/') || (unixMode.Some? && FileType(unixMode.value) == 0x4000),
      unixMode)
  }

  function ParseEntry(b: Data, cursor: nat): (r: Result<Parsed<CentralEntry>, Refusal>)
    ensures r.Ok? ==> cursor + 46 <= r.value.next
    ensures r.Err? ==> r.error == MalformedArchive
  {
    if cursor + 46 > |b| then Err(MalformedArchive)
    else if U32At(b, cursor) != SIGNATURE_CENTRAL_ENTRY then Err(MalformedArchive)
    else
      var compressed := U32At(b, cursor + 20);
      var uncompressed := U32At(b, cursor + 24);
      var localHeaderOffset := U32At(b, cursor + 42);
      if compressed == ZIP64_SENTINEL || uncompressed == ZIP64_SENTINEL || localHeaderOffset == ZIP64_SENTINEL then
        Err(MalformedArchive)
      else
        var nameEnd := cursor + 46 + U16At(b, cursor + 28);
        if nameEnd > |b| then Err(MalformedArchive)
        else
          Ok(Parsed(
            EntryOf(U16At(b, cursor + 4), U16At(b, cursor + 10), compressed, uncompressed,
                    b[cursor + 46..nameEnd], U32At(b, cursor + 38), localHeaderOffset),
            nameEnd + U16At(b, cursor + 30) + U16At(b, cursor + 32)))
  }

  function ParseEntries(b: Data, cursor: nat, count: nat): (r: Result<Parsed<seq<CentralEntry>>, Refusal>)
    ensures r.Ok? ==> |r.value.value| == count
    ensures r.Err? ==> r.error == MalformedArchive
    decreases count
  {
    if count == 0 then Ok(Parsed([], cursor))
    else
      match ParseEntry(b, cursor)
      case Err(e) => Err(e)
      case Ok(first) =>
        match ParseEntries(b, first.next, count - 1)
        case Err(e) => Err(e)
        case Ok(rest) => Ok(Parsed([first.value] + rest.value, rest.next))
  }

  /** What `readCentralDirectory` answers, with the end cursor it drops kept for reasoning. */
  ghost function Directory(b: Data): Result<Parsed<seq<CentralEntry>>, Refusal> {
    if |b| < EOCD_FIXED_BYTES then Err(MalformedArchive)
    else
      match FindEocd(b)
      case None => Err(MalformedArchive)
      case Some(eocd) =>
        if eocd >= 20 && U32At(b, eocd - 20) == SIGNATURE_ZIP64_EOCD_LOCATOR then Err(UnsupportedFormat)
        else if U32At(b, eocd + 16) + U32At(b, eocd + 12) > |b| then Err(MalformedArchive)
        else ParseEntries(b, U32At(b, eocd + 16), U16At(b, eocd + 10))
  }

  ghost function DirectoryEntries(b: Data): Result<seq<CentralEntry>, Refusal> {
    match Directory(b)
    case Ok(parsed) => Ok(parsed.value)
    case Err(e) => Err(e)
  }

  /** The answer for a whole directory whose first entries are already read. */
  ghost function Prepend(done: seq<CentralEntry>, r: Result<Parsed<seq<CentralEntry>>, Refusal>):
    Result<Parsed<seq<CentralEntry>>, Refusal>
  {
    match r
    case Ok(rest) => Ok(Parsed(done + rest.value, rest.next))
    case Err(e) => Err(e)
  }

  /** One turn of the reading loop. */
  lemma PrependStep(b: Data, done: seq<CentralEntry>, cursor: nat, count: nat)
    requires count > 0
    ensures Prepend(done, ParseEntries(b, cursor, count)) ==
            (match ParseEntry(b, cursor)
             case Err(e) => Err(e)
             case Ok(first) => Prepend(done + [first.value], ParseEntries(b, first.next, count - 1)))
  {
    var step := ParseEntry(b, cursor);
    if step.Ok? {
      var rest := ParseEntries(b, step.value.next, count - 1);
      if rest.Ok? {
        assert done + ([step.value.value] + rest.value.value) == (done + [step.value.value]) + rest.value.value;
      }
    }
  }

  /** The reading loop itself. */
  method ReadEntries(b: Data, start: nat, count: nat) returns (r: Result<seq<CentralEntry>, Refusal>)
    ensures r == (match ParseEntries(b, start, count) case Ok(parsed) => Ok(parsed.value) case Err(e) => Err(e))
  {
    hide ParseEntry;
    var entries: seq<CentralEntry> := [];
    var cursor := start;
    ghost var whole := ParseEntries(b, start, count);
    assert whole.Ok? ==> [] + whole.value.value == whole.value.value;
    for index := 0 to count
      invariant whole == Prepend(entries, ParseEntries(b, cursor, count - index))
    {
      PrependStep(b, entries, cursor, count - index);
      var step := ParseEntry(b, cursor);
      if step.Err? {
        return Err(step.error);
      }
      entries := entries + [step.value.value];
      cursor := step.value.next;
    }
    assert entries + [] == entries;
    return Ok(entries);
  }

  method ReadCentralDirectory(b: Data) returns (r: Result<seq<CentralEntry>, Refusal>)
    ensures r == DirectoryEntries(b)
    ensures r.Ok? ==> exists eocd: nat :: IsEocd(b, eocd) && |r.value| == U16At(b, eocd + 10)
  {
    if |b| < EOCD_FIXED_BYTES {
      return Err(MalformedArchive);
    }
    var found := FindEocdOffset(b);
    if found.Err? {
      return Err(found.error);
    }
    var eocd := found.value;
    EocdIsUnique(b, eocd);
    if eocd >= 20 && U32At(b, eocd - 20) == SIGNATURE_ZIP64_EOCD_LOCATOR {
      return Err(UnsupportedFormat);
    }
    var entryCount := U16At(b, eocd + 10);
    var directorySize := U32At(b, eocd + 12);
    var directoryOffset := U32At(b, eocd + 16);
    if directoryOffset + directorySize > |b| {
      return Err(MalformedArchive);
    }
    r := ReadEntries(b, directoryOffset, entryCount);
  }

  // ---- Local headers -------------------------------------------------------------------------

  function LocalDataOffset(b: Data, entry: CentralEntry): (r: Result<nat, Refusal>)
    ensures r.Ok? ==> r.value + entry.compressedBytes <= |b|
    ensures r.Err? ==> r.error == MalformedArchive
  {
    var header := entry.localHeaderOffset;
    if header + 30 > |b| then Err(MalformedArchive)
    else if U32At(b, header) != SIGNATURE_LOCAL_HEADER then Err(MalformedArchive)
    else
      var dataStart := header + 30 + U16At(b, header + 26) + U16At(b, header + 28);
      if dataStart + entry.compressedBytes > |b| then Err(MalformedArchive) else Ok(dataStart)
  }
}
