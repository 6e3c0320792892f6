/**
 * The ZIP layout as APPNOTE.TXT writes it down (sections 4.3.7, 4.3.12, 4.3.16), independent of the
 * reader, and the theorems that the reader inverts it.
 */
module ZipLayout {
  import opened Results
  import opened Bytes
  import opened Zip

  datatype CentralRecord = CentralRecord(
    versionMadeBy: U16, versionNeeded: U16, flags: U16, compression: U16, time: U16, date: U16,
    crc: U32, compressed: U32, uncompressed: U32,
    disk: U16, internalAttributes: U16, externalAttributes: U32, localHeaderOffset: U32,
    name: Data, extra: Data, comment: Data)

  /** A record the format can hold and the reader does not treat as Zip64. */
  predicate Encodable(r: CentralRecord) {
    && |r.name| < 0x1_0000 && |r.extra| < 0x1_0000 && |r.comment| < 0x1_0000
    && r.compressed != ZIP64_SENTINEL && r.uncompressed != ZIP64_SENTINEL && r.localHeaderOffset != ZIP64_SENTINEL
  }

  /** The fixed part in two halves, in the order of section 4.3.12. */
  function EncodeHead1(r: CentralRecord): (b: Data)
    ensures |b| == 20
  {
    Le32(SIGNATURE_CENTRAL_ENTRY) + Le16(r.versionMadeBy) + Le16(r.versionNeeded) + Le16(r.flags)
    + Le16(r.compression) + Le16(r.time) + Le16(r.date) + Le32(r.crc)
  }

  function EncodeHead2(r: CentralRecord): (b: Data)
    requires Encodable(r)
    ensures |b| == 26
  {
    Le32(r.compressed) + Le32(r.uncompressed) + Le16(|r.name|) + Le16(|r.extra|) + Le16(|r.comment|)
    + Le16(r.disk) + Le16(r.internalAttributes) + Le32(r.externalAttributes) + Le32(r.localHeaderOffset)
  }

  function EncodeRecord(r: CentralRecord): (b: Data)
    requires Encodable(r)
    ensures |b| == 46 + |r.name| + |r.extra| + |r.comment|
  {
    EncodeHead1(r) + EncodeHead2(r) + r.name + r.extra + r.comment
  }

  function EncodeRecords(rs: seq<CentralRecord>): Data
    requires forall r | r in rs :: Encodable(r)
  {
    if rs == [] then [] else EncodeRecord(rs[0]) + EncodeRecords(rs[1..])
  }

  /** The fixed part of an end record, in the order of section 4.3.16. */
  function EndRecord(disk: U16, start: U16, here: U16, count: U16, size: U32, offset: U32, commentLength: U16)
    : (b: Data)
    ensures |b| == EOCD_FIXED_BYTES
  {
    Le32(SIGNATURE_EOCD) + Le16(disk) + Le16(start) + Le16(here) + Le16(count) + Le32(size) + Le32(offset)
    + Le16(commentLength)
  }

  /** A whole one, on a single disk. */
  function EncodeEocd(count: U16, size: U32, offset: U32, comment: Data): (b: Data)
    requires |comment| < 0x1_0000
    ensures |b| == EOCD_FIXED_BYTES + |comment|
  {
    EndRecord(0, 0, count, count, size, offset, |comment|) + comment
  }

  /** What the reader is expected to report for a record. */
  function Reported(r: CentralRecord): CentralEntry {
    EntryOf(r.versionMadeBy, r.compression, r.compressed, r.uncompressed, r.name, r.externalAttributes,
            r.localHeaderOffset)
  }

  function ReportedAll(rs: seq<CentralRecord>): seq<CentralEntry> {
    seq(|rs|, i requires 0 <= i < |rs| => Reported(rs[i]))
  }

  /** `part` sits in `b` at `at`. */
  predicate Holds(b: Data, at: nat, part: Data) {
    at + |part| <= |b| && b[at..at + |part|] == part
  }

  lemma HoldsConcat(b: Data, at: nat, x: Data, y: Data)
    ensures Holds(b, at, x + y) <==> Holds(b, at, x) && Holds(b, at + |x|, y)
  {
    if at + |x| + |y| <= |b| {
      var s := b[at..at + |x| + |y|];
      assert s[..|x|] == b[at..at + |x|] && s[|x|..] == b[at + |x|..at + |x| + |y|];
      assert s == s[..|x|] + s[|x|..];
      assert (x + y)[..|x|] == x && (x + y)[|x|..] == y;
    }
  }

  lemma Holds16(b: Data, at: nat, before: Data, x: U16)
    ensures Holds(b, at, before + Le16(x)) <==>
            Holds(b, at, before) && at + |before| + 2 <= |b| && U16At(b, at + |before|) == x
  {
    HoldsConcat(b, at, before, Le16(x));
    if at + |before| + 2 <= |b| {
      ReadLe16(b, at + |before|, x);
    }
  }

  lemma Holds32(b: Data, at: nat, before: Data, x: U32)
    ensures Holds(b, at, before + Le32(x)) <==>
            Holds(b, at, before) && at + |before| + 4 <= |b| && U32At(b, at + |before|) == x
  {
    HoldsConcat(b, at, before, Le32(x));
    if at + |before| + 4 <= |b| {
      ReadLe32(b, at + |before|, x);
    }
  }

  lemma Head1Fields(b: Data, at: nat, r: CentralRecord)
    requires at + 20 <= |b|
    ensures Holds(b, at, EncodeHead1(r)) <==>
            && U32At(b, at) == SIGNATURE_CENTRAL_ENTRY && U16At(b, at + 4) == r.versionMadeBy
            && U16At(b, at + 6) == r.versionNeeded && U16At(b, at + 8) == r.flags
            && U16At(b, at + 10) == r.compression && U16At(b, at + 12) == r.time
            && U16At(b, at + 14) == r.date && U32At(b, at + 16) == r.crc
  {
    hide U16At, U32At, Le16, Le32;
    var h4 := Le32(SIGNATURE_CENTRAL_ENTRY);
    var h6 := h4 + Le16(r.versionMadeBy);
    var h8 := h6 + Le16(r.versionNeeded);
    var h10 := h8 + Le16(r.flags);
    var h12 := h10 + Le16(r.compression);
    var h14 := h12 + Le16(r.time);
    var h16 := h14 + Le16(r.date);
    ReadLe32(b, at, SIGNATURE_CENTRAL_ENTRY);
    Holds16(b, at, h4, r.versionMadeBy);
    Holds16(b, at, h6, r.versionNeeded);
    Holds16(b, at, h8, r.flags);
    Holds16(b, at, h10, r.compression);
    Holds16(b, at, h12, r.time);
    Holds16(b, at, h14, r.date);
    Holds32(b, at, h16, r.crc);
  }

  lemma Head2Fields(b: Data, at: nat, r: CentralRecord)
    requires Encodable(r) && at + 26 <= |b|
    ensures Holds(b, at, EncodeHead2(r)) <==>
            && U32At(b, at) == r.compressed && U32At(b, at + 4) == r.uncompressed
            && U16At(b, at + 8) == |r.name| && U16At(b, at + 10) == |r.extra| && U16At(b, at + 12) == |r.comment|
            && U16At(b, at + 14) == r.disk && U16At(b, at + 16) == r.internalAttributes
            && U32At(b, at + 18) == r.externalAttributes && U32At(b, at + 22) == r.localHeaderOffset
  {
    hide U16At, U32At, Le16, Le32;
    var h4 := Le32(r.compressed);
    var h8 := h4 + Le32(r.uncompressed);
    var h10 := h8 + Le16(|r.name|);
    var h12 := h10 + Le16(|r.extra|);
    var h14 := h12 + Le16(|r.comment|);
    var h16 := h14 + Le16(r.disk);
    var h18 := h16 + Le16(r.internalAttributes);
    var h22 := h18 + Le32(r.externalAttributes);
    ReadLe32(b, at, r.compressed);
    Holds32(b, at, h4, r.uncompressed);
    Holds16(b, at, h8, |r.name|);
    Holds16(b, at, h10, |r.extra|);
    Holds16(b, at, h12, |r.comment|);
    Holds16(b, at, h14, r.disk);
    Holds16(b, at, h16, r.internalAttributes);
    Holds32(b, at, h18, r.externalAttributes);
    Holds32(b, at, h22, r.localHeaderOffset);
  }

  // ---- Records: the reader accepts exactly the layout ----------------------------------------

  lemma RecordParses(b: Data, at: nat, r: CentralRecord)
    requires Encodable(r) && Holds(b, at, EncodeRecord(r))
    ensures ParseEntry(b, at) == Ok(Parsed(Reported(r), at + |EncodeRecord(r)|))
  {
    hide U16At, U32At, EncodeHead1, EncodeHead2, EntryOf;
    var head := EncodeHead1(r) + EncodeHead2(r);
    HoldsConcat(b, at, head + r.name + r.extra, r.comment);
    HoldsConcat(b, at, head + r.name, r.extra);
    HoldsConcat(b, at, head, r.name);
    HoldsConcat(b, at, EncodeHead1(r), EncodeHead2(r));
    Head1Fields(b, at, r);
    Head2Fields(b, at + 20, r);
    assert b[at + 46..at + 46 + |r.name|] == r.name;
  }

  lemma ParsedIsRecord(b: Data, at: nat) returns (r: CentralRecord)
    requires ParseEntry(b, at).Ok? && ParseEntry(b, at).value.next <= |b|
    ensures Encodable(r) && Holds(b, at, EncodeRecord(r))
    ensures ParseEntry(b, at).value == Parsed(Reported(r), at + |EncodeRecord(r)|)
  {
    hide U16At, U32At, EncodeHead1, EncodeHead2, EntryOf;
    var nameEnd := at + 46 + U16At(b, at + 28);
    var extraEnd := nameEnd + U16At(b, at + 30);
    var commentEnd := extraEnd + U16At(b, at + 32);
    r := CentralRecord(
      U16At(b, at + 4), U16At(b, at + 6), U16At(b, at + 8), U16At(b, at + 10), U16At(b, at + 12), U16At(b, at + 14),
      U32At(b, at + 16), U32At(b, at + 20), U32At(b, at + 24),
      U16At(b, at + 34), U16At(b, at + 36), U32At(b, at + 38), U32At(b, at + 42),
      b[at + 46..nameEnd], b[nameEnd..extraEnd], b[extraEnd..commentEnd]);
    var head := EncodeHead1(r) + EncodeHead2(r);
    Head1Fields(b, at, r);
    Head2Fields(b, at + 20, r);
    HoldsConcat(b, at, EncodeHead1(r), EncodeHead2(r));
    HoldsConcat(b, at, head, r.name);
    HoldsConcat(b, at, head + r.name, r.extra);
    HoldsConcat(b, at, head + r.name + r.extra, r.comment);
  }

  /** `rs` is a run of `count` central records at `at` ending at `end`, reported as `entries`. */
  ghost predicate IsLayout(b: Data, at: nat, count: nat, rs: seq<CentralRecord>, entries: seq<CentralEntry>, end: nat) {
    && |rs| == count
    && (forall r | r in rs :: Encodable(r))
    && Holds(b, at, EncodeRecords(rs))
    && entries == ReportedAll(rs)
    && end == at + |EncodeRecords(rs)|
  }

  /** Decoding undoes encoding, wherever the records sit. */
  lemma {:induction false} LayoutParses(b: Data, at: nat, count: nat, rs: seq<CentralRecord>,
                                        entries: seq<CentralEntry>, end: nat)
    requires IsLayout(b, at, count, rs, entries, end)
    ensures ParseEntries(b, at, count) == Ok(Parsed(entries, end))
    decreases count
  {
    hide ParseEntry, EncodeRecord, Reported;
    if count > 0 {
      HoldsConcat(b, at, EncodeRecord(rs[0]), EncodeRecords(rs[1..]));
      RecordParses(b, at, rs[0]);
      LayoutParses(b, at + |EncodeRecord(rs[0])|, count - 1, rs[1..], ReportedAll(rs[1..]), end);
      assert entries == [Reported(rs[0])] + ReportedAll(rs[1..]);
    }
  }

  /** Encoding undoes decoding: whatever is accepted inside the file is a run of records. */
  lemma {:induction false} ParsedIsLayout(b: Data, at: nat, count: nat) returns (rs: seq<CentralRecord>)
    requires ParseEntries(b, at, count).Ok? && ParseEntries(b, at, count).value.next <= |b|
    ensures IsLayout(b, at, count, rs, ParseEntries(b, at, count).value.value, ParseEntries(b, at, count).value.next)
    decreases count
  {
    hide ParseEntry, EncodeRecord, Reported;
    if count == 0 {
      rs := [];
    } else {
      var step := ParseEntry(b, at).value;
      EntriesAdvance(b, step.next, count - 1);
      var first := ParsedIsRecord(b, at);
      var rest := ParsedIsLayout(b, step.next, count - 1);
      rs := [first] + rest;
      assert rs[1..] == rest;
      HoldsConcat(b, at, EncodeRecord(first), EncodeRecords(rest));
      assert ReportedAll(rs) == [Reported(first)] + ReportedAll(rest);
    }
  }

  lemma {:induction false} EntriesAdvance(b: Data, at: nat, count: nat)
    requires ParseEntries(b, at, count).Ok?
    ensures at + 46 * count <= ParseEntries(b, at, count).value.next
    decreases count
  {
    hide ParseEntry;
    if count > 0 {
      EntriesAdvance(b, ParseEntry(b, at).value.next, count - 1);
    }
  }

  /** A run of entries is accepted inside the file exactly when it is laid out as section 4.3.12 says. */
  lemma ReaderInvertsLayout(b: Data, at: nat, count: nat, entries: seq<CentralEntry>, end: nat)
    ensures (ParseEntries(b, at, count) == Ok(Parsed(entries, end)) && end <= |b|)
       <==> exists rs :: IsLayout(b, at, count, rs, entries, end)
  {
    if ParseEntries(b, at, count) == Ok(Parsed(entries, end)) && end <= |b| {
      var rs := ParsedIsLayout(b, at, count);
    }
    if rs :| IsLayout(b, at, count, rs, entries, end) {
      LayoutParses(b, at, count, rs, entries, end);
    }
  }

  // ---- Whole archives ------------------------------------------------------------------------

  /** Member data, then the directory, then the end record with its comment. */
  function Archive(prefix: Data, rs: seq<CentralRecord>, comment: Data): Data
    requires forall r | r in rs :: Encodable(r)
    requires |prefix| < 0x1_0000_0000 && |rs| < 0x1_0000 && |EncodeRecords(rs)| < 0x1_0000_0000 && |comment| < 0x1_0000
  {
    prefix + EncodeRecords(rs) + EncodeEocd(|rs|, |EncodeRecords(rs)|, |prefix|, comment)
  }

  /** No signature inside the comment, and no Zip64 locator before the end record. */
  ghost predicate Unambiguous(b: Data, eocd: nat) {
    && (forall later | eocd < later :: !EocdAt(b, later))
    && (eocd >= 20 && eocd + EOCD_FIXED_BYTES <= |b| ==> U32At(b, eocd - 20) != SIGNATURE_ZIP64_EOCD_LOCATOR)
  }

  lemma EndRecordFields(b: Data, at: nat, disk: U16, start: U16, here: U16, count: U16, size: U32, offset: U32,
                        commentLength: U16)
    requires at + EOCD_FIXED_BYTES <= |b|
    ensures Holds(b, at, EndRecord(disk, start, here, count, size, offset, commentLength)) <==>
            && U32At(b, at) == SIGNATURE_EOCD && U16At(b, at + 4) == disk && U16At(b, at + 6) == start
            && U16At(b, at + 8) == here && U16At(b, at + 10) == count
            && U32At(b, at + 12) == size && U32At(b, at + 16) == offset && U16At(b, at + 20) == commentLength
  {
    hide U16At, U32At, Le16, Le32;
    var h4 := Le32(SIGNATURE_EOCD);
    var h6 := h4 + Le16(disk);
    var h8 := h6 + Le16(start);
    var h10 := h8 + Le16(here);
    var h12 := h10 + Le16(count);
    var h16 := h12 + Le32(size);
    var h20 := h16 + Le32(offset);
    ReadLe32(b, at, SIGNATURE_EOCD);
    Holds16(b, at, h4, disk);
    Holds16(b, at, h6, start);
    Holds16(b, at, h8, here);
    Holds16(b, at, h10, count);
    Holds32(b, at, h12, size);
    Holds32(b, at, h16, offset);
    Holds16(b, at, h20, commentLength);
  }

  lemma EocdFields(b: Data, at: nat, count: U16, size: U32, offset: U32, comment: Data)
    requires |comment| < 0x1_0000 && at + EOCD_FIXED_BYTES <= |b|
    ensures Holds(b, at, EncodeEocd(count, size, offset, comment)) <==>
            && U32At(b, at) == SIGNATURE_EOCD && U16At(b, at + 4) == 0 && U16At(b, at + 6) == 0
            && U16At(b, at + 8) == count && U16At(b, at + 10) == count
            && U32At(b, at + 12) == size && U32At(b, at + 16) == offset
            && U16At(b, at + 20) == |comment| && Holds(b, at + EOCD_FIXED_BYTES, comment)
  {
    hide U16At, U32At, EndRecord;
    EndRecordFields(b, at, 0, 0, count, count, size, offset, |comment|);
    HoldsConcat(b, at, EndRecord(0, 0, count, count, size, offset, |comment|), comment);
  }

  /** Reading an archive returns exactly the records it was written with, in order, up to its end record. */
  lemma RoundTrip(prefix: Data, rs: seq<CentralRecord>, comment: Data)
    requires forall r | r in rs :: Encodable(r)
    requires |prefix| < 0x1_0000_0000 && |rs| < 0x1_0000 && |EncodeRecords(rs)| < 0x1_0000_0000 && |comment| < 0x1_0000
    requires Unambiguous(Archive(prefix, rs, comment), |prefix| + |EncodeRecords(rs)|)
    ensures DirectoryEntries(Archive(prefix, rs, comment)) == Ok(ReportedAll(rs))
    ensures ReadsTightly(Archive(prefix, rs, comment), |prefix| + |EncodeRecords(rs)|, ReportedAll(rs))
  {
    hide U16At, U32At, EncodeRecords, ParseEntries, EncodeEocd;
    var b := Archive(prefix, rs, comment);
    var dir := EncodeRecords(rs);
    var end := EncodeEocd(|rs|, |dir|, |prefix|, comment);
    var eocd := |prefix| + |dir|;
    assert Holds(b, |prefix|, dir) && Holds(b, eocd, end);
    EocdFields(b, eocd, |rs|, |dir|, |prefix|, comment);
    assert IsEocd(b, eocd);
    EocdIsUnique(b, eocd);
    LayoutParses(b, |prefix|, |rs|, rs, ReportedAll(rs), eocd);
  }

  /** What the reader does not compare: the end record describes one disk, this directory and the end of the file. */
  ghost predicate IsTight(b: Data, eocd: nat)
    requires eocd + EOCD_FIXED_BYTES <= |b|
  {
    && U16At(b, eocd + 4) == 0 && U16At(b, eocd + 6) == 0 && U16At(b, eocd + 8) == U16At(b, eocd + 10)
    && U32At(b, eocd + 16) + U32At(b, eocd + 12) == eocd
    && eocd + EOCD_FIXED_BYTES + U16At(b, eocd + 20) == |b|
  }

  /** The reader reports `entries`, stops at the end record, and that record is tight. */
  ghost predicate ReadsTightly(b: Data, eocd: nat, entries: seq<CentralEntry>) {
    IsEocd(b, eocd) && IsTight(b, eocd) && Directory(b) == Ok(Parsed(entries, eocd))
  }

  /** `b` is an unambiguous archive of `rs`, reported as `entries`. */
  ghost predicate IsArchive(b: Data, prefix: Data, rs: seq<CentralRecord>, comment: Data, entries: seq<CentralEntry>) {
    && (forall r | r in rs :: Encodable(r))
    && |prefix| < 0x1_0000_0000 && |rs| < 0x1_0000 && |EncodeRecords(rs)| < 0x1_0000_0000 && |comment| < 0x1_0000
    && b == Archive(prefix, rs, comment)
    && Unambiguous(b, |prefix| + |EncodeRecords(rs)|)
    && entries == ReportedAll(rs)
  }

  lemma ThreeParts(b: Data, prefix: Data, middle: Data, end: Data)
    requires prefix <= b && Holds(b, |prefix|, middle) && Holds(b, |prefix| + |middle|, end)
    requires |prefix| + |middle| + |end| == |b|
    ensures b == prefix + middle + end
  {
    var n, m := |prefix|, |prefix| + |middle|;
    assert b[..n] == prefix && b[n..m] == middle && b[m..m + |end|] == end && b[m..m + |end|] == b[m..];
    assert b == b[..n] + b[n..m] + b[m..];
  }

  lemma TightIsArchive(b: Data, eocd: nat, entries: seq<CentralEntry>)
    returns (prefix: Data, rs: seq<CentralRecord>, comment: Data)
    requires ReadsTightly(b, eocd, entries)
    ensures IsArchive(b, prefix, rs, comment, entries)
  {
    hide U16At, U32At, EncodeRecords, ParseEntries, EncodeEocd;
    EocdIsUnique(b, eocd);
    var count, size, offset := U16At(b, eocd + 10), U32At(b, eocd + 12), U32At(b, eocd + 16);
    rs := ParsedIsLayout(b, offset, count);
    prefix, comment := b[..offset], b[eocd + EOCD_FIXED_BYTES..];
    assert Holds(b, eocd + EOCD_FIXED_BYTES, comment);
    EocdFields(b, eocd, count, size, offset, comment);
    ThreeParts(b, prefix, EncodeRecords(rs), EncodeEocd(count, size, offset, comment));
  }

  /** Whole archives: what the reader reads tightly is exactly what is laid out as sections 4.3.12 and 4.3.16 say. */
  lemma ReaderInvertsArchive(b: Data, entries: seq<CentralEntry>)
    ensures (exists prefix, rs, comment :: IsArchive(b, prefix, rs, comment, entries))
       <==> (exists eocd: nat :: ReadsTightly(b, eocd, entries))
  {
    hide ReadsTightly;
    if prefix, rs, comment :| IsArchive(b, prefix, rs, comment, entries) {
      RoundTrip(prefix, rs, comment);
    }
    if eocd: nat :| ReadsTightly(b, eocd, entries) {
      var prefix, rs, comment := TightIsArchive(b, eocd, entries);
    }
  }

  /**
   * Entries are accepted outside the layout when the last one's extra field and comment, which are
   * never checked against the end of the file, pass it. A 46-byte record that announces 65,535 bytes
   * of extra field, followed at once by the end record, is accepted.
   */
  lemma LastExtraMayOverrun() returns (b: Data)
    ensures |b| == 68
    ensures Directory(b).Ok? && |Directory(b).value.value| == 1 && Directory(b).value.next == 46 + 0xffff
  {
    hide U16At, EncodeHead1, EncodeHead2, EncodeEocd, EntryOf;
    var r := CentralRecord(0, 0, 0, 0, 0, 0, 0, 0, 0, 0, 0, 0, 0, [], seq(0xffff, _ => 0), []);
    var head, end := EncodeHead1(r) + EncodeHead2(r), EncodeEocd(1, 46, 0, []);
    b := head + end;
    assert Holds(b, 0, head) && Holds(b, 46, end);
    HoldsConcat(b, 0, EncodeHead1(r), EncodeHead2(r));
    assert U32At(b, 26) == U16At(b, 26) + 0x1_0000 * U16At(b, 28);
    Head1Fields(b, 0, r);
    Head2Fields(b, 20, r);
    EocdFields(b, 46, 1, 46, 0, []);
    assert IsEocd(b, 46);
    EocdIsUnique(b, 46);
  }

  lemma NotLocator(b: Data, at: nat)
    requires at + 4 <= |b| && U16At(b, at + 2) == 0
    ensures U32At(b, at) != SIGNATURE_ZIP64_EOCD_LOCATOR
  {
  }

  /**
   * An archive is accepted although none of what its end record says is true but the number of
   * entries and where they begin: not the disks, not the entries on this disk, not the size of the
   * directory and not the length of the comment. Its one entry ends inside the file.
   */
  lemma EndRecordMayLie() returns (b: Data)
    ensures |b| == 68 && IsEocd(b, 46)
    ensures Directory(b).Ok? && |Directory(b).value.value| == 1 && Directory(b).value.next == 46
    ensures U16At(b, 50) == 1 && U16At(b, 52) == 2 && U16At(b, 54) == 7 && U32At(b, 58) == 0 && U16At(b, 66) == 9
  {
    hide U16At, U32At, EncodeHead1, EncodeHead2, EntryOf, Reported, EndRecord, ParseEntry;
    var r := CentralRecord(0, 0, 0, 0, 0, 0, 0, 0, 0, 0, 0, 0, 0, [], [], []);
    var end := EndRecord(1, 2, 7, 1, 0, 0, 9);
    b := EncodeRecord(r) + end;
    assert Holds(b, 0, EncodeRecord(r)) && Holds(b, 46, end);
    RecordParses(b, 0, r);
    EndRecordFields(b, 46, 1, 2, 7, 1, 0, 0, 9);
    assert IsEocd(b, 46);
    EocdIsUnique(b, 46);
    assert EncodeRecord(r) == EncodeHead1(r) + EncodeHead2(r);
    HoldsConcat(b, 0, EncodeHead1(r), EncodeHead2(r));
    Head2Fields(b, 20, r);
    NotLocator(b, 26);
    assert ParseEntries(b, 46, 0) == Ok(Parsed([], 46));
  }

  /**
   * A mode written into the high half of the external attributes is read back from a Unix-made
   * record and from no other; a directory is a trailing slash or, on Unix, the directory type.
   */
  lemma ModeReadsBack(host: Byte, version: Byte, mode: U16, low: U16, compression: U16, compressed: U32,
                      uncompressed: U32, name: Data, offset: U32)
    ensures var madeBy: int := host * 0x100 + version;
            var attributes: int := mode * 0x1_0000 + low;
            && 0 <= madeBy < 0x1_0000 && 0 <= attributes < 0x1_0000_0000
            && var e := EntryOf(madeBy, compression, compressed, uncompressed, name, attributes, offset);
               && e.unixMode == (if host == 3 then Some(mode) else None)
               && (e.isDirectory <==>
                     (name != [] && name[|name| - 1] == 0x2f) || (host == 3 && 0x4000 <= mode < 0x5000))
  {
  }

  // ---- Local headers -------------------------------------------------------------------------

  datatype LocalRecord = LocalRecord(
    versionNeeded: U16, flags: U16, compression: U16, time: U16, date: U16,
    crc: U32, compressed: U32, uncompressed: U32, name: Data, extra: Data)

  predicate LocalEncodable(r: LocalRecord) { |r.name| < 0x1_0000 && |r.extra| < 0x1_0000 }

  /** The fixed part, in the order of section 4.3.7. */
  function EncodeLocalHead(r: LocalRecord): (b: Data)
    requires LocalEncodable(r)
    ensures |b| == 30
  {
    Le32(SIGNATURE_LOCAL_HEADER) + Le16(r.versionNeeded) + Le16(r.flags) + Le16(r.compression)
    + Le16(r.time) + Le16(r.date) + Le32(r.crc) + Le32(r.compressed) + Le32(r.uncompressed)
    + Le16(|r.name|) + Le16(|r.extra|)
  }

  function EncodeLocal(r: LocalRecord): (b: Data)
    requires LocalEncodable(r)
    ensures |b| == 30 + |r.name| + |r.extra|
  {
    EncodeLocalHead(r) + r.name + r.extra
  }

  lemma LocalHeadFields(b: Data, at: nat, r: LocalRecord)
    requires LocalEncodable(r) && at + 30 <= |b|
    ensures Holds(b, at, EncodeLocalHead(r)) <==>
            && U32At(b, at) == SIGNATURE_LOCAL_HEADER && U16At(b, at + 4) == r.versionNeeded
            && U16At(b, at + 6) == r.flags && U16At(b, at + 8) == r.compression
            && U16At(b, at + 10) == r.time && U16At(b, at + 12) == r.date && U32At(b, at + 14) == r.crc
            && U32At(b, at + 18) == r.compressed && U32At(b, at + 22) == r.uncompressed
            && U16At(b, at + 26) == |r.name| && U16At(b, at + 28) == |r.extra|
  {
    hide U16At, U32At, Le16, Le32;
    var h4 := Le32(SIGNATURE_LOCAL_HEADER);
    var h6 := h4 + Le16(r.versionNeeded);
    var h8 := h6 + Le16(r.flags);
    var h10 := h8 + Le16(r.compression);
    var h12 := h10 + Le16(r.time);
    var h14 := h12 + Le16(r.date);
    var h18 := h14 + Le32(r.crc);
    var h22 := h18 + Le32(r.compressed);
    var h26 := h22 + Le32(r.uncompressed);
    var h28 := h26 + Le16(|r.name|);
    ReadLe32(b, at, SIGNATURE_LOCAL_HEADER);
    Holds16(b, at, h4, r.versionNeeded);
    Holds16(b, at, h6, r.flags);
    Holds16(b, at, h8, r.compression);
    Holds16(b, at, h10, r.time);
    Holds16(b, at, h12, r.date);
    Holds32(b, at, h14, r.crc);
    Holds32(b, at, h18, r.compressed);
    Holds32(b, at, h22, r.uncompressed);
    Holds16(b, at, h26, |r.name|);
    Holds16(b, at, h28, |r.extra|);
  }

  /** A local header sits where the entry says, and the entry's data fits behind it from `start` on. */
  ghost predicate LocalAt(b: Data, entry: CentralEntry, r: LocalRecord, start: nat) {
    && LocalEncodable(r) && Holds(b, entry.localHeaderOffset, EncodeLocal(r))
    && start == entry.localHeaderOffset + |EncodeLocal(r)|
    && start + entry.compressedBytes <= |b|
  }

  lemma LocalParses(b: Data, entry: CentralEntry, r: LocalRecord, start: nat)
    requires LocalAt(b, entry, r, start)
    ensures LocalDataOffset(b, entry) == Ok(start)
  {
    hide U16At, U32At, EncodeLocalHead;
    var at := entry.localHeaderOffset;
    HoldsConcat(b, at, EncodeLocalHead(r) + r.name, r.extra);
    HoldsConcat(b, at, EncodeLocalHead(r), r.name);
    LocalHeadFields(b, at, r);
  }

  lemma ParsedIsLocal(b: Data, entry: CentralEntry) returns (r: LocalRecord)
    requires LocalDataOffset(b, entry).Ok?
    ensures LocalAt(b, entry, r, LocalDataOffset(b, entry).value)
  {
    hide U16At, U32At, EncodeLocalHead;
    var at: nat := entry.localHeaderOffset;
    var nameEnd := at + 30 + U16At(b, at + 26);
    r := LocalRecord(
      U16At(b, at + 4), U16At(b, at + 6), U16At(b, at + 8), U16At(b, at + 10), U16At(b, at + 12),
      U32At(b, at + 14), U32At(b, at + 18), U32At(b, at + 22),
      b[at + 30..nameEnd], b[nameEnd..nameEnd + U16At(b, at + 28)]);
    LocalHeadFields(b, at, r);
    HoldsConcat(b, at, EncodeLocalHead(r), r.name);
    HoldsConcat(b, at, EncodeLocalHead(r) + r.name, r.extra);
  }

  /**
   * Data is located exactly behind a header laid out as section 4.3.7 says, by the header's own
   * lengths, and only if it fits in the file.
   */
  lemma LocalInvertsLayout(b: Data, entry: CentralEntry, start: nat)
    ensures LocalDataOffset(b, entry) == Ok(start) <==> exists r :: LocalAt(b, entry, r, start)
  {
    if LocalDataOffset(b, entry) == Ok(start) {
      var r := ParsedIsLocal(b, entry);
    }
    if r :| LocalAt(b, entry, r, start) {
      LocalParses(b, entry, r, start);
    }
  }
}
