/**
 * From writing to extracting: an archive laid out as `tests/helpers/build-zip.ts` lays it out, with
 * stored and deflated members, modes and directories, is extracted to exactly the contents that
 * were put in.
 */
module WriterRoundTrip {
  import opened Results
  import opened Bytes
  import opened Text
  import opened Zip
  import opened ZipLayout
  import opened Paths
  import opened Guard
  import opened Budget
  import opened Disks
  import opened Extraction
  import opened ExtractionProperties
  import opened ExtractionOutcome

  /** A member as the writer is given it: `packed` is the content, or the content deflated. */
  datatype Member = Member(name: Data, content: Data, packed: Data, deflated: bool, mode: Option<U16>, declared: U32)

  function MethodOf(m: Member): U16 { if m.deflated then COMPRESSION_DEFLATE else COMPRESSION_STORE }

  predicate Encodes(m: Member) {
    |m.name| < 0x1_0000 && |m.packed| < 0xffff_ffff && m.declared != ZIP64_SENTINEL
  }

  /** A member's local header; the checksum is left at zero. */
  function LocalRecordOf(m: Member): (r: LocalRecord)
    requires Encodes(m)
    ensures LocalEncodable(r)
  {
    LocalRecord(20, 0, MethodOf(m), 0, 0, 0, |m.packed|, m.declared, m.name, [])
  }

  function LocalHeader(m: Member): (b: Data)
    requires Encodes(m)
    ensures |b| == 30 + |m.name|
  {
    EncodeLocal(LocalRecordOf(m))
  }

  predicate Writable(members: seq<Member>) {
    |members| < 0x1_0000 && forall k | 0 <= k < |members| :: Encodes(members[k])
  }

  /** The first `n` members, header and data. */
  function Body(members: seq<Member>, n: nat): Data
    requires Writable(members) && n <= |members|
  {
    if n == 0 then [] else Body(members, n - 1) + LocalHeader(members[n - 1]) + members[n - 1].packed
  }

  /** Made on Unix if there is a mode, which then fills the high half of the attributes; else by DOS. */
  function RecordOf(m: Member, offset: U32): (r: CentralRecord)
    requires Encodes(m)
    ensures offset != ZIP64_SENTINEL ==> Encodable(r)
  {
    var attributes: int := match m.mode case Some(mode) => mode * 0x1_0000 case None => 0;
    CentralRecord(if m.mode.Some? then 0x0314 else 0x0014, 20, 0, MethodOf(m), 0, 0, 0, |m.packed|, m.declared,
                  0, 0, attributes, offset, m.name, [], [])
  }

  predicate Fits(members: seq<Member>) {
    Writable(members) && |Body(members, |members|)| < 0xffff_ffff
  }

  function Records(members: seq<Member>): (rs: seq<CentralRecord>)
    requires Fits(members)
    ensures |rs| == |members| && forall r | r in rs :: Encodable(r)
  {
    BodyGrows(members);
    seq(|members|, k requires 0 <= k < |members| => RecordOf(members[k], |Body(members, k)|))
  }

  lemma BodyGrows(members: seq<Member>)
    requires Fits(members)
    ensures forall k | 0 <= k <= |members| :: |Body(members, k)| < 0xffff_ffff
  {
    forall k | 0 <= k <= |members|
      ensures |Body(members, k)| < 0xffff_ffff
    {
      BodyPrefix(members, k, |members|);
    }
  }

  lemma {:induction false} BodyPrefix(members: seq<Member>, k: nat, n: nat)
    requires Writable(members) && k <= n <= |members|
    ensures Body(members, k) <= Body(members, n)
  {
    hide LocalHeader;
    if k < n {
      BodyPrefix(members, k, n - 1);
    }
  }

  ghost predicate Buildable(members: seq<Member>) {
    && Fits(members)
    && |EncodeRecords(Records(members))| < 0x1_0000_0000
    && Unambiguous(Build(members), |Body(members, |members|)| + |EncodeRecords(Records(members))|)
  }

  function Build(members: seq<Member>): Data
    requires Fits(members) && |EncodeRecords(Records(members))| < 0x1_0000_0000
  {
    Archive(Body(members, |members|), Records(members), [])
  }

  function Name(m: Member): string { Latin1(m.name) }

  /** Named as a directory, or made one by its mode. */
  predicate IsDirectory(m: Member) {
    || (m.name != [] && m.name[|m.name| - 1] == 0x2f)
    || (m.mode.Some? && FileType(m.mode.value) == 0x4000)
  }

  /** Bytes the files among the first `n` members declare. */
  function DeclaredTotal(members: seq<Member>, n: nat): nat
    requires n <= |members|
  {
    if n == 0 then 0
    else DeclaredTotal(members, n - 1) + if IsDirectory(members[n - 1]) then 0 else members[n - 1].declared
  }

  /** Every name is one the guard admits. */
  predicate Named(members: seq<Member>) { forall k | 0 <= k < |members| :: NormaliseEntryPath(Name(members[k])).Ok? }

  /** Admissible modes, distinct normal paths, and limits that leave room. */
  ghost predicate Permitted(members: seq<Member>, limits: Limits)
    requires Buildable(members)
  {
    && Named(members)
    && (forall m | m in members && m.mode.Some? :: FileType(m.mode.value) in {0, 0x8000, 0x4000})
    && (forall i, k | 0 <= i < k < |members| ::
          NormaliseEntryPath(Name(members[i])) != NormaliseEntryPath(Name(members[k])))
    && |Build(members)| <= limits.maxBytes
    && |members| <= limits.maxEntries
    && DeclaredTotal(members, |members|) <= UncompressedBudget(|Build(members)|, limits)
  }

  // ---- Finding a member again ----------------------------------------------------------------

  lemma HoldsParts(b: Data, before: Data, header: Data, content: Data)
    requires before + header + content <= b
    ensures Holds(b, |before|, header) && Holds(b, |before| + |header|, content)
  {
  }

  lemma BodyStep(members: seq<Member>, k: nat)
    requires Writable(members) && k < |members|
    ensures Body(members, k + 1) == Body(members, k) + LocalHeader(members[k]) + members[k].packed
  {
  }

  lemma BodyInBuild(members: seq<Member>, k: nat)
    requires Fits(members) && |EncodeRecords(Records(members))| < 0x1_0000_0000 && k <= |members|
    ensures Body(members, k) <= Build(members)
  {
    hide Body, EncodeRecords, Records, EncodeEocd;
    BodyPrefix(members, k, |members|);
    var whole, b := Body(members, |members|), Build(members);
    var n := |Body(members, k)|;
    assert b[..n] == b[..|whole|][..n] == whole[..n];
  }

  /** Member `k`'s header and data sit where its record says. */
  lemma MemberPlaced(members: seq<Member>, k: nat)
    requires Fits(members) && |EncodeRecords(Records(members))| < 0x1_0000_0000 && k < |members|
    ensures Holds(Build(members), |Body(members, k)|, LocalHeader(members[k]))
    ensures Holds(Build(members), |Body(members, k)| + 30 + |members[k].name|, members[k].packed)
  {
    hide LocalHeader, EncodeRecords, Records, Build, Holds, Body, EncodeRecord;
    BodyInBuild(members, k + 1);
    BodyStep(members, k);
    HoldsParts(Build(members), Body(members, k), LocalHeader(members[k]), members[k].packed);
  }

  /** The entry the directory reports for member `k`. */
  function EntryFor(members: seq<Member>, k: nat): CentralEntry
    requires Fits(members) && k < |members|
  {
    Reported(Records(members)[k])
  }

  lemma ReportedRecord(m: Member, offset: U32)
    requires Encodes(m)
    ensures var e := Reported(RecordOf(m, offset));
            && e.rawPath == Name(m) && e.compressionMethod == MethodOf(m)
            && e.compressedBytes == |m.packed| && e.uncompressedBytes == m.declared && e.localHeaderOffset == offset
            && e.unixMode == m.mode && e.isDirectory == IsDirectory(m)
  {
    hide FileType;
  }

  lemma EntryFields(members: seq<Member>, k: nat)
    requires Fits(members) && k < |members|
    ensures var e, m := EntryFor(members, k), members[k];
            && e.rawPath == Name(m) && e.compressionMethod == MethodOf(m)
            && e.compressedBytes == |m.packed| && e.uncompressedBytes == m.declared
            && e.localHeaderOffset == |Body(members, k)|
            && e.unixMode == m.mode && e.isDirectory == IsDirectory(m)
  {
    hide Body, MethodOf, Reported, RecordOf, IsDirectory;
    BodyGrows(members);
    ReportedRecord(members[k], |Body(members, k)|);
  }

  /** What member `k`'s data unpacks to. */
  function Unpacked(inflate: Data -> Stream, m: Member): Stream {
    if m.deflated then inflate(m.packed) else Stream([m.packed], true)
  }

  lemma SourceIsUnpacked(members: seq<Member>, inflate: Data -> Stream, k: nat)
    requires Fits(members) && |EncodeRecords(Records(members))| < 0x1_0000_0000 && k < |members|
    ensures MemberSource(Build(members), inflate, EntryFor(members, k)) == Ok(Unpacked(inflate, members[k]))
  {
    hide Build, Records, Body, EncodeRecords, EntryFor, LocalDataOffset, EncodeLocal;
    var b, m, at := Build(members), members[k], |Body(members, k)|;
    MemberPlaced(members, k);
    EntryFields(members, k);
    LocalParses(b, EntryFor(members, k), LocalRecordOf(m), at + 30 + |m.name|);
  }

  lemma StartsWithHeader(b: Data, r: LocalRecord)
    requires LocalEncodable(r) && Holds(b, 0, EncodeLocal(r))
    ensures LooksLikeZip(b)
  {
    hide U16At, U32At, EncodeLocalHead;
    HoldsConcat(b, 0, EncodeLocalHead(r) + r.name, r.extra);
    HoldsConcat(b, 0, EncodeLocalHead(r), r.name);
    LocalHeadFields(b, 0, r);
  }

  lemma BuildReadsBack(members: seq<Member>)
    requires Buildable(members)
    ensures DirectoryEntries(Build(members))
         == Ok(seq(|members|, k requires 0 <= k < |members| => EntryFor(members, k)))
    ensures LooksLikeZip(Build(members))
  {
    hide U16At, U32At, EncodeLocal, Records, EncodeRecord, EncodeEocd, Directory, DirectoryEntries, Reported, EocdAt,
         ReadsTightly;
    var rs := Records(members);
    RoundTrip(Body(members, |members|), rs, []);
    assert ReportedAll(rs) == seq(|members|, k requires 0 <= k < |members| => EntryFor(members, k));
    if members == [] {
      assert Holds(Build(members), 0, EncodeEocd(0, 0, 0, []));
      EocdFields(Build(members), 0, 0, 0, 0, []);
    } else {
      MemberPlaced(members, 0);
      StartsWithHeader(Build(members), LocalRecordOf(members[0]));
    }
  }

  lemma {:induction false} DeclaredIsTotal(members: seq<Member>, entries: seq<CentralEntry>, n: nat)
    requires Fits(members) && |entries| == |members| && n <= |members|
    requires forall k | 0 <= k < |members| :: entries[k] == EntryFor(members, k)
    ensures Declared(entries[..n]) == DeclaredTotal(members, n)
  {
    hide EntryFor, Body, IsDirectory;
    if n > 0 {
      DeclaredIsTotal(members, entries, n - 1);
      EntryFields(members, n - 1);
      assert entries[..n][..n - 1] == entries[..n - 1];
    }
  }

  lemma BuildIsAccepted(members: seq<Member>, limits: Limits)
    requires Buildable(members) && Permitted(members, limits)
    ensures AcceptableArchive(Build(members), limits)
    ensures DirectoryEntries(Build(members)).value
         == seq(|members|, k requires 0 <= k < |members| => EntryFor(members, k))
  {
    hide NormaliseEntryPath, Build, EntryFor, Body, Records, LocalHeader, DirectoryEntries, LooksLikeZip, IsDirectory,
         Unambiguous, EncodeRecords, UncompressedBudget, FileType;
    BuildReadsBack(members);
    var entries := DirectoryEntries(Build(members)).value;
    DeclaredIsTotal(members, entries, |members|);
    assert entries[..|members|] == entries;
    forall k | 0 <= k < |entries|
      ensures PathOf(entries[k]) == NormaliseEntryPath(Name(members[k]))
      ensures IsRegular(entries[k]) && IsRunnable(entries[k])
    {
      EntryFields(members, k);
    }
  }

  // ---- The theorem ---------------------------------------------------------------------------

  /** The path a permitted member is extracted to, before stripping. */
  function PathFor(m: Member): string
    requires NormaliseEntryPath(Name(m)).Ok?
  {
    NormaliseEntryPath(Name(m)).value
  }

  /** A file something is left of after stripping. */
  predicate LeavesFile(m: Member, strip: nat)
    requires NormaliseEntryPath(Name(m)).Ok?
  {
    !IsDirectory(m) && Kept(PathFor(m), strip) != []
  }

  /** What the first `n` members should leave on the disk. */
  function Contents(root: AbsolutePath, strip: nat, members: seq<Member>, n: nat): map<AbsolutePath, Data>
    requires n <= |members| && Named(members)
  {
    if n == 0 then map[]
    else if !LeavesFile(members[n - 1], strip) then Contents(root, strip, members, n - 1)
    else
      Contents(root, strip, members, n - 1)[root + Kept(PathFor(members[n - 1]), strip) := members[n - 1].content]
  }

  /** Inflate undoes deflate on the member, and the declared size covers the content. */
  predicate Restores(inflate: Data -> Stream, m: Member) {
    && Unpacked(inflate, m).ends
    && Flatten(Unpacked(inflate, m).chunks) == m.content
    && |m.content| <= m.declared
  }

  /** After stripping no file is at or above another member. */
  ghost predicate PrefixFree(members: seq<Member>, strip: nat)
    requires Named(members)
  {
    forall i, k | 0 <= i < |members| && 0 <= k < |members| && i != k
                  && LeavesFile(members[i], strip) && Kept(PathFor(members[k]), strip) != [] ::
      !(Kept(PathFor(members[i]), strip) <= Kept(PathFor(members[k]), strip))
  }

  /** The report on member `k` and what a lookup of it finds. */
  ghost predicate IsMember(job: Job, entry: Inspected, m: Member)
    requires NormaliseEntryPath(Name(m)).Ok?
  {
    && entry.path == PathFor(m) && entry.isDirectory == IsDirectory(m)
    && (!entry.isDirectory ==>
          && entry.compressedBytes == |m.packed| && entry.uncompressedBytes == m.declared
          && Source(job, entry.path) == Ok(Unpacked(job.inflate, m)))
  }

  lemma MemberFor(members: seq<Member>, limits: Limits, root: AbsolutePath, strip: nat, inflate: Data -> Stream, k: nat)
    requires Buildable(members) && Permitted(members, limits) && k < |members|
    requires AcceptableArchive(Build(members), limits) && |Report(Build(members), limits).entries| == |members|
    ensures IsMember(JobOf(Build(members), root, limits, strip, inflate),
                     Report(Build(members), limits).entries[k], members[k])
  {
    hide NormaliseEntryPath, Build, EntryFor, Body, Records, LocalHeader, DirectoryEntries, IsDirectory, Acceptable,
         Unambiguous, EncodeRecords, UncompressedBudget, Source, MemberSource, Index, LooksLikeZip, Unpacked;
    var b := Build(members);
    BuildIsAccepted(members, limits);
    AcceptedIndexes(b, limits);
    InspectedLength(DirectoryEntries(b).value);
    LookupsSucceed(b, root, limits, strip, inflate, k);
    SourceIsUnpacked(members, inflate, k);
    EntryFields(members, k);
  }

  lemma {:induction false} FilesAreContents(job: Job, entries: seq<Inspected>, members: seq<Member>, n: nat)
    requires n <= |members| == |entries| && Named(members)
    requires forall k | 0 <= k < |members| :: IsMember(job, entries[k], members[k])
    requires forall k | 0 <= k < |members| && LeavesFile(members[k], job.strip) :: Restores(job.inflate, members[k])
    ensures FilesOf(job, entries, n) == Contents(job.root, job.strip, members, n)
  {
    hide NormaliseEntryPath, Unpacked, Kept, IsDirectory, Source;
    if n > 0 {
      FilesAreContents(job, entries, members, n - 1);
      assert IsMember(job, entries[n - 1], members[n - 1]);
    }
  }

  lemma MemberIsFine(job: Job, entries: seq<Inspected>, members: seq<Member>, k: nat)
    requires k < |members| == |entries| && Named(members)
    requires forall i | 0 <= i < |members| :: IsMember(job, entries[i], members[i])
    requires LeavesFile(members[k], job.strip) ==> Restores(job.inflate, members[k])
    requires PrefixFree(members, job.strip)
    ensures Fine(job, entries, k)
  {
    hide NormaliseEntryPath, Unpacked, Kept, IsDirectory, Source;
    assert IsMember(job, entries[k], members[k]);
    forall i | 0 <= i < k && IsHandled(job, entries[i]) && IsHandled(job, entries[k])
      ensures IsWritten(job, entries[i]) ==> !(Target(job, entries[i]) <= Target(job, entries[k]))
      ensures IsWritten(job, entries[k]) ==> !(Target(job, entries[k]) <= Target(job, entries[i]))
    {
      assert IsMember(job, entries[i], members[i]);
      PrefixUnderRoot(job.root, Kept(entries[i].path, job.strip), Kept(entries[k].path, job.strip));
      PrefixUnderRoot(job.root, Kept(entries[k].path, job.strip), Kept(entries[i].path, job.strip));
    }
  }

  lemma PrefixUnderRoot(root: AbsolutePath, a: seq<string>, b: seq<string>)
    ensures root + a <= root + b <==> a <= b
  {
    if root + a <= root + b {
      assert (root + b)[|root|..] == b && (root + b)[..|root + a|][|root|..] == b[..|a|];
      assert (root + a)[|root|..] == a;
    }
    if a <= b {
      assert root + b == root + a + b[|a|..];
    }
  }

  /** The members of a permitted archive, as inspection and extraction see them. */
  lemma BuiltMembers(members: seq<Member>, limits: Limits, root: AbsolutePath, strip: nat, inflate: Data -> Stream)
    requires Buildable(members) && Permitted(members, limits)
    ensures AcceptableArchive(Build(members), limits)
    ensures var job := JobOf(Build(members), root, limits, strip, inflate);
            var entries := Report(Build(members), limits).entries;
            |entries| == |members| && forall k | 0 <= k < |members| :: IsMember(job, entries[k], members[k])
  {
    hide NormaliseEntryPath, Build, EntryFor, Body, Records, DirectoryEntries, Acceptable, LooksLikeZip, EncodeRecords,
         Unambiguous, UncompressedBudget, IsMember, Declared, FileCount, IsDirectory, Index;
    var b := Build(members);
    BuildIsAccepted(members, limits);
    AcceptedIndexes(b, limits);
    InspectedLength(DirectoryEntries(b).value);
    forall k | 0 <= k < |members|
      ensures IsMember(JobOf(b, root, limits, strip, inflate), Report(b, limits).entries[k], members[k])
    {
      MemberFor(members, limits, root, strip, inflate, k);
    }
  }

  /** What was written into the archive is what extraction leaves on the disk, stripped or not. */
  lemma WrittenIsExtracted(members: seq<Member>, limits: Limits, root: AbsolutePath, strip: nat,
                           inflate: Data -> Stream, fs: Fs)
    requires Buildable(members) && Permitted(members, limits) && PrefixFree(members, strip)
    requires forall k | 0 <= k < |members| && LeavesFile(members[k], strip) :: Restores(inflate, members[k])
    requires root != [] && CleanSegments(root) && Unshared(fs, root)
    ensures AcceptableArchive(Build(members), limits)
    ensures var run := RunAll(Build(members), root, limits, strip, inflate, fs);
            run.failure.None? && run.fs.files == fs.files + Contents(root, strip, members, |members|)
  {
    hide NormaliseEntryPath, Build, Body, Records, DirectoryEntries, AcceptableArchive, RunAll, Report, IsMember,
         Kept, CleanSegments, Unshared, EncodeRecords, Unambiguous, UncompressedBudget, Fine, PrefixFree, Restores,
         FilesOf, Contents, Collides, Index;
    var b := Build(members);
    BuiltMembers(members, limits, root, strip, inflate);
    var n := RunOutcome(b, root, limits, strip, inflate, fs);
    var job, entries := JobOf(b, root, limits, strip, inflate), Report(b, limits).entries;
    forall k | 0 <= k < |members|
      ensures Fine(job, entries, k)
    {
      MemberIsFine(job, entries, members, k);
    }
    FilesAreContents(job, entries, members, |members|);
    var files := fs.files + FilesOf(job, entries, n);
    assert files - {} == files;
  }

  // ---- Which archives are unambiguous --------------------------------------------------------

  /** With an empty comment only a Zip64 locator in the last record can make an archive ambiguous. */
  lemma EmptyCommentEndsSearch(members: seq<Member>)
    requires Fits(members) && |EncodeRecords(Records(members))| < 0x1_0000_0000
    ensures var eocd := |Body(members, |members|)| + |EncodeRecords(Records(members))|;
            forall later | eocd < later :: !EocdAt(Build(members), later)
  {
  }

  lemma {:induction false} LastRecordEnds(rs: seq<CentralRecord>)
    requires rs != [] && forall r | r in rs :: Encodable(r)
    ensures var b, last := EncodeRecords(rs), EncodeRecord(rs[|rs| - 1]);
            |last| <= |b| && b[|b| - |last|..] == last
  {
    hide EncodeRecord;
    if |rs| == 1 {
      assert EncodeRecords(rs) == EncodeRecord(rs[0]) + [];
    } else {
      LastRecordEnds(rs[1..]);
      var b, rest, last := EncodeRecords(rs), EncodeRecords(rs[1..]), EncodeRecord(rs[|rs| - 1]);
      assert b == EncodeRecord(rs[0]) + rest && rs[1..][|rs| - 2] == rs[|rs| - 1];
      assert b[|b| - |last|..] == rest[|rest| - |last|..];
    }
  }

  /** The middle of a written record: the length of its name, and then zeros up to the mode. */
  lemma RecordMiddle(m: Member, offset: U32)
    requires Encodes(m) && offset != ZIP64_SENTINEL
    ensures var b := EncodeRecord(RecordOf(m, offset));
            && U16At(b, 28) == |m.name| && U16At(b, 30) == 0 && U16At(b, 32) == 0
            && U16At(b, 34) == 0 && U16At(b, 36) == 0 && U16At(b, 38) == 0
  {
    hide U16At, EncodeHead1, EncodeHead2, MethodOf;
    var r := RecordOf(m, offset);
    var b, head := EncodeRecord(r), EncodeHead1(r) + EncodeHead2(r);
    assert Holds(b, 0, head + r.name + r.extra + r.comment);
    HoldsConcat(b, 0, head + r.name + r.extra, r.comment);
    HoldsConcat(b, 0, head + r.name, r.extra);
    HoldsConcat(b, 0, head, r.name);
    HoldsConcat(b, 0, EncodeHead1(r), EncodeHead2(r));
    Head2Fields(b, 20, r);
    assert U32At(b, 38) == U16At(b, 38) + 0x1_0000 * U16At(b, 40);
  }

  lemma NoLocatorInRecord(m: Member, offset: U32)
    requires Encodes(m) && offset != ZIP64_SENTINEL && |m.name| < 14
    ensures U32At(EncodeRecord(RecordOf(m, offset)), 26 + |m.name|) != SIGNATURE_ZIP64_EOCD_LOCATOR
  {
    hide EncodeRecord, RecordOf;
    RecordMiddle(m, offset);
    var b := EncodeRecord(RecordOf(m, offset));
    assert b[28] == |m.name| && forall k | 29 <= k < 40 :: b[k] == 0;
    assert |m.name| >= 3 ==> b[26 + |m.name|] == 0;
  }

  lemma SameBytesSameNumber(b: Data, at: nat, part: Data, from: nat)
    requires from + 4 <= |part| && at + |part| <= |b| && b[at..at + |part|] == part
    ensures U32At(b, at + from) == U32At(part, from)
  {
    var whole := b[at..at + |part|];
    assert whole[from] == b[at + from] && whole[from + 1] == b[at + from + 1];
    assert whole[from + 2] == b[at + from + 2] && whole[from + 3] == b[at + from + 3];
  }

  /** A short last name rules a Zip64 locator out. */
  lemma ShortNameIsUnambiguous(members: seq<Member>)
    requires Fits(members) && |EncodeRecords(Records(members))| < 0x1_0000_0000
    requires members != [] ==> |members[|members| - 1].name| < 14
    ensures Buildable(members)
  {
    hide EncodeRecord, EncodeEocd, U32At, EocdAt, Records, Body;
    EmptyCommentEndsSearch(members);
    if members == [] {
      NothingBeforeEnd();
    } else {
      var rs, m, b := Records(members), members[|members| - 1], Build(members);
      var body, dir := Body(members, |members|), EncodeRecords(rs);
      var offset := LastRecord(members);
      var last := EncodeRecord(RecordOf(m, offset));
      RecordLength(m, offset);
      LastRecordEnds(rs);
      var at := |body| + |dir| - |last|;
      assert b[at..at + |last|] == dir[|dir| - |last|..];
      NoLocatorInRecord(m, offset);
      SameBytesSameNumber(b, at, last, 26 + |m.name|);
      assert U32At(b, |body| + |dir| - 20) != SIGNATURE_ZIP64_EOCD_LOCATOR;
    }
  }

  lemma NothingBeforeEnd()
    ensures |Body([], 0)| + |EncodeRecords(Records([]))| == 0
  {
  }

  lemma RecordLength(m: Member, offset: U32)
    requires Encodes(m) && offset != ZIP64_SENTINEL
    ensures |EncodeRecord(RecordOf(m, offset))| == 46 + |m.name|
  {
  }

  lemma LastRecord(members: seq<Member>) returns (offset: U32)
    requires Fits(members) && members != []
    ensures offset != ZIP64_SENTINEL
    ensures Records(members)[|members| - 1] == RecordOf(members[|members| - 1], offset)
  {
    hide Body, RecordOf;
    BodyGrows(members);
    offset := |Body(members, |members| - 1)|;
  }

  lemma EmptyIsPermitted()
    ensures Buildable([]) && Permitted([], ARCHIVE_LIMITS)
  {
    hide EncodeEocd, EocdAt;
    ShortNameIsUnambiguous([]);
    assert |Build([])| == 22;
  }

  /** The archive with no members is accepted and extracts to nothing. */
  lemma EmptyArchiveIsExtracted(root: AbsolutePath, strip: nat, inflate: Data -> Stream, fs: Fs)
    requires root != [] && CleanSegments(root) && Unshared(fs, root)
    ensures AcceptableArchive(Build([]), ARCHIVE_LIMITS)
    ensures var run := RunAll(Build([]), root, ARCHIVE_LIMITS, strip, inflate, fs);
            run.failure.None? && run.fs.files == fs.files
  {
    hide RunAll, AcceptableArchive, Build, Buildable, Permitted, CleanSegments, Unshared;
    EmptyIsPermitted();
    WrittenIsExtracted([], ARCHIVE_LIMITS, root, strip, inflate, fs);
    assert fs.files + map[] == fs.files;
  }
}
