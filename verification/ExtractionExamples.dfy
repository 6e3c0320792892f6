/**
 * Small archives, byte for byte as the writer lays them out: two on which extraction does what the
 * comments of `safe-archive/src/guard.ts` do not say, and one that lies about its size.
 */
module ExtractionExamples {
  import opened Results
  import opened Bytes
  import opened Refusals
  import opened Text
  import opened Zip
  import opened ZipLayout
  import opened Paths
  import opened Guard
  import opened Budget
  import opened Disks
  import opened Extraction
  import opened ExtractionOutcome
  import opened WriterRoundTrip

  /** A stored member made by DOS, with one byte of content. */
  function OneByte(name: Data, content: Byte, declared: U32): Member {
    Member(name, [content], [content], false, None, declared)
  }

  lemma OneByteUnpacks(name: Data, content: Byte, declared: U32, inflate: Data -> Stream)
    requires declared > 0
    ensures Restores(inflate, OneByte(name, content, declared))
  {
    assert Flatten([[content]]) == [content];
  }

  lemma TwoSegments(directory: char, name: char, path: string)
    requires path == [directory, '/', name] && IsLetter(directory) && IsLetter(name)
    ensures Split(path, '/') == [[directory], [name]] && NormaliseEntryPath(path) == Ok(path)
    ensures Kept(path, 1) == [[name]]
  {
    assert path == [directory] + ['/'] + [name];
    SplitAtSeparator([directory], [name], '/');
    SplitWithoutSeparator([name], '/');
    assert CleanSegment([directory]) && CleanSegment([name]);
    NormaliseNormalForm(path);
  }

  // ---- Two files that stripping makes one ----------------------------------------------------

  /** `a/x` and `b/x`. */
  const COLLIDING: seq<Member> := [OneByte([0x61, 0x2f, 0x78], 1, 1), OneByte([0x62, 0x2f, 0x78], 2, 1)]

  lemma CollidingFits()
    ensures Fits(COLLIDING) && |EncodeRecords(Records(COLLIDING))| == 98 && |Build(COLLIDING)| == 188
  {
    hide EncodeRecord, LocalHeader, EncodeEocd;
    assert |Body(COLLIDING, 1)| == 34 && |Body(COLLIDING, 2)| == 68;
    var rs := Records(COLLIDING);
    assert EncodeRecords(rs) == EncodeRecord(rs[0]) + (EncodeRecord(rs[1]) + EncodeRecords(rs[2..]));
  }

  lemma CollidingNames()
    ensures Name(COLLIDING[0]) == "a/x" && Name(COLLIDING[1]) == "b/x"
    ensures NormaliseEntryPath("a/x") == Ok("a/x") && NormaliseEntryPath("b/x") == Ok("b/x")
    ensures Kept("a/x", 1) == ["x"] && Kept("b/x", 1) == ["x"]
    ensures Stripped("a/x", 1) == "x"
  {
    TwoSegments('a', 'x', "a/x");
    TwoSegments('b', 'x', "b/x");
  }

  lemma CollidingIsPermitted()
    ensures Buildable(COLLIDING) && Permitted(COLLIDING, ARCHIVE_LIMITS)
  {
    hide Build, Body, Records, EncodeRecords, NormaliseEntryPath, Unambiguous, Kept;
    CollidingFits();
    ShortNameIsUnambiguous(COLLIDING);
    CollidingNames();
    assert DeclaredTotal(COLLIDING, 2) == 2;
  }

  /** Of two files stripped to the same path the first is fine and the second collides with it. */
  lemma SecondCollides(job: Job, entries: seq<Inspected>, left: seq<string>)
    requires |entries| == 2 && !entries[0].isDirectory && !entries[1].isDirectory && left != []
    requires Kept(entries[0].path, job.strip) == left == Kept(entries[1].path, job.strip)
    requires Delivered(job, entries[0]) && Source(job, entries[1].path).Ok?
    ensures Fine(job, entries, 0) && !Fine(job, entries, 1) && Collides(job, entries, 1)
    ensures Lost(job, entries, 1) == {job.root + left}
    ensures FilesOf(job, entries, 1) == map[job.root + left := Payload(job, entries[0].path)]
    ensures PathsOf(job, entries, 0, 1) == [Stripped(entries[0].path, job.strip)]
    ensures DeclaredBy(job, entries, 1) == entries[0].uncompressedBytes
  {
    hide Kept, Source, Stripped, Payload;
    assert PathsOf(job, entries, 0, 1) == [Stripped(entries[0].path, job.strip)] + PathsOf(job, entries, 1, 1);
    assert FilesOf(job, entries, 1) == FilesOf(job, entries, 0)[job.root + left := Payload(job, entries[0].path)];
  }

  /**
   * Stripped by one, as a repository archive is, the second member's failure deletes the first
   * member's complete file: nothing is left on the disk, and `x` is still listed as written.
   */
  lemma CollisionLosesFile(root: AbsolutePath, inflate: Data -> Stream, fs: Fs)
    requires root != [] && CleanSegments(root) && Unshared(fs, root)
    ensures Buildable(COLLIDING) && AcceptableArchive(Build(COLLIDING), ARCHIVE_LIMITS)
    ensures var run := RunAll(Build(COLLIDING), root, ARCHIVE_LIMITS, 1, inflate, fs);
            run.failure == Some(Io) && run.files == ["x"] && run.written == 1 && run.fs.files == fs.files
  {
    hide Build, Permitted, Buildable, NormaliseEntryPath, AcceptableArchive, RunAll, Report, Index, CleanSegments,
         Unshared, Source, Stripped, Kept, UncompressedBudget, Records, EncodeRecords, Fine, Collides, FilesOf,
         PathsOf, Target;
    CollidingFits();
    CollidingIsPermitted();
    CollidingNames();
    var b, first, second := Build(COLLIDING), COLLIDING[0], COLLIDING[1];
    BuiltMembers(COLLIDING, ARCHIVE_LIMITS, root, 1, inflate);
    var n := RunOutcome(b, root, ARCHIVE_LIMITS, 1, inflate, fs);
    var job, entries := JobOf(b, root, ARCHIVE_LIMITS, 1, inflate), Report(b, ARCHIVE_LIMITS).entries;
    assert IsMember(job, entries[0], first) && IsMember(job, entries[1], second);
    OneByteUnpacks(first.name, 1, 1, inflate);
    SecondCollides(job, entries, ["x"]);
    NothingThere(fs, root, ["x"]);
  }

  lemma NothingThere(fs: Fs, root: AbsolutePath, below: seq<string>)
    requires Unshared(fs, root)
    ensures root + below !in fs.files
  {
    assert root <= root + below;
  }

  // ---- Declarations that are not true ----------------------------------------------------------

  /** `a`, one byte long, declaring another length. */
  function Declaring(declared: U32): seq<Member> { [OneByte([0x61], 7, declared)] }

  lemma DeclaringFits(declared: U32)
    requires declared != ZIP64_SENTINEL
    ensures var ms := Declaring(declared);
            Fits(ms) && |EncodeRecords(Records(ms))| == 47 && |Build(ms)| == 101
  {
    hide EncodeRecord, LocalHeader, EncodeEocd;
    var ms := Declaring(declared);
    assert |Body(ms, 1)| == 32;
    var rs := Records(ms);
    assert EncodeRecords(rs) == EncodeRecord(rs[0]) + EncodeRecords(rs[1..]);
  }

  lemma DeclaringIsPermitted(declared: U32)
    requires declared <= 5
    ensures var ms := Declaring(declared);
            && Buildable(ms) && Permitted(ms, ARCHIVE_LIMITS)
            && Name(ms[0]) == "a" && NormaliseEntryPath("a") == Ok("a") && Kept("a", 0) == ["a"]
  {
    hide Build, Body, Records, EncodeRecords, NormaliseEntryPath, Unambiguous;
    var ms := Declaring(declared);
    DeclaringFits(declared);
    ShortNameIsUnambiguous(ms);
    SplitWithoutSeparator("a", '/');
    assert CleanSegment("a") && Name(ms[0]) == "a";
    NormaliseNormalForm("a");
    assert DeclaredTotal(ms, 1) == declared;
  }

  lemma OneFileMore(files: map<AbsolutePath, Data>, path: AbsolutePath, content: Data)
    requires path !in files
    ensures Size(files + map[path := content]) == Size(files) + |content|
  {
    SizeWith(files, path, content);
    assert files + map[path := content] == files[path := content];
  }

  /** Declaring five, extraction succeeds and reports five bytes written, and the disk has gained one. */
  lemma DeclarationIsCounted(root: AbsolutePath, inflate: Data -> Stream, fs: Fs)
    requires root != [] && CleanSegments(root) && Unshared(fs, root)
    ensures Buildable(Declaring(5)) && AcceptableArchive(Build(Declaring(5)), ARCHIVE_LIMITS)
    ensures var run := RunAll(Build(Declaring(5)), root, ARCHIVE_LIMITS, 0, inflate, fs);
            run.failure.None? && run.written == 5 && Size(run.fs.files) == Size(fs.files) + 1
  {
    hide Build, Permitted, Buildable, NormaliseEntryPath, AcceptableArchive, RunAll, Report, Index, CleanSegments,
         Unshared, Source, Kept, UncompressedBudget, Size, Records, EncodeRecords, Collides, Fine, FilesOf, PathsOf;
    var ms := Declaring(5);
    DeclaringFits(5);
    DeclaringIsPermitted(5);
    var b, m := Build(ms), ms[0];
    OneByteUnpacks(m.name, 7, 5, inflate);
    WrittenIsExtracted(ms, ARCHIVE_LIMITS, root, 0, inflate, fs);
    BuiltMembers(ms, ARCHIVE_LIMITS, root, 0, inflate);
    var n := RunOutcome(b, root, ARCHIVE_LIMITS, 0, inflate, fs);
    var job, entries := JobOf(b, root, ARCHIVE_LIMITS, 0, inflate), Report(b, ARCHIVE_LIMITS).entries;
    assert IsMember(job, entries[0], m);
    assert DeclaredBy(job, entries, 1) == DeclaredBy(job, entries, 0) + 5;
    NothingThere(fs, root, ["a"]);
    OneFileMore(fs.files, root + ["a"], [7]);
    assert Contents(root, 0, ms, 1) == map[root + ["a"] := [7]];
  }

  /** A first member that unpacks to more than it declares. */
  lemma FirstLies(job: Job, entries: seq<Inspected>)
    requires |entries| == 1 && IsWritten(job, entries[0]) && Source(job, entries[0].path).Ok?
    requires |Payload(job, entries[0].path)| > entries[0].uncompressedBytes
    ensures !Fine(job, entries, 0) && Lost(job, entries, 0) == {}
    ensures forall failure :: FailsWith(job, entries, 0, failure) <==> failure == Refused(DeclaredSizeMismatch)
  {
    hide Source, Payload, IsHandled, ExceedsDeclaration;
    ExceedsIff(job, entries[0]);
  }

  /** Declaring nothing, it fails because the declaration is not true, and leaves nothing. */
  lemma LyingMemberIsRefused(root: AbsolutePath, inflate: Data -> Stream, fs: Fs)
    requires root != [] && CleanSegments(root) && Unshared(fs, root)
    ensures Buildable(Declaring(0)) && AcceptableArchive(Build(Declaring(0)), ARCHIVE_LIMITS)
    ensures var run := RunAll(Build(Declaring(0)), root, ARCHIVE_LIMITS, 0, inflate, fs);
            run.failure == Some(Refused(DeclaredSizeMismatch)) && run.files == [] && run.fs.files == fs.files
  {
    hide Build, Permitted, Buildable, NormaliseEntryPath, AcceptableArchive, RunAll, Report, Index, CleanSegments,
         Unshared, Source, Kept, UncompressedBudget, Records, EncodeRecords, Fine, FailsWith, Lost;
    var ms := Declaring(0);
    DeclaringFits(0);
    DeclaringIsPermitted(0);
    BuiltMembers(ms, ARCHIVE_LIMITS, root, 0, inflate);
    var n := RunOutcome(Build(ms), root, ARCHIVE_LIMITS, 0, inflate, fs);
    var job, entries := JobOf(Build(ms), root, ARCHIVE_LIMITS, 0, inflate), Report(Build(ms), ARCHIVE_LIMITS).entries;
    assert IsMember(job, entries[0], ms[0]);
    assert Flatten([[7]]) == [7];
    assert entries[0].path == "a" && job.strip == 0;
    FirstLies(job, entries);
    assert n == 0;
    assert fs.files + map[] - {} == fs.files;
  }
}
