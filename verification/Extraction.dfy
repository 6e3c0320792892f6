/**
 * `extractArchive` (`safe-archive/src/guard.ts`): inspect, then write each member through the byte
 * counter. The specification is a function that also lists every state the disk goes through.
 */
module Extraction {
  import opened Results
  import opened Bytes
  import opened Refusals
  import opened Text
  import opened Zip
  import opened Paths
  import opened Guard
  import opened Budget
  import opened Disks

  /** A refusal by the guard, or an error from the file system or from inflate. */
  datatype Failure = Refused(reason: Refusal) | Io

  datatype Outcome = Skipped | MadeDirectory | WroteFile | Failed(failure: Failure)

  /** What stays the same during one extraction. `inflate` stands for `createInflateRaw`. */
  datatype Job = Job(
    bytes: Data,
    root: AbsolutePath,
    strip: nat,
    budget: nat,
    central: map<string, CentralEntry>,
    inflate: Data -> Stream)

  datatype MemberRun = MemberRun(trace: seq<Snapshot>, fs: Fs, outcome: Outcome)

  datatype Run = Run(trace: seq<Snapshot>, fs: Fs, files: seq<string>, written: nat, failure: Option<Failure>)

  datatype Extracted = Extracted(inspection: Inspection, files: seq<string>, bytesWritten: nat)

  function Drop(parts: seq<string>, n: nat): seq<string> {
    if n <= |parts| then parts[n..] else []
  }

  function Stripped(path: string, strip: nat): string {
    if strip == 0 then path else Join(Drop(Split(path, '/'), strip), "/")
  }

  /** Where a member's bytes come from, after inflate if it is deflated. */
  function MemberSource(bytes: Data, inflate: Data -> Stream, entry: CentralEntry): (r: Result<Stream, Refusal>)
    ensures r.Err? ==> r.error == MalformedArchive
  {
    match LocalDataOffset(bytes, entry)
    case Err(e) => Err(e)
    case Ok(start) =>
      var compressed := bytes[start..start + entry.compressedBytes];
      Ok(if entry.compressionMethod == COMPRESSION_DEFLATE then inflate(compressed) else Stream([compressed], true))
  }

  /** A member of method 8 is inflated, one of method 0 taken as it is, from behind its local header. */
  lemma SourceByMethod(bytes: Data, inflate: Data -> Stream, entry: CentralEntry, start: nat)
    requires LocalDataOffset(bytes, entry) == Ok(start)
    ensures entry.compressionMethod == 8 ==>
              MemberSource(bytes, inflate, entry) == Ok(inflate(bytes[start..start + entry.compressedBytes]))
    ensures entry.compressionMethod == 0 ==>
              MemberSource(bytes, inflate, entry) == Ok(Stream([bytes[start..start + entry.compressedBytes]], true))
  {
    hide LocalDataOffset;
  }

  /** The member is looked up by its normal path. */
  function Source(job: Job, path: string): (r: Result<Stream, Refusal>)
    ensures r.Err? ==> r.error == MalformedArchive
  {
    if path !in job.central then Err(MalformedArchive)
    else MemberSource(job.bytes, job.inflate, job.central[path])
  }

  /** The states of a disk while chunks are appended to a file that holds `content`. */
  function AppendTrace(fs: Fs, path: AbsolutePath, content: Data, chunks: seq<Data>, begun: nat): seq<Snapshot>
    decreases |chunks|
  {
    if chunks == [] then []
    else
      [Snapshot(begun, WithFile(fs, path, content + chunks[0]))]
      + AppendTrace(fs, path, content + chunks[0], chunks[1..], begun)
  }

  function VerdictOutcome(verdict: Verdict): Outcome {
    match verdict
    case Completed => WroteFile
    case Cut(reason) => Failed(Refused(reason))
    case Broken => Failed(Io)
  }

  /** Stream one file to a path whose parent directory exists. */
  function RunFile(path: AbsolutePath, source: Stream, declared: nat, remaining: int, begun: nat, fs: Fs): MemberRun {
    if path in fs.files || path in fs.dirs then
      MemberRun([Snapshot(begun, fs), Snapshot(begun, WithoutFile(fs, path))], WithoutFile(fs, path), Failed(Io))
    else
      var fed := Feed(source, 0, declared, remaining);
      var writes := [Snapshot(begun, WithFile(fs, path, []))] + AppendTrace(fs, path, [], fed.emitted, begun);
      var complete := WithFile(fs, path, Flatten(fed.emitted));
      if fed.verdict == Completed then MemberRun(writes, complete, WroteFile)
      else
        var cleaned := WithoutFile(complete, path);
        MemberRun(writes + [Snapshot(begun, cleaned)], cleaned, VerdictOutcome(fed.verdict))
  }

  function RunMember(job: Job, entry: Inspected, begun: nat, fs: Fs, written: nat): MemberRun {
    var stripped := Stripped(entry.path, job.strip);
    if stripped == "" then MemberRun([], fs, Skipped)
    else
      match DestinationFor(job.root, stripped)
      case Err(e) => MemberRun([], fs, Failed(Refused(e)))
      case Ok(path) =>
        var directory := if entry.isDirectory || path == [] then path else path[..|path| - 1];
        if Blocked(fs, directory) then MemberRun([Snapshot(begun, fs)], fs, Failed(Io))
        else
          var made := WithDirectory(fs, directory);
          if entry.isDirectory then MemberRun([Snapshot(begun, made)], made, MadeDirectory)
          else
            match Source(job, entry.path)
            case Err(e) => MemberRun([Snapshot(begun, made)], made, Failed(Refused(e)))
            case Ok(source) =>
              var run := RunFile(path, source, entry.uncompressedBytes, job.budget - written, begun, made);
              run.(trace := [Snapshot(begun, made)] + run.trace)
  }

  /** The members from the `k`-th on. */
  function RunMembers(job: Job, entries: seq<Inspected>, k: nat, fs: Fs, written: nat): Run
    requires k <= |entries|
    decreases |entries| - k
  {
    if k == |entries| then Run([], fs, [], written, None)
    else
      var member := RunMember(job, entries[k], k + 1, fs, written);
      if member.outcome.Failed? then Run(member.trace, member.fs, [], written, Some(member.outcome.failure))
      else
        var wrote := member.outcome == WroteFile;
        var counted := if wrote then entries[k].uncompressedBytes else 0;
        var rest := RunMembers(job, entries, k + 1, member.fs, written + counted);
        Run(member.trace + rest.trace, rest.fs,
            (if wrote then [Stripped(entries[k].path, job.strip)] else []) + rest.files,
            rest.written, rest.failure)
  }

  ghost function JobOf(b: Data, root: AbsolutePath, limits: Limits, strip: nat, inflate: Data -> Stream): Job
    requires AcceptableArchive(b, limits)
  {
    Job(b, root, strip, UncompressedBudget(|b|, limits), Index(DirectoryEntries(b).value), inflate)
  }

  /** The whole run on an archive inspection accepts. */
  ghost function RunAll(b: Data, root: AbsolutePath, limits: Limits, strip: nat, inflate: Data -> Stream, fs: Fs): Run
    requires AcceptableArchive(b, limits)
  {
    if Blocked(fs, root) then Run([Snapshot(0, fs)], fs, [], 0, Some(Io))
    else
      var made := WithDirectory(fs, root);
      var run := RunMembers(JobOf(b, root, limits, strip, inflate), Report(b, limits).entries, 0, made, 0);
      run.(trace := [Snapshot(0, made)] + run.trace)
  }

  // ---- The methods ---------------------------------------------------------------------------

  /** What is still to come after one chunk has been passed on or refused. */
  lemma FeedStep(source: Stream, written: nat, declared: nat, remaining: int, fs: Fs, path: AbsolutePath, content: Data,
                 begun: nat)
    requires source.chunks != []
    ensures var now := written + |source.chunks[0]|;
            var fed := Feed(source, written, declared, remaining);
            match Check(now, declared, remaining)
            case Some(reason) => fed == Fed([], Cut(reason))
            case None =>
              var rest := Feed(Stream(source.chunks[1..], source.ends), now, declared, remaining);
              && fed.verdict == rest.verdict
              && content + Flatten(fed.emitted) == content + source.chunks[0] + Flatten(rest.emitted)
              && AppendTrace(fs, path, content, fed.emitted, begun)
                 == [Snapshot(begun, WithFile(fs, path, content + source.chunks[0]))]
                    + AppendTrace(fs, path, content + source.chunks[0], rest.emitted, begun)
  {
  }

  /** The pipeline: chunk by chunk through the counter into a file just created. */
  method Pump(path: AbsolutePath, source: Stream, declared: nat, remaining: int, ghost begun: nat, ghost before: Fs,
              disk: Disk)
    returns (verdict: Verdict)
    requires disk.fs == WithFile(before, path, [])
    modifies disk
    ensures var fed := Feed(source, 0, declared, remaining);
            && verdict == fed.verdict
            && disk.fs == WithFile(before, path, Flatten(fed.emitted))
            && disk.history == old(disk.history) + AppendTrace(before, path, [], fed.emitted, begun)
  {
    hide Check, AppendTrace, Feed, Flatten;
    ghost var fed := Feed(source, 0, declared, remaining);
    var budgeted := new ByteBudget(declared, remaining);
    ghost var content: Data := [];
    var i := 0;
    assert Stream(source.chunks[0..], source.ends) == source;
    assert [] + Flatten(fed.emitted) == Flatten(fed.emitted);
    while i < |source.chunks|
      invariant 0 <= i <= |source.chunks|
      invariant budgeted.declared == declared && budgeted.remaining == remaining
      invariant disk.fs == WithFile(before, path, content)
      invariant var rest := Feed(Stream(source.chunks[i..], source.ends), budgeted.written, declared, remaining);
                && fed.verdict == rest.verdict
                && Flatten(fed.emitted) == content + Flatten(rest.emitted)
                && old(disk.history) + AppendTrace(before, path, [], fed.emitted, begun)
                   == disk.history + AppendTrace(before, path, content, rest.emitted, begun)
    {
      ghost var rest := Stream(source.chunks[i..], source.ends);
      FeedStep(rest, budgeted.written, declared, remaining, before, path, content, begun);
      assert rest.chunks[1..] == source.chunks[i + 1..];
      var passed := budgeted.Transform(source.chunks[i]);
      if passed.Err? {
        StreamOver(rest, budgeted.written, declared, remaining, before, path, content, begun);
        return Cut(passed.error);
      }
      disk.Append(path, passed.value, begun);
      content := content + passed.value;
      i := i + 1;
    }
    ghost var over := Stream(source.chunks[i..], source.ends);
    StreamOver(over, budgeted.written, declared, remaining, before, path, content, begun);
    return if source.ends then Completed else Broken;
  }

  lemma StreamOver(source: Stream, written: nat, declared: nat, remaining: int, fs: Fs, path: AbsolutePath,
                   content: Data, begun: nat)
    ensures source.chunks == [] ==>
              Feed(source, written, declared, remaining) == Fed([], if source.ends then Completed else Broken)
    ensures AppendTrace(fs, path, content, [], begun) == []
    ensures content + Flatten<Byte>([]) == content
  {
  }

  method StreamToFile(path: AbsolutePath, source: Stream, declared: nat, remaining: int, ghost begun: nat, disk: Disk)
    returns (outcome: Outcome)
    modifies disk
    ensures var run := RunFile(path, source, declared, remaining, begun, old(disk.fs));
            disk.fs == run.fs && disk.history == old(disk.history) + run.trace && outcome == run.outcome
  {
    hide Feed, AppendTrace;
    ghost var before := disk.fs;
    var created := disk.CreateExclusive(path, begun);
    if !created {
      disk.Remove(path, begun);
      return Failed(Io);
    }
    var verdict := Pump(path, source, declared, remaining, begun, before, disk);
    if verdict != Completed {
      disk.Remove(path, begun);
    }
    return VerdictOutcome(verdict);
  }

  method ExtractMember(job: Job, entry: Inspected, ghost begun: nat, written: nat, disk: Disk)
    returns (outcome: Outcome)
    modifies disk
    ensures var run := RunMember(job, entry, begun, old(disk.fs), written);
            disk.fs == run.fs && disk.history == old(disk.history) + run.trace && outcome == run.outcome
  {
    hide RunFile, DestinationFor, Source, Stripped, Blocked;
    var stripped := Stripped(entry.path, job.strip);
    if stripped == "" {
      return Skipped;
    }
    var destination := DestinationFor(job.root, stripped);
    if destination.Err? {
      return Failed(Refused(destination.error));
    }
    var path := destination.value;
    var made := disk.MakeDirectory(if entry.isDirectory || path == [] then path else path[..|path| - 1], begun);
    if !made {
      return Failed(Io);
    }
    if entry.isDirectory {
      return MadeDirectory;
    }
    var source := Source(job, entry.path);
    if source.Err? {
      return Failed(Refused(source.error));
    }
    outcome := StreamToFile(path, source.value, entry.uncompressedBytes, job.budget - written, begun, disk);
  }

  /** One turn of the extraction loop. */
  lemma MemberFirst(job: Job, entries: seq<Inspected>, k: nat, fs: Fs, written: nat)
    requires k < |entries|
    ensures var member := RunMember(job, entries[k], k + 1, fs, written);
            var run := RunMembers(job, entries, k, fs, written);
            if member.outcome.Failed? then
              run == Run(member.trace, member.fs, [], written, Some(member.outcome.failure))
            else
              var wrote := member.outcome == WroteFile;
              var counted := if wrote then entries[k].uncompressedBytes else 0;
              var rest := RunMembers(job, entries, k + 1, member.fs, written + counted);
              run == Run(member.trace + rest.trace, rest.fs,
                         (if wrote then [Stripped(entries[k].path, job.strip)] else []) + rest.files,
                         rest.written, rest.failure)
  {
    hide RunMember, Stripped;
  }

  lemma NoMemberLeft(job: Job, entries: seq<Inspected>, fs: Fs, written: nat)
    ensures RunMembers(job, entries, |entries|, fs, written) == Run([], fs, [], written, None)
  {
  }

  method ExtractMembers(job: Job, entries: seq<Inspected>, disk: Disk)
    returns (files: seq<string>, bytesWritten: nat, failure: Option<Failure>)
    modifies disk
    ensures var run := RunMembers(job, entries, 0, old(disk.fs), 0);
            && disk.fs == run.fs && disk.history == old(disk.history) + run.trace
            && failure == run.failure && files == run.files && bytesWritten == run.written
  {
    hide RunMember, RunMembers, Stripped;
    ghost var run := RunMembers(job, entries, 0, disk.fs, 0);
    files, bytesWritten := [], 0;
    assert [] + run.files == run.files;
    for k := 0 to |entries|
      invariant var rest := RunMembers(job, entries, k, disk.fs, bytesWritten);
                && run.fs == rest.fs && run.failure == rest.failure && run.written == rest.written
                && run.files == files + rest.files
                && old(disk.history) + run.trace == disk.history + rest.trace
    {
      MemberFirst(job, entries, k, disk.fs, bytesWritten);
      ghost var history, member := disk.history, RunMember(job, entries[k], k + 1, disk.fs, bytesWritten);
      var outcome := ExtractMember(job, entries[k], k + 1, bytesWritten, disk);
      if outcome.Failed? {
        return files, bytesWritten, Some(outcome.failure);
      }
      ghost var counted := if outcome == WroteFile then entries[k].uncompressedBytes else 0;
      ghost var rest := RunMembers(job, entries, k + 1, disk.fs, bytesWritten + counted);
      assert history + (member.trace + rest.trace) == disk.history + rest.trace;
      if outcome == WroteFile {
        bytesWritten := bytesWritten + entries[k].uncompressedBytes;
        files := files + [Stripped(entries[k].path, job.strip)];
      }
    }
    NoMemberLeft(job, entries, disk.fs, bytesWritten);
    failure := None;
  }

  method ExtractArchive(b: Data, root: AbsolutePath, limits: Limits, strip: nat, inflate: Data -> Stream, disk: Disk)
    returns (r: Result<Extracted, Failure>)
    modifies disk
    ensures !AcceptableArchive(b, limits) ==>
              r.Err? && r.error.Refused? && RefusedFor(b, limits, r.error.reason)
              && disk.fs == old(disk.fs) && disk.history == old(disk.history)
    ensures AcceptableArchive(b, limits) ==>
              var run := RunAll(b, root, limits, strip, inflate, old(disk.fs));
              && disk.fs == run.fs && disk.history == old(disk.history) + run.trace
              && r == match run.failure
                      case Some(failure) => Err(failure)
                      case None => Ok(Extracted(Report(b, limits), run.files, run.written))
  {
    hide AcceptableArchive, RefusedFor, Report, DirectoryEntries, Blocked, RunMembers, Index, Acceptable;
    var inspected := InspectArchive(b, limits);
    if inspected.Err? {
      return Err(Refused(inspected.error));
    }
    var inspection := inspected.value;
    var budget := UncompressedBudget(|b|, limits);
    var made := disk.MakeDirectory(root, 0);
    if !made {
      return Err(Io);
    }
    AcceptedIndexes(b, limits);
    var directory := ReadCentralDirectory(b);
    var central := BuildIndex(directory.value);
    var job := Job(b, root, strip, budget, central.value, inflate);
    var files, bytesWritten, failure := ExtractMembers(job, inspection.entries, disk);
    if failure.Some? {
      return Err(failure.value);
    }
    return Ok(Extracted(inspection, files, bytesWritten));
  }

  /**
   * The cleanup after a failed exclusive create removes whatever file it found there. An unshared
   * root holds such a file only if stripping gave two members the same path.
   */
  lemma CleanupRemovesWhatItFound(path: AbsolutePath, source: Stream, declared: nat, remaining: int, begun: nat, fs: Fs)
    requires path in fs.files
    ensures var run := RunFile(path, source, declared, remaining, begun, fs);
            run.outcome == Failed(Io) && run.fs.files == fs.files - {path}
  {
  }

  /** The second pass over the directory cannot fail once the first has succeeded. */
  lemma AcceptedIndexes(b: Data, limits: Limits)
    requires AcceptableArchive(b, limits)
    ensures DirectoryEntries(b).Ok?
    ensures forall e | e in DirectoryEntries(b).value :: PathOf(e).Ok?
  {
  }
}
