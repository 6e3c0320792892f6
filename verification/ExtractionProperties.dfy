/** What extraction promises about the disk: at every state, after a failure, and after success. */
module ExtractionProperties {
  import opened Results
  import opened Bytes
  import opened Refusals
  import opened Text
  import opened Zip
  import opened Paths
  import opened Guard
  import opened Budget
  import opened Disks
  import opened Extraction

  /** Bytes declared by the members from `lo` up to `hi`. */
  function Sum(entries: seq<Inspected>, lo: nat, hi: nat): nat
    requires lo <= hi <= |entries|
    decreases hi
  {
    if lo == hi then 0 else Sum(entries, lo, hi - 1) + entries[hi - 1].uncompressedBytes
  }

  lemma {:induction false} SumFront(entries: seq<Inspected>, lo: nat, hi: nat)
    requires lo < hi <= |entries|
    ensures Sum(entries, lo, hi) == entries[lo].uncompressedBytes + Sum(entries, lo + 1, hi)
    decreases hi
  {
    if lo + 1 < hi {
      SumFront(entries, lo, hi - 1);
    }
  }

  lemma {:induction false} SumMonotone(entries: seq<Inspected>, lo: nat, mid: nat, hi: nat)
    requires lo <= mid <= hi <= |entries|
    ensures Sum(entries, lo, mid) <= Sum(entries, lo, hi)
    decreases hi
  {
    if mid < hi {
      SumMonotone(entries, lo, mid, hi - 1);
    }
  }

  lemma {:induction false} SumIsDeclared(entries: seq<CentralEntry>, n: nat)
    requires n <= |entries| && forall e | e in entries :: PathOf(e).Ok?
    ensures Sum(InspectedEntries(entries), 0, n) == Declared(entries[..n])
    decreases n
  {
    hide NormaliseEntryPath;
    if n > 0 {
      SumIsDeclared(entries, n - 1);
      assert entries[..n][..n - 1] == entries[..n - 1] && entries[n - 1] in entries;
    }
  }

  // ---- Every state of the disk ---------------------------------------------------------------

  lemma {:induction false} AppendsBounded(fs: Fs, path: AbsolutePath, content: Data, chunks: seq<Data>, begun: nat)
    requires path !in fs.files
    ensures forall s | s in AppendTrace(fs, path, content, chunks, begun) ::
              s.begun == begun && Size(s.fs.files) <= Size(fs.files) + |content| + |Flatten(chunks)|
    decreases |chunks|
  {
    if chunks != [] {
      SizeWith(fs.files, path, content + chunks[0]);
      AppendsBounded(fs, path, content + chunks[0], chunks[1..], begun);
    }
  }

  /** While one file is written the disk never gains more than that file declares. */
  lemma FileBounded(path: AbsolutePath, source: Stream, declared: nat, remaining: int, begun: nat, fs: Fs)
    ensures var run := RunFile(path, source, declared, remaining, begun, fs);
            && (forall s | s in run.trace :: s.begun == begun && Size(s.fs.files) <= Size(fs.files) + declared)
            && Size(run.fs.files) <= Size(fs.files) + declared
            && (run.outcome != WroteFile ==> Size(run.fs.files) <= Size(fs.files))
  {
    hide Feed, AppendTrace, Flatten;
    var fed := Feed(source, 0, declared, remaining);
    FeedBounded(source, 0, declared, remaining);
    SizeWith(fs.files, path, []);
    SizeWith(fs.files, path, Flatten(fed.emitted));
    if path !in fs.files {
      AppendsBounded(fs, path, [], fed.emitted, begun);
      assert fs.files[path := Flatten(fed.emitted)] - {path} == fs.files;
    }
  }

  lemma MemberBounded(job: Job, entry: Inspected, begun: nat, fs: Fs, written: nat)
    ensures var run := RunMember(job, entry, begun, fs, written);
            && (forall s | s in run.trace ::
                  s.begun == begun && Size(s.fs.files) <= Size(fs.files) + entry.uncompressedBytes)
            && Size(run.fs.files) <= Size(fs.files) + entry.uncompressedBytes
  {
    hide RunFile, Size, DestinationFor, Stripped;
    var stripped := Stripped(entry.path, job.strip);
    if stripped != "" && DestinationFor(job.root, stripped).Ok? && !entry.isDirectory && Source(job, entry.path).Ok? {
      var path := DestinationFor(job.root, stripped).value;
      var made := WithDirectory(fs, if path == [] then path else path[..|path| - 1]);
      FileBounded(path, Source(job, entry.path).value, entry.uncompressedBytes, job.budget - written, begun, made);
    }
  }

  lemma {:induction false} MembersBounded(job: Job, entries: seq<Inspected>, k: nat, fs: Fs, written: nat, start: nat)
    requires k <= |entries| && Size(fs.files) <= start + Sum(entries, 0, k)
    ensures var run := RunMembers(job, entries, k, fs, written);
            forall s | s in run.trace ::
              k < s.begun <= |entries| && Size(s.fs.files) <= start + Sum(entries, 0, s.begun)
    decreases |entries| - k
  {
    hide RunMember, Size, Stripped;
    if k < |entries| {
      var member := RunMember(job, entries[k], k + 1, fs, written);
      MemberBounded(job, entries[k], k + 1, fs, written);
      if !member.outcome.Failed? {
        var counted := if member.outcome == WroteFile then entries[k].uncompressedBytes else 0;
        MembersBounded(job, entries, k + 1, member.fs, written + counted, start);
      }
    }
  }

  /**
   * At every state the disk goes through, in the middle of a member and on an abort included, it
   * has gained at most what the members begun so far declare, hence at most the published budget.
   */
  lemma DiskNeverExceedsDeclarations(b: Data, root: AbsolutePath, limits: Limits, strip: nat, inflate: Data -> Stream,
                                     fs: Fs)
    requires AcceptableArchive(b, limits)
    ensures var run := RunAll(b, root, limits, strip, inflate, fs);
            forall s | s in run.trace ::
              && s.begun <= |DirectoryEntries(b).value|
              && Size(s.fs.files) <= Size(fs.files) + Declared(DirectoryEntries(b).value[..s.begun])
              && Size(s.fs.files) <= Size(fs.files) + UncompressedBudget(|b|, limits)
  {
    hide DirectoryEntries, RunMembers, Size, NormaliseEntryPath, InspectedEntries, Index, LooksLikeZip,
         UncompressedBudget;
    var entries, inspected := DirectoryEntries(b).value, Report(b, limits).entries;
    var run := RunAll(b, root, limits, strip, inflate, fs);
    InspectedLength(entries);
    MembersBounded(JobOf(b, root, limits, strip, inflate), inspected, 0, WithDirectory(fs, root), 0, Size(fs.files));
    forall s | s in run.trace
      ensures s.begun <= |entries| && Size(s.fs.files) <= Size(fs.files) + Declared(entries[..s.begun])
      ensures Size(s.fs.files) <= Size(fs.files) + UncompressedBudget(|b|, limits)
    {
      assert s.begun <= |entries|;
      SumIsDeclared(entries, s.begun);
      DeclaredMonotone(entries, s.begun);
    }
  }

  // ---- Nothing outside the root --------------------------------------------------------------

  /** Files not under the root are as they were, directories beside it too, and none is lost. */
  ghost predicate SameOutside(root: AbsolutePath, fs: Fs, before: Fs) {
    && (forall path | !(root <= path) ::
          && (path in fs.files <==> path in before.files)
          && (path in fs.files ==> fs.files[path] == before.files[path]))
    && (forall path | !(root <= path) && !(path <= root) :: path in fs.dirs <==> path in before.dirs)
    && before.dirs <= fs.dirs
  }

  lemma UpdateInside(root: AbsolutePath, before: Fs, fs: Fs, path: AbsolutePath, content: Data)
    requires root <= path && SameOutside(root, fs, before)
    ensures SameOutside(root, WithFile(fs, path, content), before) && SameOutside(root, WithoutFile(fs, path), before)
  {
  }

  lemma {:induction false} AppendsInside(root: AbsolutePath, before: Fs, fs: Fs, path: AbsolutePath, content: Data,
                                         chunks: seq<Data>, begun: nat)
    requires root <= path && SameOutside(root, fs, before)
    ensures forall s | s in AppendTrace(fs, path, content, chunks, begun) :: SameOutside(root, s.fs, before)
    decreases |chunks|
  {
    if chunks != [] {
      AppendsInside(root, before, fs, path, content + chunks[0], chunks[1..], begun);
    }
  }

  lemma FileInside(root: AbsolutePath, before: Fs, path: AbsolutePath, source: Stream, declared: nat, remaining: int,
                   begun: nat, fs: Fs)
    requires root <= path && SameOutside(root, fs, before)
    ensures var run := RunFile(path, source, declared, remaining, begun, fs);
            (forall s | s in run.trace :: SameOutside(root, s.fs, before)) && SameOutside(root, run.fs, before)
  {
    hide Feed, AppendTrace, Flatten, SameOutside, WithFile, WithoutFile;
    var emitted := Feed(source, 0, declared, remaining).emitted;
    AppendsInside(root, before, fs, path, [], emitted, begun);
    UpdateInside(root, before, fs, path, []);
    UpdateInside(root, before, fs, path, Flatten(emitted));
    UpdateInside(root, before, WithFile(fs, path, Flatten(emitted)), path, []);
  }

  lemma DirectoryInside(root: AbsolutePath, before: Fs, path: AbsolutePath, fs: Fs)
    requires SameOutside(root, fs, before)
    requires root <= path || path <= root
    ensures SameOutside(root, WithDirectory(fs, path), before)
  {
    forall k | 0 <= k <= |path|
      ensures root <= path[..k] || path[..k] <= root
    {
      if root <= path && |root| <= k {
        assert path[..k][..|root|] == root;
      } else if root <= path {
        assert path[..k] == root[..k];
      }
    }
  }

  lemma MemberInside(job: Job, before: Fs, entry: Inspected, begun: nat, fs: Fs, written: nat)
    requires CleanSegments(job.root) && SameOutside(job.root, fs, before)
    ensures var run := RunMember(job, entry, begun, fs, written);
            (forall s | s in run.trace :: SameOutside(job.root, s.fs, before)) && SameOutside(job.root, run.fs, before)
  {
    hide RunFile, DestinationFor, Stripped, SameOutside, CleanSegments, WithDirectory, Blocked, Source;
    var stripped := Stripped(entry.path, job.strip);
    if stripped != "" && DestinationFor(job.root, stripped).Ok? {
      DestinationStaysUnderRoot(job.root, stripped);
      var path := DestinationFor(job.root, stripped).value;
      var directory := if entry.isDirectory || path == [] then path else path[..|path| - 1];
      assert job.root <= directory || directory <= job.root;
      DirectoryInside(job.root, before, directory, fs);
      if !entry.isDirectory && Source(job, entry.path).Ok? {
        FileInside(job.root, before, path, Source(job, entry.path).value, entry.uncompressedBytes, job.budget - written,
                   begun, WithDirectory(fs, directory));
      }
    }
  }

  lemma {:induction false} MembersInside(job: Job, before: Fs, entries: seq<Inspected>, k: nat, fs: Fs, written: nat)
    requires k <= |entries| && CleanSegments(job.root) && SameOutside(job.root, fs, before)
    ensures var run := RunMembers(job, entries, k, fs, written);
            (forall s | s in run.trace :: SameOutside(job.root, s.fs, before)) && SameOutside(job.root, run.fs, before)
    decreases |entries| - k
  {
    hide RunMember, Stripped, SameOutside, CleanSegments;
    if k < |entries| {
      var member := RunMember(job, entries[k], k + 1, fs, written);
      MemberInside(job, before, entries[k], k + 1, fs, written);
      if !member.outcome.Failed? {
        var counted := if member.outcome == WroteFile then entries[k].uncompressedBytes else 0;
        MembersInside(job, before, entries, k + 1, member.fs, written + counted);
      }
    }
  }

  /**
   * Containment: at every state of the disk, for any root, stripping, disk and inflate, no file
   * outside the root has been made, changed or removed, and no directory but those on the way to the
   * root and those below it.
   */
  lemma NothingOutsideIsTouched(b: Data, root: AbsolutePath, limits: Limits, strip: nat, inflate: Data -> Stream,
                                fs: Fs)
    requires AcceptableArchive(b, limits) && CleanSegments(root)
    ensures var run := RunAll(b, root, limits, strip, inflate, fs);
            (forall s | s in run.trace :: SameOutside(root, s.fs, fs)) && SameOutside(root, run.fs, fs)
  {
    hide RunMembers, AcceptableArchive, Report, CleanSegments, WithDirectory, Blocked, Index;
    assert SameOutside(root, fs, fs);
    DirectoryInside(root, fs, root, fs);
    hide SameOutside;
    MembersInside(JobOf(b, root, limits, strip, inflate), fs, Report(b, limits).entries, 0, WithDirectory(fs, root), 0);
  }

  lemma InspectedLength(entries: seq<CentralEntry>)
    requires forall e | e in entries :: PathOf(e).Ok?
    ensures |InspectedEntries(entries)| == |entries|
    ensures forall k | 0 <= k < |entries| :: InspectedEntries(entries)[k] == InspectedEntry(entries[k])
  {
  }

  // ---- The second byte limit -----------------------------------------------------------------

  lemma MemberWithinBudget(job: Job, entry: Inspected, begun: nat, fs: Fs, written: nat)
    requires written + entry.uncompressedBytes <= job.budget
    ensures RunMember(job, entry, begun, fs, written).outcome != Failed(Refused(ExpansionRatioExceeded))
  {
    hide Feed, DestinationFor, Stripped, Blocked, AppendTrace;
    var stripped := Stripped(entry.path, job.strip);
    DestinationRefusal(job.root, stripped);
    if Source(job, entry.path).Ok? {
      DeclarationRefusesFirst(Source(job, entry.path).value, 0, entry.uncompressedBytes, job.budget - written);
    }
  }

  lemma DestinationRefusal(root: AbsolutePath, path: string)
    ensures DestinationFor(root, path).Err? ==> DestinationFor(root, path).error == PathEscapesRoot
  {
  }

  lemma {:induction false} MembersWithinBudget(job: Job, entries: seq<Inspected>, k: nat, fs: Fs, written: nat)
    requires k <= |entries| && written + Sum(entries, k, |entries|) <= job.budget
    ensures RunMembers(job, entries, k, fs, written).failure != Some(Refused(ExpansionRatioExceeded))
    decreases |entries| - k
  {
    hide RunMember, Stripped;
    if k < |entries| {
      SumFront(entries, k, |entries|);
      MemberWithinBudget(job, entries[k], k + 1, fs, written);
      var member := RunMember(job, entries[k], k + 1, fs, written);
      if !member.outcome.Failed? {
        var counted := if member.outcome == WroteFile then entries[k].uncompressedBytes else 0;
        MembersWithinBudget(job, entries, k + 1, member.fs, written + counted);
      }
    }
  }

  /**
   * The counter's second refusal never happens during an extraction, for any root, stripping, disk
   * and inflate: what is left of the budget always covers the declaration of the member at hand.
   */
  lemma BudgetIsNeverTheReason(b: Data, root: AbsolutePath, limits: Limits, strip: nat, inflate: Data -> Stream, fs: Fs)
    requires AcceptableArchive(b, limits)
    ensures RunAll(b, root, limits, strip, inflate, fs).failure != Some(Refused(ExpansionRatioExceeded))
  {
    hide DirectoryEntries, RunMembers, NormaliseEntryPath, InspectedEntries, Index, LooksLikeZip, UncompressedBudget;
    var entries, inspected := DirectoryEntries(b).value, Report(b, limits).entries;
    InspectedLength(entries);
    SumIsDeclared(entries, |entries|);
    assert entries[..|entries|] == entries;
    MembersWithinBudget(JobOf(b, root, limits, strip, inflate), inspected, 0, WithDirectory(fs, root), 0);
  }

  // ---- Stripping -----------------------------------------------------------------------------

  /** Stripping drops leading segments of a safe path and can do nothing else. */
  lemma StrippedIsSafe(path: string, strip: nat)
    requires IsNormalForm(path)
    ensures var kept := Drop(Split(path, '/'), strip);
            if strip >= |Split(path, '/')| then kept == [] && Stripped(path, strip) == ""
            else
              && kept == Split(path, '/')[strip..] && kept != []
              && IsNormalForm(Stripped(path, strip)) && Split(Stripped(path, strip), '/') == kept
  {
    var parts := Split(path, '/');
    var kept, stripped := Drop(parts, strip), Stripped(path, strip);
    if strip == 0 {
    } else if kept != [] {
      assert forall p | p in kept :: p in parts && CleanSegment(p);
      SplitJoin(kept, '/');
      forall c | c in stripped
        ensures c == '/' || c in path
      {
        CharOfJoin(kept, "/", c);
        if c != '/' {
          var p :| p in kept && c in p;
          CharOfPiece(path, '/', p, c);
        }
      }
    }
  }

  /** A stripped member goes to the root followed by the segments that are left. */
  lemma StrippedDestination(root: AbsolutePath, path: string, strip: nat)
    requires root != [] && CleanSegments(root) && IsNormalForm(path) && strip < |Split(path, '/')|
    ensures DestinationFor(root, Stripped(path, strip)) == Ok(root + Split(path, '/')[strip..])
  {
    StrippedIsSafe(path, strip);
    DestinationAccepts(root, Stripped(path, strip));
  }
}
