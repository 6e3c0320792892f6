/**
 * How an extraction ends: for a root nobody else uses and any stripping, exactly which member stops
 * it, what is on the disk then, which complete file a collision of stripped paths costs, and what
 * was written when nothing stopped it.
 */
module ExtractionOutcome {
  import opened Results
  import opened Bytes
  import opened Refusals
  import opened Text
  import opened Zip
  import opened Paths
  import opened Guard
  import opened Budget
  import opened Disks
  import opened Extraction
  import opened ExtractionProperties

  // ---- Vocabulary ----------------------------------------------------------------------------

  /** The segments stripping leaves of a path. */
  function Kept(path: string, strip: nat): seq<string> { Drop(Split(path, '/'), strip) }

  /** Where a member goes. */
  function Target(job: Job, entry: Inspected): AbsolutePath { job.root + Kept(entry.path, job.strip) }

  /** A member stripped to nothing is skipped. */
  predicate IsHandled(job: Job, entry: Inspected) { Kept(entry.path, job.strip) != [] }

  predicate IsWritten(job: Job, entry: Inspected) { IsHandled(job, entry) && !entry.isDirectory }

  /** The directory a member makes sure exists. */
  function DirectoryOf(job: Job, entry: Inspected): AbsolutePath {
    var path := Target(job, entry);
    if entry.isDirectory || path == [] then path else path[..|path| - 1]
  }

  function Payload(job: Job, path: string): Data {
    match Source(job, path)
    case Ok(source) => Flatten(source.chunks)
    case Err(_) => []
  }

  /** Reading and inflating the member works out and gives no more than it declares. */
  predicate Delivered(job: Job, entry: Inspected) {
    && Source(job, entry.path).Ok?
    && Source(job, entry.path).value.ends
    && |Payload(job, entry.path)| <= entry.uncompressedBytes
  }

  /** No earlier file goes where member `k` goes or above, and nothing earlier goes at or below a file. */
  ghost predicate Placeable(job: Job, entries: seq<Inspected>, k: nat)
    requires k < |entries|
  {
    && (forall i | 0 <= i < k && IsWritten(job, entries[i]) :: !(Target(job, entries[i]) <= Target(job, entries[k])))
    && (IsWritten(job, entries[k]) ==>
          forall i | 0 <= i < k && IsHandled(job, entries[i]) ::
            !(Target(job, entries[k]) <= Target(job, entries[i])))
  }

  ghost predicate Fine(job: Job, entries: seq<Inspected>, k: nat)
    requires k < |entries|
  {
    IsHandled(job, entries[k]) ==>
      Placeable(job, entries, k) && (entries[k].isDirectory || Delivered(job, entries[k]))
  }

  /** A file of an earlier member sits where member `k` needs a directory, or above it. */
  ghost predicate IsObstructed(job: Job, entries: seq<Inspected>, k: nat)
    requires k < |entries|
  {
    exists i :: 0 <= i < k && IsWritten(job, entries[i]) && Target(job, entries[i]) <= DirectoryOf(job, entries[k])
  }

  /** An earlier member made file `k`'s own path a file or a directory. */
  ghost predicate IsOccupied(job: Job, entries: seq<Inspected>, k: nat)
    requires k < |entries|
  {
    || (exists i :: 0 <= i < k && IsWritten(job, entries[i]) && Target(job, entries[i]) == Target(job, entries[k]))
    || (exists i :: 0 <= i < k && IsHandled(job, entries[i]) && Target(job, entries[k]) <= DirectoryOf(job, entries[i]))
  }

  /** Some prefix of what the member is read as is longer than it declares. */
  ghost predicate ExceedsDeclaration(job: Job, entry: Inspected) {
    Source(job, entry.path).Ok? &&
    var chunks := Source(job, entry.path).value.chunks;
    exists n: nat :: n <= |chunks| && |Flatten(chunks[..n])| > entry.uncompressedBytes
  }

  /** The one way in which member `k` fails, in the order in which extraction meets the reasons. */
  ghost predicate FailsWith(job: Job, entries: seq<Inspected>, k: nat, failure: Failure)
    requires k < |entries|
  {
    if IsObstructed(job, entries, k) then failure == Io
    else if Source(job, entries[k].path).Err? then failure == Refused(MalformedArchive)
    else if IsOccupied(job, entries, k) then failure == Io
    else if ExceedsDeclaration(job, entries[k]) then failure == Refused(DeclaredSizeMismatch)
    else !Source(job, entries[k].path).value.ends && failure == Io
  }

  /** Member `k` can be read and goes exactly where an earlier file went: stripping made them one path. */
  ghost predicate Collides(job: Job, entries: seq<Inspected>, k: nat)
    requires k < |entries|
  {
    && IsWritten(job, entries[k]) && Source(job, entries[k].path).Ok?
    && exists i :: 0 <= i < k && IsWritten(job, entries[i]) && Target(job, entries[i]) == Target(job, entries[k])
  }

  /** What the cleanup after member `k` takes away from the members before it. */
  ghost function Lost(job: Job, entries: seq<Inspected>, k: nat): set<AbsolutePath> {
    if k < |entries| && Collides(job, entries, k) then {Target(job, entries[k])} else {}
  }

  /** Nothing at, below or in the way of the extraction root. */
  ghost predicate Unshared(fs: Fs, root: AbsolutePath) {
    && (forall path | path in fs.files :: !(path <= root) && !(root <= path))
    && (forall path | path in fs.dirs :: !(root < path))
  }

  /** What inspection guarantees about each of its entries. */
  ghost predicate Inspectable(entries: seq<Inspected>) {
    && (forall k | 0 <= k < |entries| :: IsNormalForm(entries[k].path))
    && (forall k | 0 <= k < |entries| && entries[k].isDirectory :: entries[k].uncompressedBytes == 0)
  }

  ghost predicate Ready(job: Job, entries: seq<Inspected>, fs: Fs) {
    job.root != [] && CleanSegments(job.root) && Inspectable(entries) && Unshared(fs, job.root)
  }

  /** The files of the first `n` members, complete. */
  function FilesOf(job: Job, entries: seq<Inspected>, n: nat): map<AbsolutePath, Data>
    requires n <= |entries|
  {
    if n == 0 then map[]
    else if !IsWritten(job, entries[n - 1]) then FilesOf(job, entries, n - 1)
    else FilesOf(job, entries, n - 1)[Target(job, entries[n - 1]) := Payload(job, entries[n - 1].path)]
  }

  function PathsOf(job: Job, entries: seq<Inspected>, lo: nat, hi: nat): seq<string>
    requires lo <= hi <= |entries|
    decreases hi - lo
  {
    if lo == hi then []
    else
      (if IsWritten(job, entries[lo]) then [Stripped(entries[lo].path, job.strip)] else [])
      + PathsOf(job, entries, lo + 1, hi)
  }

  /** Bytes declared by the files among the first `n` members. */
  function DeclaredBy(job: Job, entries: seq<Inspected>, n: nat): nat
    requires n <= |entries|
  {
    if n == 0 then 0
    else
      DeclaredBy(job, entries, n - 1)
      + if IsWritten(job, entries[n - 1]) then entries[n - 1].uncompressedBytes else 0
  }

  /** The disk after the first `n` members, all fine. */
  ghost function After(job: Job, entries: seq<Inspected>, n: nat, fs: Fs): Fs
    requires n <= |entries|
  {
    Fs(fs.files + FilesOf(job, entries, n),
       fs.dirs + set k, i | 0 <= i < n && IsHandled(job, entries[i]) && 0 <= k <= |DirectoryOf(job, entries[i])| ::
                   DirectoryOf(job, entries[i])[..k])
  }

  /** The failures left once the destination and the budget cannot fail. */
  predicate PossibleFailure(failure: Failure) {
    failure in {Io, Refused(MalformedArchive), Refused(DeclaredSizeMismatch)}
  }

  lemma {:induction false} PrefixIsShorter(chunks: seq<Data>, n: nat)
    requires n <= |chunks|
    ensures |Flatten(chunks[..n])| <= |Flatten(chunks)|
  {
    FlattenAppend(chunks[..n], chunks[n..]);
    assert chunks[..n] + chunks[n..] == chunks;
  }

  lemma ExceedsIff(job: Job, entry: Inspected)
    ensures ExceedsDeclaration(job, entry) <==>
            Source(job, entry.path).Ok? && |Payload(job, entry.path)| > entry.uncompressedBytes
  {
    hide Source, Flatten;
    if Source(job, entry.path).Ok? {
      var chunks := Source(job, entry.path).value.chunks;
      assert chunks[..|chunks|] == chunks && |Flatten(chunks[..|chunks|])| == |Flatten(chunks)|;
      forall n: nat | n <= |chunks|
        ensures |Flatten(chunks[..n])| <= |Flatten(chunks)|
      {
        PrefixIsShorter(chunks, n);
      }
    }
  }

  // ---- Where members go ----------------------------------------------------------------------

  lemma {:induction false} FilesOfKeys(job: Job, entries: seq<Inspected>, n: nat, path: AbsolutePath)
    requires n <= |entries|
    ensures path in FilesOf(job, entries, n) <==>
            exists i :: 0 <= i < n && IsWritten(job, entries[i]) && Target(job, entries[i]) == path
  {
    hide Target, Payload, IsHandled;
    if n > 0 {
      FilesOfKeys(job, entries, n - 1, path);
    }
  }

  lemma PrefixOfDirectory(job: Job, entry: Inspected, path: AbsolutePath)
    ensures path <= Target(job, entry) <==> path <= DirectoryOf(job, entry) || path == Target(job, entry)
  {
    hide Kept;
  }

  lemma PrefixesCompare(a: AbsolutePath, b: AbsolutePath, whole: AbsolutePath)
    requires a <= whole && b <= whole
    ensures a <= b || b <= a
  {
  }

  lemma BlockedByPrefix(fs: Fs, path: AbsolutePath)
    ensures Blocked(fs, path) <==> exists file :: file in fs.files && file <= path
  {
    if Blocked(fs, path) {
      var k :| 0 <= k <= |path| && path[..k] in fs.files;
      assert path[..k] <= path;
    }
    if file :| file in fs.files && file <= path {
      assert path[..|file|] == file;
    }
  }

  /** The recursive `mkdir` for member `k` is blocked exactly by an earlier file at that directory or above. */
  lemma BlockedIff(job: Job, entries: seq<Inspected>, k: nat, fs: Fs)
    requires k < |entries| && IsHandled(job, entries[k]) && Unshared(fs, job.root)
    ensures Blocked(After(job, entries, k, fs), DirectoryOf(job, entries[k])) <==>
            exists i :: 0 <= i < k && IsWritten(job, entries[i])
                        && Target(job, entries[i]) <= DirectoryOf(job, entries[k])
  {
    hide Payload, Kept;
    var directory, after := DirectoryOf(job, entries[k]), After(job, entries, k, fs);
    assert job.root <= directory;
    BlockedByPrefix(after, directory);
    if file :| file in after.files && file <= directory {
      PrefixesCompare(file, job.root, directory);
      FilesOfKeys(job, entries, k, file);
    }
    if i :| 0 <= i < k && IsWritten(job, entries[i]) && Target(job, entries[i]) <= directory {
      FilesOfKeys(job, entries, k, Target(job, entries[i]));
    }
  }

  /** What the exclusive create for file `k` finds: an earlier file, or a directory made for an earlier member. */
  lemma OccupiedIff(job: Job, entries: seq<Inspected>, k: nat, fs: Fs)
    requires k < |entries| && IsWritten(job, entries[k]) && Unshared(fs, job.root)
    ensures var made := WithDirectory(After(job, entries, k, fs), DirectoryOf(job, entries[k]));
            var path := Target(job, entries[k]);
            && (path in made.files <==>
                  exists i :: 0 <= i < k && IsWritten(job, entries[i]) && Target(job, entries[i]) == path)
            && (path in made.dirs <==>
                  exists i :: 0 <= i < k && IsHandled(job, entries[i]) && path <= DirectoryOf(job, entries[i]))
  {
    hide Payload, Kept;
    var path, made := Target(job, entries[k]), WithDirectory(After(job, entries, k, fs), DirectoryOf(job, entries[k]));
    FilesOfKeys(job, entries, k, path);
    assert job.root < path;
    if path in made.dirs {
      var i, j :| 0 <= i < k && IsHandled(job, entries[i]) && 0 <= j <= |DirectoryOf(job, entries[i])|
                  && path == DirectoryOf(job, entries[i])[..j];
    }
    if i :| 0 <= i < k && IsHandled(job, entries[i]) && path <= DirectoryOf(job, entries[i]) {
      assert DirectoryOf(job, entries[i])[..|path|] == path;
    }
  }

  /** Being placeable is meeting none of those obstacles. */
  lemma PlaceableIff(job: Job, entries: seq<Inspected>, k: nat)
    requires k < |entries| && IsHandled(job, entries[k])
    ensures var path, directory := Target(job, entries[k]), DirectoryOf(job, entries[k]);
            Placeable(job, entries, k) <==>
              && (forall i | 0 <= i < k && IsWritten(job, entries[i]) :: !(Target(job, entries[i]) <= directory))
              && (IsWritten(job, entries[k]) ==>
                    && (forall i | 0 <= i < k && IsWritten(job, entries[i]) :: Target(job, entries[i]) != path)
                    && (forall i | 0 <= i < k && IsHandled(job, entries[i]) :: !(path <= DirectoryOf(job, entries[i]))))
  {
    hide Target, DirectoryOf;
    var path := Target(job, entries[k]);
    forall i | 0 <= i < k
      ensures Target(job, entries[i]) <= path <==>
              Target(job, entries[i]) <= DirectoryOf(job, entries[k]) || Target(job, entries[i]) == path
      ensures path <= Target(job, entries[i]) <==>
              path <= DirectoryOf(job, entries[i]) || path == Target(job, entries[i])
      ensures entries[i].isDirectory ==> DirectoryOf(job, entries[i]) == Target(job, entries[i])
      ensures entries[k].isDirectory ==> DirectoryOf(job, entries[k]) == path
    {
      PrefixOfDirectory(job, entries[k], Target(job, entries[i]));
      PrefixOfDirectory(job, entries[i], path);
      DirectoryIsTarget(job, entries[i]);
      DirectoryIsTarget(job, entries[k]);
    }
  }

  lemma DirectoryIsTarget(job: Job, entry: Inspected)
    ensures entry.isDirectory ==> DirectoryOf(job, entry) == Target(job, entry)
  {
    hide Target;
  }

  /** If the earlier members are fine, a file in the way of file `k` itself is the only file at or above it. */
  lemma CollisionIsUnblocked(job: Job, entries: seq<Inspected>, k: nat)
    requires k < |entries| && Collides(job, entries, k) && forall j | 0 <= j < k :: Fine(job, entries, j)
    ensures forall i | 0 <= i < k && IsWritten(job, entries[i]) ::
              !(Target(job, entries[i]) <= DirectoryOf(job, entries[k]))
  {
    hide Delivered, Kept, Source;
    var i :| 0 <= i < k && IsWritten(job, entries[i]) && Target(job, entries[i]) == Target(job, entries[k]);
    forall j | 0 <= j < k && IsWritten(job, entries[j])
      ensures !(Target(job, entries[j]) <= DirectoryOf(job, entries[k]))
    {
      PrefixOfDirectory(job, entries[k], Target(job, entries[j]));
      assert Fine(job, entries, i) && Fine(job, entries, j);
    }
  }

  // ---- One member ----------------------------------------------------------------------------

  /** What stripping and the destination check make of a member. */
  lemma TargetIs(job: Job, entry: Inspected)
    requires job.root != [] && CleanSegments(job.root) && IsNormalForm(entry.path)
    ensures Stripped(entry.path, job.strip) == "" <==> !IsHandled(job, entry)
    ensures IsHandled(job, entry) ==>
              DestinationFor(job.root, Stripped(entry.path, job.strip)) == Ok(Target(job, entry))
  {
    hide CleanSegments, DestinationFor, Stripped;
    StrippedIsSafe(entry.path, job.strip);
    if IsHandled(job, entry) {
      NormalFormStart(Stripped(entry.path, job.strip));
      StrippedDestination(job.root, entry.path, job.strip);
    }
  }

  /** A file streamed to a free path completes exactly when it is delivered within its declaration. */
  lemma FreshFile(path: AbsolutePath, source: Stream, declared: nat, remaining: int, begun: nat, fs: Fs)
    requires path !in fs.files && declared <= remaining
    ensures var run := RunFile(path, source, declared, remaining, begun, fs);
            && (path in fs.dirs ==> run.outcome.Failed?)
            && (path !in fs.dirs ==>
                  (run.outcome == WroteFile <==> source.ends && |Flatten(source.chunks)| <= declared))
            && (run.outcome == WroteFile ==> run.fs == WithFile(fs, path, Flatten(source.chunks)))
            && (run.outcome != WroteFile ==> run.outcome.Failed? && run.fs.files == fs.files)
            && (run.outcome.Failed? ==> PossibleFailure(run.outcome.failure))
            && (run.outcome.Failed? ==>
                  run.outcome.failure ==
                    if path in fs.dirs then Io
                    else if |Flatten(source.chunks)| > declared then Refused(DeclaredSizeMismatch) else Io)
  {
    hide Feed, AppendTrace, Flatten;
    var fed := Feed(source, 0, declared, remaining);
    FeedBreaks(source, 0, declared, remaining);
    FeedCompletes(source, 0, declared, remaining);
    FeedBounded(source, 0, declared, remaining);
    DeclarationRefusesFirst(source, 0, declared, remaining);
    assert fs.files[path := Flatten(fed.emitted)] - {path} == fs.files;
  }

  lemma AfterFile(job: Job, entries: seq<Inspected>, k: nat, fs: Fs)
    requires k < |entries|
    ensures After(job, entries, k + 1, fs) ==
            if !IsHandled(job, entries[k]) then After(job, entries, k, fs)
            else
              var made := WithDirectory(After(job, entries, k, fs), DirectoryOf(job, entries[k]));
              if entries[k].isDirectory then made
              else WithFile(made, Target(job, entries[k]), Payload(job, entries[k].path))
  {
    hide Target, Payload, IsHandled, DirectoryOf;
    var before, next := After(job, entries, k, fs), After(job, entries, k + 1, fs);
    if !IsHandled(job, entries[k]) {
      assert next.dirs == before.dirs;
    } else {
      assert next.dirs == WithDirectory(before, DirectoryOf(job, entries[k])).dirs;
      if !entries[k].isDirectory {
        assert next.files == before.files[Target(job, entries[k]) := Payload(job, entries[k].path)];
      }
    }
  }

  /** File `k`, once its directory exists and its data is located. */
  lemma FileStep(job: Job, entries: seq<Inspected>, k: nat, fs: Fs, written: nat)
    requires k < |entries| && IsWritten(job, entries[k]) && Source(job, entries[k].path).Ok? && Unshared(fs, job.root)
    requires written + entries[k].uncompressedBytes <= job.budget
    requires forall i | 0 <= i < k && IsWritten(job, entries[i]) ::
               !(Target(job, entries[i]) <= DirectoryOf(job, entries[k]))
    ensures var made := WithDirectory(After(job, entries, k, fs), DirectoryOf(job, entries[k]));
            var run := RunFile(Target(job, entries[k]), Source(job, entries[k].path).value,
                               entries[k].uncompressedBytes, job.budget - written, k + 1, made);
            && (run.outcome == WroteFile <==> Fine(job, entries, k))
            && (run.outcome == WroteFile ==> run.fs == After(job, entries, k + 1, fs))
            && (run.outcome != WroteFile ==>
                  && run.outcome.Failed? && PossibleFailure(run.outcome.failure)
                  && run.fs.files == After(job, entries, k, fs).files - Lost(job, entries, k)
                  && FailsWith(job, entries, k, run.outcome.failure)
                  && (Collides(job, entries, k) ==> run.outcome.failure == Io))
  {
    hide After, Target, DirectoryOf, IsHandled, Unshared, Placeable, ExceedsDeclaration;
    ExceedsIff(job, entries[k]);
    var path, made := Target(job, entries[k]), WithDirectory(After(job, entries, k, fs), DirectoryOf(job, entries[k]));
    var source, declared := Source(job, entries[k].path).value, entries[k].uncompressedBytes;
    OccupiedIff(job, entries, k, fs);
    PlaceableIff(job, entries, k);
    AfterFile(job, entries, k, fs);
    if path in made.files {
      CleanupRemovesWhatItFound(path, source, declared, job.budget - written, k + 1, made);
    } else {
      hide RunFile;
      FreshFile(path, source, declared, job.budget - written, k + 1, made);
      assert made.files - {} == made.files;
    }
  }

  /** Member `k`, on the disk its predecessors left, succeeds exactly when it is fine. */
  lemma MemberStep(job: Job, entries: seq<Inspected>, k: nat, fs: Fs, written: nat)
    requires k < |entries| && Ready(job, entries, fs) && forall j | 0 <= j < k :: Fine(job, entries, j)
    requires written + entries[k].uncompressedBytes <= job.budget
    ensures var run := RunMember(job, entries[k], k + 1, After(job, entries, k, fs), written);
            && (run.outcome.Failed? <==> !Fine(job, entries, k))
            && (!run.outcome.Failed? ==>
                  && run.fs == After(job, entries, k + 1, fs)
                  && run.outcome == if !IsHandled(job, entries[k]) then Skipped
                                    else if entries[k].isDirectory then MadeDirectory else WroteFile)
            && (run.outcome.Failed? ==>
                  && run.fs.files == After(job, entries, k, fs).files - Lost(job, entries, k)
                  && PossibleFailure(run.outcome.failure)
                  && FailsWith(job, entries, k, run.outcome.failure)
                  && (Collides(job, entries, k) ==> run.outcome.failure == Io))
  {
    hide RunFile, Source, After, Kept, IsNormalForm, CleanSegments, Blocked, DestinationFor, Stripped, Unshared,
         Inspectable, Placeable, ExceedsDeclaration, IsOccupied;
    var entry := entries[k];
    assert IsNormalForm(entry.path) by { InspectableAt(entries, k); }
    TargetIs(job, entry);
    AfterFile(job, entries, k, fs);
    assert After(job, entries, k, fs).files - {} == After(job, entries, k, fs).files;
    if IsHandled(job, entry) {
      BlockedIff(job, entries, k, fs);
      PlaceableIff(job, entries, k);
      if Blocked(After(job, entries, k, fs), DirectoryOf(job, entry)) {
        if Collides(job, entries, k) {
          CollisionIsUnblocked(job, entries, k);
        }
      } else if !entry.isDirectory && Source(job, entry.path).Ok? {
        FileStep(job, entries, k, fs, written);
      }
    }
  }

  lemma InspectableAt(entries: seq<Inspected>, k: nat)
    requires k < |entries| && Inspectable(entries)
    ensures IsNormalForm(entries[k].path)
  {
  }

  // ---- The whole run -------------------------------------------------------------------------

  /** The run stops at the first member that is not fine; `n` members were handled completely. */
  lemma {:induction false} MembersOutcome(job: Job, entries: seq<Inspected>, k: nat, fs: Fs) returns (n: nat)
    requires k <= |entries| && Ready(job, entries, fs) && forall j | 0 <= j < k :: Fine(job, entries, j)
    requires DeclaredBy(job, entries, k) + Sum(entries, k, |entries|) <= job.budget
    ensures k <= n <= |entries| && (forall j | 0 <= j < n :: Fine(job, entries, j))
    ensures n < |entries| ==> !Fine(job, entries, n)
    ensures var run := RunMembers(job, entries, k, After(job, entries, k, fs), DeclaredBy(job, entries, k));
            && (run.failure.None? <==> n == |entries|)
            && run.fs.files == After(job, entries, n, fs).files - Lost(job, entries, n)
            && run.files == PathsOf(job, entries, k, n)
            && run.written == DeclaredBy(job, entries, n)
            && (run.failure.Some? ==>
                  PossibleFailure(run.failure.value) && FailsWith(job, entries, n, run.failure.value))
            && (run.failure.Some? && Collides(job, entries, n) ==> run.failure == Some(Io))
    decreases |entries| - k
  {
    hide RunMember, After, Fine, Stripped, IsHandled, IsNormalForm, CleanSegments, Unshared, PossibleFailure, Collides,
         Inspectable, FailsWith;
    var written := DeclaredBy(job, entries, k);
    if k == |entries| {
      assert After(job, entries, k, fs).files - {} == After(job, entries, k, fs).files;
      return k;
    }
    SumFront(entries, k, |entries|);
    MemberStep(job, entries, k, fs, written);
    var member := RunMember(job, entries[k], k + 1, After(job, entries, k, fs), written);
    if member.outcome.Failed? {
      return k;
    }
    n := MembersOutcome(job, entries, k + 1, fs);
  }

  lemma ReportIsInspectable(b: Data, limits: Limits)
    requires AcceptableArchive(b, limits)
    ensures Inspectable(Report(b, limits).entries)
    ensures Sum(Report(b, limits).entries, 0, |Report(b, limits).entries|) == Report(b, limits).totalUncompressedBytes
    ensures Report(b, limits).totalUncompressedBytes <= UncompressedBudget(|b|, limits)
  {
    hide NormaliseEntryPath, IsNormalForm, DirectoryEntries, LooksLikeZip, InspectedEntries;
    var entries, inspected := DirectoryEntries(b).value, Report(b, limits).entries;
    InspectedLength(entries);
    SumIsDeclared(entries, |entries|);
    assert entries[..|entries|] == entries;
    forall k | 0 <= k < |inspected|
      ensures IsNormalForm(inspected[k].path) && PathOf(entries[k]) == Ok(inspected[k].path)
    {
      AcceptedIsNormalForm(entries[k].rawPath);
    }
  }

  /** The member looked up by path is the entry the inspected member came from. */
  lemma LookupsSucceed(b: Data, root: AbsolutePath, limits: Limits, strip: nat, inflate: Data -> Stream, k: nat)
    requires AcceptableArchive(b, limits) && k < |DirectoryEntries(b).value|
    ensures k < |Report(b, limits).entries|
    ensures Source(JobOf(b, root, limits, strip, inflate), Report(b, limits).entries[k].path)
         == MemberSource(b, inflate, DirectoryEntries(b).value[k])
  {
    hide NormaliseEntryPath, DirectoryEntries, LooksLikeZip, InspectedEntries, MemberSource, Index;
    InspectedLength(DirectoryEntries(b).value);
    IndexHolds(DirectoryEntries(b).value, UncompressedBudget(|b|, limits));
  }

  /** Without stripping every member is handled, so the files' declarations are the report's total. */
  lemma {:induction false} NothingIsSkipped(job: Job, entries: seq<Inspected>, n: nat)
    requires n <= |entries| && job.strip == 0 && Inspectable(entries)
    ensures DeclaredBy(job, entries, n) == Sum(entries, 0, n)
  {
    hide IsNormalForm;
    if n > 0 {
      NothingIsSkipped(job, entries, n - 1);
      assert Split(entries[n - 1].path, '/')[0..] == Split(entries[n - 1].path, '/');
    }
  }

  /**
   * For an unshared root and any stripping, the first `n` members are the ones handled completely.
   * The disk then holds what it held before and exactly their files, nothing partial, except that a
   * member that collides with one of them takes that file away. The run fails if and only if some
   * member is not fine, with the failure that member runs into, and the byte budget is never it.
   */
  lemma RunOutcome(b: Data, root: AbsolutePath, limits: Limits, strip: nat, inflate: Data -> Stream, fs: Fs)
    returns (n: nat)
    requires AcceptableArchive(b, limits) && root != [] && CleanSegments(root) && Unshared(fs, root)
    ensures var job, entries := JobOf(b, root, limits, strip, inflate), Report(b, limits).entries;
            var run := RunAll(b, root, limits, strip, inflate, fs);
            && n <= |entries| && (forall j | 0 <= j < n :: Fine(job, entries, j))
            && (n < |entries| ==> !Fine(job, entries, n))
            && (run.failure.None? <==> n == |entries|)
            && run.fs.files == fs.files + FilesOf(job, entries, n) - Lost(job, entries, n)
            && run.files == PathsOf(job, entries, 0, n)
            && run.written == DeclaredBy(job, entries, n)
            && (run.failure.None? && strip == 0 ==> run.written == Report(b, limits).totalUncompressedBytes)
            && (run.failure.Some? ==>
                  PossibleFailure(run.failure.value) && FailsWith(job, entries, n, run.failure.value))
            && (run.failure.Some? && Collides(job, entries, n) ==> run.failure == Some(Io))
  {
    hide RunMembers, Report, Fine, IsNormalForm, CleanSegments, Index, UncompressedBudget, AcceptableArchive,
         DirectoryEntries, PossibleFailure, Inspectable, Collides, FailsWith;
    ReportIsInspectable(b, limits);
    var job, entries := JobOf(b, root, limits, strip, inflate), Report(b, limits).entries;
    var made := WithDirectory(fs, root);
    UnsharedRoot(fs, root);
    assert After(job, entries, 0, made) == made;
    n := MembersOutcome(job, entries, 0, made);
    if strip == 0 {
      NothingIsSkipped(job, entries, n);
    }
  }

  lemma UnsharedRoot(fs: Fs, root: AbsolutePath)
    requires Unshared(fs, root)
    ensures !Blocked(fs, root) && Unshared(WithDirectory(fs, root), root)
  {
  }

  // ---- What is on the disk and on the list -----------------------------------------------------

  lemma {:induction false} FileHolds(job: Job, entries: seq<Inspected>, n: nat, i: nat)
    requires i < n <= |entries| && IsWritten(job, entries[i]) && forall j | 0 <= j < n :: Fine(job, entries, j)
    ensures Target(job, entries[i]) in FilesOf(job, entries, n)
    ensures FilesOf(job, entries, n)[Target(job, entries[i])] == Payload(job, entries[i].path)
  {
    hide Payload, Target, Delivered, IsHandled;
    if i < n - 1 {
      FileHolds(job, entries, n - 1, i);
      assert Fine(job, entries, n - 1);
    }
  }

  /** `at` numbers, upwards, the files among the members from `lo` up to `hi`, and `files` are their paths. */
  ghost predicate Lists(job: Job, entries: seq<Inspected>, lo: nat, hi: nat, at: seq<nat>, files: seq<string>)
    requires hi <= |entries|
  {
    && |at| == |files|
    && (forall i | 0 <= i < |at| ::
          && lo <= at[i] < hi && IsWritten(job, entries[at[i]])
          && files[i] == Join(Kept(entries[at[i]].path, job.strip), "/"))
    && (forall i, j | 0 <= i < j < |at| :: at[i] < at[j])
    && (forall k | lo <= k < hi && IsWritten(job, entries[k]) :: k in at)
  }

  lemma {:induction false} PathsAreListed(job: Job, entries: seq<Inspected>, lo: nat, hi: nat) returns (at: seq<nat>)
    requires lo <= hi <= |entries|
    ensures Lists(job, entries, lo, hi, at, PathsOf(job, entries, lo, hi))
    decreases hi - lo
  {
    hide IsWritten, Stripped, Kept, Lists;
    if lo == hi {
      at := [];
      NothingListed(job, entries, lo);
    } else {
      var rest := PathsAreListed(job, entries, lo + 1, hi);
      ListsStep(job, entries, lo, hi, rest, PathsOf(job, entries, lo + 1, hi));
      StrippedIsJoined(entries[lo].path, job.strip);
      at := if IsWritten(job, entries[lo]) then [lo] + rest else rest;
      assert [] + PathsOf(job, entries, lo + 1, hi) == PathsOf(job, entries, lo + 1, hi);
    }
  }

  lemma NothingListed(job: Job, entries: seq<Inspected>, lo: nat)
    requires lo <= |entries|
    ensures Lists(job, entries, lo, lo, [], [])
  {
  }

  lemma ListsStep(job: Job, entries: seq<Inspected>, lo: nat, hi: nat, at: seq<nat>, files: seq<string>)
    requires lo < hi <= |entries| && Lists(job, entries, lo + 1, hi, at, files)
    ensures if !IsWritten(job, entries[lo]) then Lists(job, entries, lo, hi, at, files)
            else Lists(job, entries, lo, hi, [lo] + at, [Join(Kept(entries[lo].path, job.strip), "/")] + files)
  {
    hide IsWritten, Kept, Join;
    var more := [lo] + at;
    assert more[0] == lo && forall k | k in at :: k in more;
  }

  lemma StrippedIsJoined(path: string, strip: nat)
    ensures Stripped(path, strip) == Join(Kept(path, strip), "/")
  {
    if strip == 0 {
      JoinSplit(path, '/');
    }
  }

  /**
   * On an unshared root every file handled completely and not lost holds exactly what its data
   * unpacks to, nothing else has come or changed, and the list names those files in archive order.
   */
  lemma RunLeaves(b: Data, root: AbsolutePath, limits: Limits, strip: nat, inflate: Data -> Stream, fs: Fs)
    returns (n: nat, at: seq<nat>)
    requires AcceptableArchive(b, limits) && root != [] && CleanSegments(root) && Unshared(fs, root)
    ensures var job, entries := JobOf(b, root, limits, strip, inflate), Report(b, limits).entries;
            var run := RunAll(b, root, limits, strip, inflate, fs);
            && n <= |entries| && (forall j | 0 <= j < n :: Fine(job, entries, j))
            && (n < |entries| ==> !Fine(job, entries, n))
            && Lists(job, entries, 0, n, at, run.files)
            && (forall i | 0 <= i < n && IsWritten(job, entries[i]) && Target(job, entries[i]) in run.fs.files ::
                  run.fs.files[Target(job, entries[i])] == Payload(job, entries[i].path))
            && (forall path | path in fs.files :: path in run.fs.files && run.fs.files[path] == fs.files[path])
            && (forall path | path in run.fs.files ::
                  || path in fs.files
                  || exists i :: 0 <= i < n && IsWritten(job, entries[i]) && Target(job, entries[i]) == path)
  {
    hide RunAll, Report, Fine, CleanSegments, Index, AcceptableArchive, Kept, PathsOf, DeclaredBy, Lists, Payload,
         FilesOf, FailsWith, Source;
    n := RunOutcome(b, root, limits, strip, inflate, fs);
    var job, entries := JobOf(b, root, limits, strip, inflate), Report(b, limits).entries;
    at := PathsAreListed(job, entries, 0, n);
    var files := FilesOf(job, entries, n);
    forall i | 0 <= i < n && IsWritten(job, entries[i])
      ensures Target(job, entries[i]) in files && files[Target(job, entries[i])] == Payload(job, entries[i].path)
    {
      FileHolds(job, entries, n, i);
    }
    forall path
      ensures path in files <==> exists i :: 0 <= i < n && IsWritten(job, entries[i]) && Target(job, entries[i]) == path
    {
      FilesOfKeys(job, entries, n, path);
    }
    forall path | path in fs.files
      ensures path !in files && path !in Lost(job, entries, n)
    {
      assert !(root <= path);
    }
  }

  // ---- When a complete file is lost ------------------------------------------------------------

  /**
   * A file written completely is missing at the end exactly when the member that stopped the run is
   * a file that could be read and was stripped to that same path.
   */
  lemma LostIffCollision(b: Data, root: AbsolutePath, limits: Limits, strip: nat, inflate: Data -> Stream, fs: Fs)
    returns (n: nat)
    requires AcceptableArchive(b, limits) && root != [] && CleanSegments(root) && Unshared(fs, root)
    ensures var job, entries := JobOf(b, root, limits, strip, inflate), Report(b, limits).entries;
            var run := RunAll(b, root, limits, strip, inflate, fs);
            && n <= |entries| && (forall j | 0 <= j < n :: Fine(job, entries, j))
            && (n < |entries| ==> !Fine(job, entries, n))
            && (run.failure.None? <==> n == |entries|)
            && forall i | 0 <= i < n && IsWritten(job, entries[i]) ::
                 Target(job, entries[i]) !in run.fs.files <==>
                   && n < |entries| && IsWritten(job, entries[n]) && Source(job, entries[n].path).Ok?
                   && Kept(entries[n].path, strip) == Kept(entries[i].path, strip)
  {
    hide RunAll, Report, Fine, CleanSegments, Index, AcceptableArchive, Unshared, Source, Kept, PathsOf, DeclaredBy;
    n := RunOutcome(b, root, limits, strip, inflate, fs);
    var job, entries := JobOf(b, root, limits, strip, inflate), Report(b, limits).entries;
    forall i | 0 <= i < n
      ensures IsWritten(job, entries[i]) ==> Target(job, entries[i]) in FilesOf(job, entries, n)
    {
      FilesOfKeys(job, entries, n, Target(job, entries[i]));
    }
    if n < |entries| {
      forall i | 0 <= i < n
        ensures Target(job, entries[i]) == Target(job, entries[n])
           <==> Kept(entries[i].path, strip) == Kept(entries[n].path, strip)
      {
        CancelRoot(root, Kept(entries[i].path, strip), Kept(entries[n].path, strip));
      }
    }
  }

  lemma CancelRoot(root: AbsolutePath, a: seq<string>, b: seq<string>)
    ensures root + a == root + b <==> a == b
  {
    assert (root + a)[|root|..] == a && (root + b)[|root|..] == b;
  }

  /** Files that stay distinct under stripping, as the inspection report shows, lose nothing. */
  lemma DistinctPathsLoseNothing(b: Data, root: AbsolutePath, limits: Limits, strip: nat, inflate: Data -> Stream,
                                 fs: Fs)
    returns (n: nat)
    requires AcceptableArchive(b, limits) && root != [] && CleanSegments(root) && Unshared(fs, root)
    requires var entries := Report(b, limits).entries;
             forall i, k | 0 <= i < k < |entries| && !entries[i].isDirectory && !entries[k].isDirectory
                           && Kept(entries[k].path, strip) != [] ::
               Kept(entries[i].path, strip) != Kept(entries[k].path, strip)
    ensures var job, entries := JobOf(b, root, limits, strip, inflate), Report(b, limits).entries;
            var run := RunAll(b, root, limits, strip, inflate, fs);
            && n <= |entries| && (forall j | 0 <= j < n :: Fine(job, entries, j))
            && (n < |entries| ==> !Fine(job, entries, n))
            && (run.failure.None? <==> n == |entries|)
            && run.fs.files == fs.files + FilesOf(job, entries, n)
  {
    hide RunAll, Report, Fine, CleanSegments, Index, AcceptableArchive, Unshared, Source, Kept, PathsOf, DeclaredBy,
         FilesOf;
    n := RunOutcome(b, root, limits, strip, inflate, fs);
    var job, entries := JobOf(b, root, limits, strip, inflate), Report(b, limits).entries;
    if n < |entries| && Collides(job, entries, n) {
      var i :| 0 <= i < n && IsWritten(job, entries[i]) && Target(job, entries[i]) == Target(job, entries[n]);
      CancelRoot(root, Kept(entries[i].path, strip), Kept(entries[n].path, strip));
      assert false;
    }
    assert fs.files + FilesOf(job, entries, n) - {} == fs.files + FilesOf(job, entries, n);
  }

  // ---- What `bytesWritten` counts ------------------------------------------------------------

  function PayloadTotal(job: Job, entries: seq<Inspected>, n: nat): nat
    requires n <= |entries|
  {
    if n == 0 then 0
    else
      PayloadTotal(job, entries, n - 1)
      + if IsWritten(job, entries[n - 1]) then |Payload(job, entries[n - 1].path)| else 0
  }

  lemma {:induction false} GainIsPayload(job: Job, entries: seq<Inspected>, n: nat, fs: Fs)
    requires n <= |entries| && Unshared(fs, job.root) && forall j | 0 <= j < n :: Fine(job, entries, j)
    ensures Size(fs.files + FilesOf(job, entries, n)) == Size(fs.files) + PayloadTotal(job, entries, n)
  {
    hide Payload, Target, IsHandled, Size, Unshared, Delivered;
    if n == 0 {
      assert fs.files + map[] == fs.files;
    } else {
      GainIsPayload(job, entries, n - 1, fs);
      if IsWritten(job, entries[n - 1]) {
        var path, before := Target(job, entries[n - 1]), fs.files + FilesOf(job, entries, n - 1);
        OccupiedIff(job, entries, n - 1, fs);
        assert Fine(job, entries, n - 1);
        SizeWith(before, path, Payload(job, entries[n - 1].path));
        assert fs.files + FilesOf(job, entries, n) == before[path := Payload(job, entries[n - 1].path)];
      }
    }
  }

  lemma {:induction false} PayloadAgainstDeclared(job: Job, entries: seq<Inspected>, n: nat)
    requires n <= |entries| && forall j | 0 <= j < n :: Fine(job, entries, j)
    ensures PayloadTotal(job, entries, n) <= DeclaredBy(job, entries, n)
    ensures PayloadTotal(job, entries, n) == DeclaredBy(job, entries, n) <==>
            forall j | 0 <= j < n && IsWritten(job, entries[j]) ::
              |Payload(job, entries[j].path)| == entries[j].uncompressedBytes
  {
    hide Payload, Source, IsHandled, Placeable;
    if n > 0 {
      PayloadAgainstDeclared(job, entries, n - 1);
      assert Fine(job, entries, n - 1);
    }
  }

  /**
   * `bytesWritten` adds up declarations, not bytes: after a success it equals what the disk gained
   * exactly when every file came out as long as it declared, and otherwise it is larger.
   */
  lemma BytesWrittenIsDeclared(b: Data, root: AbsolutePath, limits: Limits, strip: nat, inflate: Data -> Stream, fs: Fs)
    requires AcceptableArchive(b, limits) && root != [] && CleanSegments(root) && Unshared(fs, root)
    requires RunAll(b, root, limits, strip, inflate, fs).failure.None?
    ensures var job, entries := JobOf(b, root, limits, strip, inflate), Report(b, limits).entries;
            var run := RunAll(b, root, limits, strip, inflate, fs);
            && Size(run.fs.files) <= Size(fs.files) + run.written
            && (Size(run.fs.files) == Size(fs.files) + run.written <==>
                forall j | 0 <= j < |entries| && IsWritten(job, entries[j]) ::
                  |Payload(job, entries[j].path)| == entries[j].uncompressedBytes)
  {
    hide RunAll, Report, Payload, CleanSegments, Index, AcceptableArchive, Size, Unshared, Fine, IsHandled;
    var job, entries := JobOf(b, root, limits, strip, inflate), Report(b, limits).entries;
    var n := RunOutcome(b, root, limits, strip, inflate, fs);
    assert fs.files + FilesOf(job, entries, n) - {} == fs.files + FilesOf(job, entries, n);
    GainIsPayload(job, entries, n, fs);
    PayloadAgainstDeclared(job, entries, n);
  }

  /** A stored member comes out as long as its compressed size says. */
  lemma StoredLength(b: Data, root: AbsolutePath, limits: Limits, strip: nat, inflate: Data -> Stream, k: nat)
    requires AcceptableArchive(b, limits) && k < |DirectoryEntries(b).value| == |Report(b, limits).entries|
    requires DirectoryEntries(b).value[k].compressionMethod == COMPRESSION_STORE
    ensures var job, entry := JobOf(b, root, limits, strip, inflate), Report(b, limits).entries[k];
            Source(job, entry.path).Ok? && !entry.isDirectory ==> |Payload(job, entry.path)| == entry.compressedBytes
  {
    hide NormaliseEntryPath, DirectoryEntries, LooksLikeZip, Source, Index, LocalDataOffset;
    LookupsSucceed(b, root, limits, strip, inflate, k);
    InspectedLength(DirectoryEntries(b).value);
    var entry := DirectoryEntries(b).value[k];
    if LocalDataOffset(b, entry).Ok? {
      var start := LocalDataOffset(b, entry).value;
      var compressed := b[start..start + entry.compressedBytes];
      assert Flatten([compressed]) == compressed;
    }
  }

  /**
   * Where every file is stored, the directory alone decides: the reported count is what the disk
   * gained exactly when each file's two declared sizes agree.
   */
  lemma StoredBytesWritten(b: Data, root: AbsolutePath, limits: Limits, strip: nat, inflate: Data -> Stream, fs: Fs)
    requires AcceptableArchive(b, limits) && root != [] && CleanSegments(root) && Unshared(fs, root)
    requires RunAll(b, root, limits, strip, inflate, fs).failure.None?
    requires forall e | e in DirectoryEntries(b).value && !e.isDirectory :: e.compressionMethod == COMPRESSION_STORE
    ensures var entries := Report(b, limits).entries;
            var run := RunAll(b, root, limits, strip, inflate, fs);
            Size(run.fs.files) == Size(fs.files) + run.written <==>
              forall j | 0 <= j < |entries| && !entries[j].isDirectory && Kept(entries[j].path, strip) != [] ::
                entries[j].compressedBytes == entries[j].uncompressedBytes
  {
    hide RunAll, NormaliseEntryPath, Payload, CleanSegments, Index, DirectoryEntries, LooksLikeZip, Size, Unshared,
         Kept, Source, Placeable, InspectedEntry;
    var job, entries := JobOf(b, root, limits, strip, inflate), Report(b, limits).entries;
    var n := RunOutcome(b, root, limits, strip, inflate, fs);
    BytesWrittenIsDeclared(b, root, limits, strip, inflate, fs);
    InspectedLength(DirectoryEntries(b).value);
    forall j | 0 <= j < |entries| && IsWritten(job, entries[j])
      ensures |Payload(job, entries[j].path)| == entries[j].compressedBytes
    {
      assert Fine(job, entries, j);
      InspectedKind(DirectoryEntries(b).value[j]);
      StoredLength(b, root, limits, strip, inflate, j);
    }
  }

  lemma InspectedKind(e: CentralEntry)
    requires PathOf(e).Ok?
    ensures InspectedEntry(e).isDirectory == e.isDirectory
  {
  }
}
