/**
 * Inspection (`safe-archive/src/guard.ts`): every question about an archive answered from its
 * metadata, with one declarative predicate for the loop's early exits.
 */
module Guard {
  import opened Results
  import opened Bytes
  import opened Refusals
  import opened Text
  import opened Zip
  import opened Paths

  datatype Limits = Limits(maxBytes: nat, maxRatio: nat, maxEntries: nat, maxUncompressedBytes: nat)

  const ARCHIVE_LIMITS := Limits(52_428_800, 100, 20_000, 536_870_912)

  datatype Inspected = Inspected(path: string, compressedBytes: nat, uncompressedBytes: nat, isDirectory: bool)

  datatype Inspection = Inspection(
    archiveBytes: nat,
    entries: seq<Inspected>,
    fileCount: nat,
    totalUncompressedBytes: nat,
    expansionRatio: real)

  function UncompressedBudget(archiveBytes: nat, limits: Limits): nat {
    var ratio := archiveBytes * limits.maxRatio;
    if ratio < limits.maxUncompressedBytes then ratio else limits.maxUncompressedBytes
  }

  /** `assertRegular` lets it pass: no mode, no type bits, a regular file or a directory. */
  predicate IsRegular(e: CentralEntry) {
    e.unixMode.None? || FileType(e.unixMode.value) in {0, 0x8000, 0x4000}
  }

  predicate IsRunnable(e: CentralEntry) {
    e.compressionMethod == COMPRESSION_STORE || e.compressionMethod == COMPRESSION_DEFLATE
  }

  // ---- The specification ---------------------------------------------------------------------

  /** Bytes the files among the entries declare. */
  function Declared(entries: seq<CentralEntry>): nat {
    if entries == [] then 0
    else
      var last := entries[|entries| - 1];
      Declared(entries[..|entries| - 1]) + if last.isDirectory then 0 else last.uncompressedBytes
  }

  function FileCount(entries: seq<CentralEntry>): nat {
    if entries == [] then 0
    else FileCount(entries[..|entries| - 1]) + if entries[|entries| - 1].isDirectory then 0 else 1
  }

  function PathOf(e: CentralEntry): Result<string, Refusal> { NormaliseEntryPath(e.rawPath) }

  /** The rules on members, in no order. */
  ghost predicate Acceptable(entries: seq<CentralEntry>, budget: nat) {
    && (forall k | 0 <= k < |entries| ::
          PathOf(entries[k]).Ok? && IsRegular(entries[k]) && (entries[k].isDirectory || IsRunnable(entries[k])))
    && (forall i, k | 0 <= i < k < |entries| :: PathOf(entries[i]) != PathOf(entries[k]))
    && Declared(entries) <= budget
  }

  /** The rules on an archive, in no order. */
  ghost predicate AcceptableArchive(b: Data, limits: Limits) {
    && |b| <= limits.maxBytes
    && LooksLikeZip(b)
    && DirectoryEntries(b).Ok?
    && |DirectoryEntries(b).value| <= limits.maxEntries
    && Acceptable(DirectoryEntries(b).value, UncompressedBudget(|b|, limits))
  }

  function OverBudget(budget: nat, limits: Limits): Refusal {
    if budget == limits.maxUncompressedBytes then UncompressedTooLarge else ExpansionRatioExceeded
  }

  /** The first rule member `k` breaks, the earlier members being fine. */
  function MemberRefusal(entries: seq<CentralEntry>, k: nat, budget: nat, limits: Limits): Option<Refusal>
    requires k < |entries|
  {
    var e := entries[k];
    if PathOf(e).Err? then Some(PathOf(e).error)
    else if !IsRegular(e) then Some(NonRegularEntry)
    else if exists i | 0 <= i < k :: PathOf(entries[i]) == PathOf(e) then Some(MalformedArchive)
    else if e.isDirectory then None
    else if !IsRunnable(e) then Some(UnsupportedCompression)
    else if Declared(entries[..k + 1]) > budget then Some(OverBudget(budget, limits))
    else None
  }

  function InspectedEntry(e: CentralEntry): Inspected
    requires PathOf(e).Ok?
  {
    if e.isDirectory then Inspected(PathOf(e).value, 0, 0, true)
    else Inspected(PathOf(e).value, e.compressedBytes, e.uncompressedBytes, false)
  }

  function InspectedEntries(entries: seq<CentralEntry>): seq<Inspected>
    requires forall e | e in entries :: PathOf(e).Ok?
  {
    seq(|entries|, k requires 0 <= k < |entries| => InspectedEntry(entries[k]))
  }

  function Ratio(total: nat, archiveBytes: nat): real {
    if archiveBytes == 0 then 0.0 else total as real / archiveBytes as real
  }

  /** Acceptance of one more member, given acceptance of the ones before it. */
  lemma AcceptStep(entries: seq<CentralEntry>, k: nat, budget: nat, limits: Limits)
    requires k < |entries| && Acceptable(entries[..k], budget)
    ensures MemberRefusal(entries, k, budget, limits).None? <==> Acceptable(entries[..k + 1], budget)
  {
    var before, upto := entries[..k], entries[..k + 1];
    assert upto == before + [entries[k]];
    assert upto[..k] == before;
    if Acceptable(upto, budget) {
      assert upto[k] == entries[k];
      forall i | 0 <= i < k
        ensures PathOf(entries[i]) != PathOf(entries[k])
      {
        assert upto[i] == entries[i];
      }
    } else if MemberRefusal(entries, k, budget, limits).None? {
      forall j | 0 <= j < |upto|
        ensures PathOf(upto[j]).Ok? && IsRegular(upto[j]) && (upto[j].isDirectory || IsRunnable(upto[j]))
      {
        assert j < k ==> upto[j] == before[j];
      }
      forall i, j | 0 <= i < j < |upto|
        ensures PathOf(upto[i]) != PathOf(upto[j])
      {
        assert upto[i] == before[i] && (j < k ==> upto[j] == before[j]);
      }
    }
  }

  lemma {:induction false} DeclaredMonotone(entries: seq<CentralEntry>, k: nat)
    requires k <= |entries|
    ensures Declared(entries[..k]) <= Declared(entries)
    decreases |entries|
  {
    if k < |entries| {
      var before := entries[..|entries| - 1];
      DeclaredMonotone(before, k);
      assert before[..k] == entries[..k];
    } else {
      assert entries[..k] == entries;
    }
  }

  lemma AcceptablePrefix(entries: seq<CentralEntry>, k: nat, budget: nat)
    requires k <= |entries| && Acceptable(entries, budget)
    ensures Acceptable(entries[..k], budget)
  {
    DeclaredMonotone(entries, k);
  }

  // ---- The loop ------------------------------------------------------------------------------

  /** What the member loop collected for the members it has passed. */
  ghost predicate Collected(done: seq<CentralEntry>, inspected: seq<Inspected>, seen: set<string>, fileCount: nat,
                            total: nat)
  {
    && (forall e | e in done :: PathOf(e).Ok?)
    && inspected == InspectedEntries(done)
    && (forall path :: path in seen <==> exists e :: e in done && PathOf(e) == Ok(path))
    && fileCount == FileCount(done)
    && total == Declared(done)
  }

  lemma NothingCollected(budget: nat)
    ensures Collected([], [], {}, 0, 0) && Acceptable([], budget)
  {
  }

  lemma CollectedAll(done: seq<CentralEntry>, inspected: seq<Inspected>, seen: set<string>, fileCount: nat, total: nat)
    requires Collected(done, inspected, seen, fileCount, total)
    ensures (forall e | e in done :: PathOf(e).Ok?) && inspected == InspectedEntries(done)
    ensures fileCount == FileCount(done) && total == Declared(done)
  {
  }

  lemma CollectStep(done: seq<CentralEntry>, e: CentralEntry, inspected: seq<Inspected>, seen: set<string>,
                    fileCount: nat, total: nat)
    requires Collected(done, inspected, seen, fileCount, total) && PathOf(e).Ok?
    ensures Collected(done + [e], inspected + [InspectedEntry(e)], seen + {PathOf(e).value},
                      fileCount + (if e.isDirectory then 0 else 1),
                      total + (if e.isDirectory then 0 else e.uncompressedBytes))
  {
  }

  /** The loop body's checks on one member, against what the loop has collected so far. */
  method InspectMember(e: CentralEntry, seen: set<string>, total: nat, budget: nat, limits: Limits)
    returns (r: Result<Inspected, Refusal>)
    ensures r ==
            if PathOf(e).Err? then Err(PathOf(e).error)
            else if !IsRegular(e) then Err(NonRegularEntry)
            else if PathOf(e).value in seen then Err(MalformedArchive)
            else if !e.isDirectory && !IsRunnable(e) then Err(UnsupportedCompression)
            else if !e.isDirectory && total + e.uncompressedBytes > budget then Err(OverBudget(budget, limits))
            else Ok(InspectedEntry(e))
  {
    hide NormaliseEntryPath;
    var path := NormaliseEntryPath(e.rawPath);
    if path.Err? {
      return Err(path.error);
    }
    if !IsRegular(e) {
      return Err(NonRegularEntry);
    }
    if path.value in seen {
      return Err(MalformedArchive);
    }
    if e.isDirectory {
      return Ok(Inspected(path.value, 0, 0, true));
    }
    if !IsRunnable(e) {
      return Err(UnsupportedCompression);
    }
    if total + e.uncompressedBytes > budget {
      return Err(OverBudget(budget, limits));
    }
    return Ok(Inspected(path.value, e.compressedBytes, e.uncompressedBytes, false));
  }

  /** The member loop: it stops at the earliest member that breaks a rule. */
  method InspectMembers(entries: seq<CentralEntry>, budget: nat, limits: Limits)
    returns (refusal: Option<Refusal>, inspected: seq<Inspected>, fileCount: nat, total: nat)
    ensures refusal.None? <==> Acceptable(entries, budget)
    ensures refusal.None? ==> inspected == InspectedEntries(entries)
    ensures refusal.None? ==> fileCount == FileCount(entries) && total == Declared(entries)
    ensures refusal.Some? ==> RefusedForMember(entries, budget, limits, refusal.value)
  {
    hide NormaliseEntryPath, InspectedEntries, FileCount, Declared, Collected, Acceptable, MemberRefusal,
         InspectedEntry;
    NothingCollected(budget);
    inspected, fileCount, total := [], 0, 0;
    var seen: set<string> := {};
    for k := 0 to |entries|
      invariant Acceptable(entries[..k], budget)
      invariant Collected(entries[..k], inspected, seen, fileCount, total)
    {
      var e := entries[k];
      MemberChecks(entries, k, inspected, seen, fileCount, total, budget, limits);
      AcceptStep(entries, k, budget, limits);
      if Acceptable(entries, budget) {
        AcceptablePrefix(entries, k + 1, budget);
      }
      var checked := InspectMember(e, seen, total, budget, limits);
      if checked.Err? {
        return Some(checked.error), inspected, fileCount, total;
      }
      assert entries[..k + 1] == entries[..k] + [e];
      CollectStep(entries[..k], e, inspected, seen, fileCount, total);
      seen := seen + {PathOf(e).value};
      inspected := inspected + [checked.value];
      if !e.isDirectory {
        total := total + e.uncompressedBytes;
        fileCount := fileCount + 1;
      }
    }
    assert entries[..|entries|] == entries;
    CollectedAll(entries, inspected, seen, fileCount, total);
    refusal := None;
  }

  /** The checks against collected state are the checks against the earlier members. */
  lemma MemberChecks(entries: seq<CentralEntry>, k: nat, inspected: seq<Inspected>, seen: set<string>, fileCount: nat,
                     total: nat, budget: nat, limits: Limits)
    requires k < |entries| && Collected(entries[..k], inspected, seen, fileCount, total)
    ensures MemberRefusal(entries, k, budget, limits) ==
            var e := entries[k];
            if PathOf(e).Err? then Some(PathOf(e).error)
            else if !IsRegular(e) then Some(NonRegularEntry)
            else if PathOf(e).value in seen then Some(MalformedArchive)
            else if !e.isDirectory && !IsRunnable(e) then Some(UnsupportedCompression)
            else if !e.isDirectory && total + e.uncompressedBytes > budget then Some(OverBudget(budget, limits))
            else None
  {
    hide NormaliseEntryPath;
    SeenBefore(entries, k, inspected, seen, fileCount, total);
    assert entries[..k + 1][..k] == entries[..k];
  }

  /** Membership in `seen` is the quantified duplicate test. */
  lemma SeenBefore(entries: seq<CentralEntry>, k: nat, inspected: seq<Inspected>, seen: set<string>, fileCount: nat,
                   total: nat)
    requires k < |entries| && Collected(entries[..k], inspected, seen, fileCount, total)
    ensures PathOf(entries[k]).Ok? ==>
              (PathOf(entries[k]).value in seen <==> exists i | 0 <= i < k :: PathOf(entries[i]) == PathOf(entries[k]))
  {
  }

  /** The report on an archive nothing is wrong with. */
  ghost function Report(b: Data, limits: Limits): Inspection
    requires AcceptableArchive(b, limits)
  {
    var entries := DirectoryEntries(b).value;
    Inspection(|b|, InspectedEntries(entries), FileCount(entries), Declared(entries), Ratio(Declared(entries), |b|))
  }

  /** `reason` is the rule broken first: archive rules in order, then the earliest member's. */
  ghost predicate RefusedFor(b: Data, limits: Limits, reason: Refusal) {
    if |b| > limits.maxBytes then reason == ArchiveTooLarge
    else if !LooksLikeZip(b) then reason == UnsupportedFormat
    else
      match DirectoryEntries(b)
      case Err(e) => reason == e
      case Ok(entries) =>
        if |entries| > limits.maxEntries then reason == TooManyEntries
        else RefusedForMember(entries, UncompressedBudget(|b|, limits), limits, reason)
  }

  ghost predicate RefusedForMember(entries: seq<CentralEntry>, budget: nat, limits: Limits, reason: Refusal) {
    exists k ::
      && 0 <= k < |entries| && Acceptable(entries[..k], budget)
      && MemberRefusal(entries, k, budget, limits) == Some(reason)
  }

  /** Inspection succeeds exactly on acceptable archives, and otherwise names the first broken rule. */
  method InspectArchive(b: Data, limits: Limits) returns (r: Result<Inspection, Refusal>)
    ensures r.Ok? <==> AcceptableArchive(b, limits)
    ensures r.Ok? ==> r.value == Report(b, limits)
    ensures r.Err? ==> RefusedFor(b, limits, r.error)
  {
    hide Acceptable, MemberRefusal, DirectoryEntries, LooksLikeZip;
    if |b| > limits.maxBytes {
      return Err(ArchiveTooLarge);
    }
    if !LooksLikeZip(b) {
      return Err(UnsupportedFormat);
    }
    var directory := ReadCentralDirectory(b);
    if directory.Err? {
      return Err(directory.error);
    }
    var entries := directory.value;
    if |entries| > limits.maxEntries {
      return Err(TooManyEntries);
    }
    var budget := UncompressedBudget(|b|, limits);
    var refusal, inspected, fileCount, total := InspectMembers(entries, budget, limits);
    if refusal.Some? {
      return Err(refusal.value);
    }
    return Ok(Inspection(|b|, inspected, fileCount, total, Ratio(total, |b|)));
  }

  /** Once a prefix is not acceptable, no longer one is. */
  lemma NoAcceptanceBeyond(entries: seq<CentralEntry>, k: nat, j: nat, budget: nat)
    requires k < |entries| && j <= |entries| && !Acceptable(entries[..k + 1], budget)
    ensures k < j ==> !Acceptable(entries[..j], budget)
  {
    assert k < j ==> entries[..j][..k + 1] == entries[..k + 1];
    if k < j && Acceptable(entries[..j], budget) {
      AcceptablePrefix(entries[..j], k + 1, budget);
    }
  }

  /** The refusal is a function of the archive and the limits. */
  lemma RefusalIsDetermined(b: Data, limits: Limits, reason: Refusal, other: Refusal)
    requires RefusedFor(b, limits, reason) && RefusedFor(b, limits, other)
    ensures reason == other && !AcceptableArchive(b, limits)
  {
    hide NormaliseEntryPath, DirectoryEntries, LooksLikeZip, Acceptable, MemberRefusal;
    if |b| <= limits.maxBytes && LooksLikeZip(b) && DirectoryEntries(b).Ok?
       && |DirectoryEntries(b).value| <= limits.maxEntries {
      var entries, budget := DirectoryEntries(b).value, UncompressedBudget(|b|, limits);
      var k :| 0 <= k < |entries| && Acceptable(entries[..k], budget)
               && MemberRefusal(entries, k, budget, limits) == Some(reason);
      var j :| 0 <= j < |entries| && Acceptable(entries[..j], budget)
               && MemberRefusal(entries, j, budget, limits) == Some(other);
      AcceptStep(entries, k, budget, limits);
      AcceptStep(entries, j, budget, limits);
      NoAcceptanceBeyond(entries, k, j, budget);
      NoAcceptanceBeyond(entries, j, k, budget);
      NoAcceptanceBeyond(entries, k, |entries|, budget);
      assert entries[..|entries|] == entries;
    }
  }

  /** An accepted archive keeps both expansion promises. */
  lemma ExpansionIsBounded(b: Data, limits: Limits)
    requires AcceptableArchive(b, limits)
    ensures Report(b, limits).totalUncompressedBytes <= limits.maxUncompressedBytes
    ensures Report(b, limits).expansionRatio <= limits.maxRatio as real
  {
    hide InspectedEntries, FileCount;
    var total: nat := Report(b, limits).totalUncompressedBytes;
    ScaleBound(total, |b|, limits.maxRatio);
  }

  /**
   * The mode rule by type ranges: no mode, no type bits, a directory or a regular file; so no
   * symbolic link, device, socket or FIFO passes.
   */
  lemma RegularByType(e: CentralEntry)
    ensures IsRegular(e) <==>
            e.unixMode.None?
            || (var mode: int := e.unixMode.value; mode < 0x1000 || 0x4000 <= mode < 0x5000 || 0x8000 <= mode < 0x9000)
  {
  }

  /** A budget refusal names the limit that was passed. */
  lemma BudgetReasonIsTrue(b: Data, limits: Limits, entries: seq<CentralEntry>, k: nat)
    requires k < |entries|
    ensures var reason := MemberRefusal(entries, k, UncompressedBudget(|b|, limits), limits);
            var total := Declared(entries[..k + 1]);
            && (reason == Some(UncompressedTooLarge) ==> total > limits.maxUncompressedBytes)
            && (reason == Some(ExpansionRatioExceeded) ==> total > |b| * limits.maxRatio)
  {
    PathRefusals(entries[k]);
    hide NormaliseEntryPath;
  }

  /** The budget is both limits at once: the ceiling, and the ratio to the archive's own size. */
  lemma BudgetIsBothLimits(archiveBytes: nat, limits: Limits, total: nat)
    ensures total <= UncompressedBudget(archiveBytes, limits) <==>
            total <= limits.maxUncompressedBytes && total <= archiveBytes * limits.maxRatio
  {
  }

  /** Methods 0 and 8, and no other. */
  lemma RunnableByNumber(e: CentralEntry)
    ensures IsRunnable(e) <==> e.compressionMethod == 0 || e.compressionMethod == 8
  {
  }

  /** The modes that pass: none, or the type bits absent, of a directory or of a regular file. */
  predicate IsOrdinary(e: CentralEntry) {
    e.unixMode.None?
    || (var mode: int := e.unixMode.value; mode < 0x1000 || 0x4000 <= mode < 0x5000 || 0x8000 <= mode < 0x9000)
  }

  function Files(entries: seq<Inspected>): set<nat> { set k | 0 <= k < |entries| && !entries[k].isDirectory }

  lemma {:induction false} CountsFiles(entries: seq<CentralEntry>)
    requires forall e | e in entries :: PathOf(e).Ok?
    ensures FileCount(entries) == |Files(InspectedEntries(entries))|
    decreases |entries|
  {
    hide NormaliseEntryPath;
    if entries != [] {
      var before, last := entries[..|entries| - 1], |entries| - 1;
      CountsFiles(before);
      var all, fewer := InspectedEntries(entries), InspectedEntries(before);
      assert forall k | 0 <= k < last :: all[k] == fewer[k];
      assert Files(all) == if entries[last].isDirectory then Files(fewer) else Files(fewer) + {last};
    } else {
      assert Files(InspectedEntries(entries)) == {};
    }
  }

  /** The numbers an accepted archive is reported with. */
  lemma ReportIsTrue(b: Data, limits: Limits)
    requires AcceptableArchive(b, limits)
    ensures var report, entries := Report(b, limits), DirectoryEntries(b).value;
            && report.archiveBytes == |b| && |report.entries| == |entries|
            && report.fileCount == |Files(report.entries)|
            && report.expansionRatio * |b| as real == report.totalUncompressedBytes as real
            && forall k | 0 <= k < |entries| ::
                 var e, r := entries[k], report.entries[k];
                 && Ok(r.path) == NormaliseEntryPath(e.rawPath) && r.isDirectory == e.isDirectory
                 && r.compressedBytes == (if e.isDirectory then 0 else e.compressedBytes)
                 && r.uncompressedBytes == (if e.isDirectory then 0 else e.uncompressedBytes)
  {
    hide NormaliseEntryPath, FileCount, Declared, DirectoryEntries;
    CountsFiles(DirectoryEntries(b).value);
  }

  /** The first rule a member breaks, in terms of its name, mode, method and sizes; or it breaks none. */
  lemma MemberReasonIsTrue(entries: seq<CentralEntry>, k: nat, archiveBytes: nat, limits: Limits)
    requires k < |entries|
    ensures var e := entries[k];
            var raw, total := e.rawPath, Declared(entries[..k + 1]);
            var pieces := Split(Unify(raw), '/');
            match MemberRefusal(entries, k, UncompressedBudget(archiveBytes, limits), limits)
            case Some(AbsolutePath) => NamesAbsolute(raw)
            case Some(PathEscapesRoot) => ".." in pieces
            case Some(MalformedArchive) =>
              '\0' in raw || (forall p | p in pieces :: !SaysSomething(p))
              || exists i :: 0 <= i < k && PathOf(entries[i]) == PathOf(e)
            case Some(NonRegularEntry) => !IsOrdinary(e)
            case Some(UnsupportedCompression) => !e.isDirectory && e.compressionMethod != 0 && e.compressionMethod != 8
            case Some(UncompressedTooLarge) => !e.isDirectory && total > limits.maxUncompressedBytes
            case Some(ExpansionRatioExceeded) => !e.isDirectory && total > archiveBytes * limits.maxRatio
            case Some(_) => false
            case None =>
              && '\0' !in raw && !NamesAbsolute(raw) && ".." !in pieces && (exists p :: p in pieces && SaysSomething(p))
              && (forall i | 0 <= i < k :: PathOf(entries[i]) != PathOf(e)) && IsOrdinary(e)
              && (e.isDirectory
                  || ((e.compressionMethod == 0 || e.compressionMethod == 8)
                      && total <= limits.maxUncompressedBytes && total <= archiveBytes * limits.maxRatio))
  {
    var e := entries[k];
    NormalisationIs(e.rawPath);
    PathRefusals(e);
    hide NormaliseEntryPath, SaysSomething, NamesAbsolute, Declared, Unify;
    RegularByType(e);
    RunnableByNumber(e);
    BudgetIsBothLimits(archiveBytes, limits, Declared(entries[..k + 1]));
  }

  /** Before any member is looked at: size, first bytes, directory, number of entries. */
  lemma ArchiveReasonIsTrue(b: Data, limits: Limits, reason: Refusal)
    requires RefusedFor(b, limits, reason)
    ensures reason == ArchiveTooLarge <==> |b| > limits.maxBytes
    ensures reason == UnsupportedFormat ==>
              || |b| < 4 || b[..4] !in {[0x50, 0x4b, 3, 4], [0x50, 0x4b, 5, 6]}
              || exists eocd: nat :: IsEocd(b, eocd) && eocd >= 20 && b[eocd - 20..eocd - 16] == [0x50, 0x4b, 6, 7]
    ensures reason == TooManyEntries ==>
              DirectoryEntries(b).Ok? && |DirectoryEntries(b).value| > limits.maxEntries
    ensures reason !in {ArchiveTooLarge, UnsupportedFormat, TooManyEntries} ==>
              || DirectoryEntries(b) == Err(MalformedArchive)
              || (DirectoryEntries(b).Ok?
                  && RefusedForMember(DirectoryEntries(b).value, UncompressedBudget(|b|, limits), limits, reason))
  {
    MagicBytes(b);
    DirectoryRefusals(b);
    hide DirectoryEntries, LooksLikeZip, Acceptable, NormaliseEntryPath, IsEocd;
    if |b| <= limits.maxBytes && LooksLikeZip(b) && DirectoryEntries(b).Ok?
       && |DirectoryEntries(b).value| <= limits.maxEntries {
      MembersRefuse(DirectoryEntries(b).value, |b|, limits, reason);
    }
  }

  lemma MembersRefuse(entries: seq<CentralEntry>, archiveBytes: nat, limits: Limits, reason: Refusal)
    requires RefusedForMember(entries, UncompressedBudget(archiveBytes, limits), limits, reason)
    ensures reason !in {ArchiveTooLarge, UnsupportedFormat, TooManyEntries}
  {
    hide Acceptable, MemberRefusal, UncompressedBudget;
    var budget := UncompressedBudget(archiveBytes, limits);
    var k :| 0 <= k < |entries| && Acceptable(entries[..k], budget)
             && MemberRefusal(entries, k, budget, limits) == Some(reason);
    MemberReasonIsTrue(entries, k, archiveBytes, limits);
  }

  lemma DirectoryRefusals(b: Data)
    ensures match DirectoryEntries(b)
            case Err(UnsupportedFormat) =>
              exists eocd: nat :: IsEocd(b, eocd) && eocd >= 20 && b[eocd - 20..eocd - 16] == [0x50, 0x4b, 6, 7]
            case Err(e) => e == MalformedArchive
            case Ok(_) => true
  {
    hide ParseEntries, U32At, U16At, EocdAt;
    if |b| >= EOCD_FIXED_BYTES && FindEocd(b).Some? {
      var eocd := FindEocd(b).value;
      assert IsEocd(b, eocd);
      EocdFits(b, eocd);
      if eocd >= 20 {
        SignatureBytes(b, eocd - 20);
      }
    }
  }

  lemma EocdFits(b: Data, eocd: nat)
    requires IsEocd(b, eocd)
    ensures eocd + EOCD_FIXED_BYTES <= |b|
  {
  }

  lemma PathRefusals(e: CentralEntry)
    ensures PathOf(e).Err? ==> PathOf(e).error in {MalformedArchive, AbsolutePath, PathEscapesRoot}
  {
  }

  lemma ScaleBound(x: nat, y: nat, q: nat)
    requires y > 0 && x <= y * q
    ensures x as real / y as real <= q as real
  {
  }

  // ---- The path index that replaced a linear search ------------------------------------------

  /** `entries.find(e => normaliseEntryPath(e.rawPath).path === path)`. */
  function Find(entries: seq<CentralEntry>, path: string): Option<CentralEntry> {
    if entries == [] then None
    else if PathOf(entries[0]) == Ok(path) then Some(entries[0])
    else Find(entries[1..], path)
  }

  /** The map the indexing loop leaves behind: later entries overwrite earlier ones. */
  function Index(entries: seq<CentralEntry>): map<string, CentralEntry>
    requires forall e | e in entries :: PathOf(e).Ok?
  {
    if entries == [] then map[]
    else
      var last := entries[|entries| - 1];
      Index(entries[..|entries| - 1])[PathOf(last).value := last]
  }

  method BuildIndex(entries: seq<CentralEntry>) returns (r: Result<map<string, CentralEntry>, Refusal>)
    ensures (forall e | e in entries :: PathOf(e).Ok?) ==> r == Ok(Index(entries))
    ensures r.Err? <==> exists e | e in entries :: PathOf(e).Err?
  {
    hide NormaliseEntryPath;
    var central: map<string, CentralEntry> := map[];
    for k := 0 to |entries|
      invariant forall e | e in entries[..k] :: PathOf(e).Ok?
      invariant central == Index(entries[..k])
    {
      var path := NormaliseEntryPath(entries[k].rawPath);
      assert PathOf(entries[k]) == path && entries[k] in entries;
      if path.Err? {
        return Err(path.error);
      }
      central := central[path.value := entries[k]];
      assert entries[..k + 1] == entries[..k] + [entries[k]] && entries[..k + 1][..k] == entries[..k];
    }
    assert entries[..|entries|] == entries;
    return Ok(central);
  }

  lemma {:induction false} IndexHolds(entries: seq<CentralEntry>, budget: nat)
    requires Acceptable(entries, budget)
    ensures forall k | 0 <= k < |entries| ::
              PathOf(entries[k]).value in Index(entries) && Index(entries)[PathOf(entries[k]).value] == entries[k]
    ensures forall path | path in Index(entries) :: exists k :: 0 <= k < |entries| && PathOf(entries[k]) == Ok(path)
    decreases |entries|
  {
    hide NormaliseEntryPath;
    if entries != [] {
      var before := entries[..|entries| - 1];
      AcceptablePrefix(entries, |before|, budget);
      IndexHolds(before, budget);
      forall k | 0 <= k < |entries|
        ensures PathOf(entries[k]).value in Index(entries) && Index(entries)[PathOf(entries[k]).value] == entries[k]
      {
        assert k < |before| ==> before[k] == entries[k];
      }
      forall path | path in Index(entries)
        ensures exists k :: 0 <= k < |entries| && PathOf(entries[k]) == Ok(path)
      {
        if path in Index(before) {
          var k :| 0 <= k < |before| && PathOf(before[k]) == Ok(path);
          assert PathOf(entries[k]) == Ok(path);
        } else {
          assert PathOf(entries[|entries| - 1]) == Ok(path);
        }
      }
    }
  }

  lemma {:induction false} FindHolds(entries: seq<CentralEntry>, path: string)
    ensures match Find(entries, path)
            case Some(e) => e in entries && PathOf(e) == Ok(path)
            case None => forall e | e in entries :: PathOf(e) != Ok(path)
  {
    hide NormaliseEntryPath;
    if entries != [] {
      FindHolds(entries[1..], path);
    }
  }

  /** After a successful inspection the map answers every lookup as the linear search would. */
  lemma IndexRefinesFind(entries: seq<CentralEntry>, budget: nat, path: string)
    requires Acceptable(entries, budget)
    ensures Find(entries, path) == if path in Index(entries) then Some(Index(entries)[path]) else None
  {
    hide NormaliseEntryPath;
    IndexHolds(entries, budget);
    FindHolds(entries, path);
  }
}
