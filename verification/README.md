# Verification of the archive guard, the redactor and the AI executor

This project models three packages of the audit platform and proves what they promise.

* **`packages/safe-archive`** decides about an uploaded ZIP from its metadata and then extracts it.
  `Zip.dfy` is the hand-written central-directory reader, `ZipLayout.dfy` the record layout of
  APPNOTE.TXT sections 4.3.7, 4.3.12 and 4.3.16 written down independently, `Paths.dfy` the path rules,
  `Guard.dfy` the inspection, `Budget.dfy` the byte counters, `Disks.dfy` a file system that remembers every
  state it went through, `Extraction.dfy` the extraction, `ExtractionProperties.dfy` and
  `ExtractionOutcome.dfy` what it guarantees, `WriterRoundTrip.dfy` the path from writing an archive to
  finding its contents on the disk, and `ExtractionExamples.dfy` three archives that show its limits.
* **`packages/redaction`** finds credentials in user material and replaces them before anything reaches a
  provider. `Detection.dfy` selects among overlapping candidates and computes positions, `Splice.dfy` is the
  replacement and its laws, `Assemble.dfy` the prompt assembler with its placeholder ledger and the registry
  of sealed prompts, `Rendering.dfy` what literally stands in a prompt and in a log line, `Findings.dfy` the reports, and `NonInterference.dfy` the two-run theorem that the
  output does not depend on what the secrets are.
* **`packages/ai-executor`** walks a chain of providers. `Chain.dfy` is the start-up check, `Executor.dfy`
  the walk, its records and its degradation, `Billing.dfy` rates and costs in integer micros, and `Drift.dfy`
  the median-based drift report.

`Results.dfy`, `Refusals.dfy`, `Bytes.dfy`, `Text.dfy` and `Sorting.dfy` are shared vocabulary.

The loops of the source are methods with loops, its stateful objects (`ByteBudget`, the disk, the prompt
registry, the executor) are classes; each method is tied to a specification function or predicate, and the
properties are lemmas about those. Environment answers are parameters: the regular expressions are an oracle
giving any list of non-empty spans of the text, inflate is a function from compressed bytes to any sequence
of chunks that ends or breaks, a provider is a function from the text it is sent to any answer, schema
validation and case folding are arbitrary functions.

## What the code does that its comments do not say

Each of these has a lemma below; the model follows the code.

* Normalising a path twice is not always normalising it once: `./C:` is accepted as `C:`, which on its own
  is refused (`Paths.NormaliseTwice`, `Paths.NormaliseTwiceMayRefuse`).
* The reader does not check that the extra field and comment of the last record lie inside the file
  (`ZipLayout.LastExtraMayOverrun`), nor compares the disk numbers, the entries on this disk, the size of the
  directory and the length of the comment in the end record (`ZipLayout.EndRecordMayLie`). A run of entries
  inside the file it accepts exactly as laid out, and a whole archive if the end record is true as well
  (`ZipLayout.ReaderInvertsLayout`, `ZipLayout.ReaderInvertsArchive`).
* `bytesWritten` adds up declarations, not bytes (`ExtractionOutcome.BytesWrittenIsDeclared`,
  `ExtractionOutcome.StoredBytesWritten`): one stored byte that declares five is reported as five
  (`ExtractionExamples.DeclarationIsCounted`).
* The reason for cutting a stream can depend on how it is chunked (`Budget.ReasonIgnoresChunking`), although
  never during an extraction, where the second limit is not reached (`ExtractionProperties.BudgetIsNeverTheReason`).
* The cleanup after a failed exclusive create removes a file it did not write. Stripping one segment, as `repo-clone.ts` does with every
  repository archive, lets `b/x` delete the complete `a/x` and leaves `x` on the list of written files
  (`ExtractionExamples.CollisionLosesFile`); exactly when a file is lost is
  `ExtractionOutcome.LostIffCollision`, and files that stay distinct lose nothing
  (`ExtractionOutcome.DistinctPathsLoseNothing`).
* When one span is claimed by two kinds of equal trust, the candidate order decides the kind
  (`Detection.KindMayDependOnOrder`, a bearer token that is a JWT; `Detection.KindsIgnoreOrder`); it never
  decides the spans.
* Two different providers can be refused as one asked twice, because the key joins vendor and model with a
  slash (`Chain.DifferentProvidersMayCollide`). It happens for exactly those vendors of which one is the other,
  a slash, and nothing or something that does not begin with a space (`Chain.KeysSeparateVendors`,
  `Chain.VendorsSeparate`).
* The notice of a degraded module counts vendor names as written, the chain check counts them trimmed and
  folded: two vendors can be announced as three (`Executor.NoticeMayOvercount`, `Executor.DegradationIsHonest`).
* A detected value is removed where it was detected. An occurrence nothing detected stays in the text, and
  so does the part of a rejected candidate that sticks out past the accepted one; no claim is made that a
  credential string is absent from the output.

## Model

| member | source | states |
|---|---|---|
| `Zip.FindEocdOffset` | packages/safe-archive/src/zip.ts:77-85 | the offset found is the greatest one in the window that carries the signature, and an error means none does; every read is in bounds |
| `Zip.EocdIsNearEnd` | packages/safe-archive/src/zip.ts:77-85 | the window: an end record is the bytes `PK` 5 6 in the last 65,557, with room for its fixed part |
| `Zip.SignatureBytes` | packages/safe-archive/src/zip.ts:30-33 | the four signatures are `PK` and 3 4, 1 2, 5 6, 6 7 as they stand in a file |
| `Zip.MagicBytes` | packages/safe-archive/src/zip.ts:69-75 | a file passes for a ZIP if and only if its first four bytes are those of a local header or of an end record |
| `Zip.ReadCentralDirectory` | packages/safe-archive/src/zip.ts:95-179 | for every byte sequence the reader terminates with the specified directory or refusal, all reads in bounds, with exactly the declared number of entries |
| `Zip.LocalDataOffset` | packages/safe-archive/src/zip.ts:189-205 | an accepted data range lies wholly inside the file; every refusal is a malformed archive |
| `ZipLayout.ReaderInvertsLayout` | packages/safe-archive/src/zip.ts:122-176 | a run of entries is accepted inside the file if and only if those bytes are some records encoded as section 4.3.12 lays them out, and then exactly those records are reported and the reader stops at their end |
| `ZipLayout.RoundTrip` | packages/safe-archive/src/zip.ts:77-179 | an archive written with any member data, any encodable records and any comment, unambiguous about its end record, is read back as exactly those records in order, the reader stopping at the end record |
| `ZipLayout.ReaderInvertsArchive` | packages/safe-archive/src/zip.ts:77-179 | the other way round as well: entries are reported up to an end record that is true about disks, counts, directory size and the end of the file if and only if the file is such an archive of records reported as those entries |
| `ZipLayout.EndRecordMayLie` | packages/safe-archive/src/zip.ts:111-119 | a 68-byte archive is accepted with one entry inside the file although disk numbers, entries on this disk, directory size and comment length of its end record are all false |
| `ZipLayout.LastExtraMayOverrun` | packages/safe-archive/src/zip.ts:151-175 | a 68-byte archive whose only record announces 65,535 bytes of extra field is accepted, so for a run of entries the converse needs the end to lie in the file |
| `ZipLayout.ModeReadsBack` | packages/safe-archive/src/zip.ts:161-173 | a mode stored in the high half of the attributes is reported for Unix-made records and for no others; a member is a directory exactly by trailing slash or Unix directory type |
| `ZipLayout.LocalInvertsLayout` | packages/safe-archive/src/zip.ts:181-205 | data is located exactly behind a local header laid out as section 4.3.7 says, by that header's own lengths, and only if it fits in the file |
| `Paths.NormalisationIs` | packages/safe-archive/src/paths.ts:37-74 | a raw path is accepted if and only if it has no NUL, begins with no separator or drive letter and colon, has no piece `..` and some piece other than empty and `.`; each of the three refusals is given exactly under its own condition |
| `Paths.AcceptedPieces` | packages/safe-archive/src/paths.ts:58-74 | the accepted path consists of exactly those pieces, in the order they are written |
| `Paths.AcceptedIsNormalForm` | packages/safe-archive/src/paths.ts:37-74 | an accepted path has no NUL, no backslash and only segments other than empty, `.` and `..` |
| `Paths.NormaliseTwice` | packages/safe-archive/src/paths.ts:37-74 | normalising an accepted path again is the identity if and only if it does not begin with a drive letter and colon |
| `Paths.NormaliseTwiceMayRefuse` | packages/safe-archive/src/paths.ts:50-55 | a path whose normal form is itself refused |
| `Paths.DestinationAccepts` | packages/safe-archive/src/guard.ts:341-351 | under POSIX resolution an accepted path is given the root followed by its segments, for every root but `/`, and is always refused under `/` |
| `Paths.DestinationStaysUnderRoot` | packages/safe-archive/src/guard.ts:341-351 | whatever string is resolved, a destination that passes the string comparison is the root or below it segment by segment |
| `Paths.DestinationsDistinct` | packages/safe-archive/src/guard.ts:341-351 | distinct accepted paths never share a destination |
| `Guard.InspectArchive` | packages/safe-archive/src/guard.ts:144-253 | inspection succeeds if and only if size, magic bytes, directory, entry count, paths, modes, methods, distinctness and declared total are all acceptable; then counts and totals are exact, and otherwise the first rule broken is named |
| `Guard.InspectMembers` | packages/safe-archive/src/guard.ts:172-243 | the early-exit member loop equals the unordered predicate on members, and stops at the earliest member that breaks a rule |
| `Guard.RefusalIsDetermined` | packages/safe-archive/src/guard.ts:136-143 | an archive has at most one first-broken rule, and none if it is acceptable |
| `Guard.MemberReasonIsTrue` | packages/safe-archive/src/guard.ts:172-243 | the reason a member is refused for is true of its name, mode, method and sizes as they stand in the directory, and a member refused for nothing breaks none of the rules |
| `Guard.ArchiveReasonIsTrue` | packages/safe-archive/src/guard.ts:144-171 | the reasons before any member: size, first four bytes or a Zip64 locator, number of entries, and otherwise a malformed directory or the earliest member that breaks a rule |
| `Guard.ReportIsTrue` | packages/safe-archive/src/guard.ts:236-253 | the report states the archive's length, the number of files, the ratio of declared bytes to it, and of every member its path, kind and sizes |
| `Guard.BudgetIsBothLimits` | packages/safe-archive/src/guard.ts:90-100 | a total is within the budget if and only if it is within the ceiling and within the ratio |
| `Guard.RunnableByNumber` | packages/safe-archive/src/guard.ts:204-216 | methods 0 and 8 pass, and no other |
| `Guard.ExpansionIsBounded` | packages/safe-archive/src/guard.ts:90-100 | an accepted archive respects both the absolute ceiling and the published ratio, the reported ratio included |
| `Guard.RegularByType` | packages/safe-archive/src/guard.ts:112-134 | the mode rule lets exactly files, directories and entries without a mode or type pass, so never a symbolic link, device, socket or FIFO |
| `Guard.BudgetReasonIsTrue` | packages/safe-archive/src/guard.ts:221-235 | the two budget refusals name the limit the declared total really passed |
| `Guard.BuildIndex` | packages/safe-archive/src/guard.ts:384-387 | the indexing loop fails only on a path inspection would refuse and otherwise builds the last-wins map of normal paths |
| `Guard.IndexRefinesFind` | packages/safe-archive/src/guard.ts:371-387 | after inspection the map answers every lookup, hit or miss, as a linear first-match search would |
| `Budget.ByteBudget.Transform` | packages/safe-archive/src/guard.ts:275-305 | the chunk is counted first, then refused for its declaration, then for the budget, else passed on unchanged |
| `Budget.FeedBounded` | packages/safe-archive/src/guard.ts:264-306 | never more than either limit gets through, what gets through is a prefix of the chunks, and a completed stream gets through whole |
| `Budget.FeedCompletes` | packages/safe-archive/src/guard.ts:264-306 | a stream completes if and only if it ends and its total is within both limits |
| `Budget.FeedBreaks` | packages/safe-archive/src/guard.ts:275-305 | a stream that does not complete was longer than declared and is refused as such, or else it broke |
| `Budget.CompletionIgnoresChunking` | packages/safe-archive/src/guard.ts:264-306 | two chunkings of the same bytes complete together and deliver the same bytes |
| `Budget.ReasonIgnoresChunking` | packages/safe-archive/src/guard.ts:278-302 | the verdict on given bytes is the same for all chunkings if and only if the declaration is within the budget or is kept |
| `Budget.ReadBoundedUpload` | packages/safe-archive/src/guard.ts:450-470 | the exact concatenation if and only if the total is within the limit, else too large; never more than the limit is buffered, and with the chunk in hand and the final copy never more than the limit plus the larger of the limit and the longest chunk is held |
| `Extraction.StreamToFile` | packages/safe-archive/src/guard.ts:418-432 | one file is created exclusively, streamed through the counter and removed again on any failure, through exactly the specified disk states |
| `Extraction.ExtractArchive` | packages/safe-archive/src/guard.ts:359-439 | an archive inspection refuses leaves the disk untouched and never written; otherwise disk, disk history, files, byte count and failure are those of the specified run |
| `ExtractionProperties.DiskNeverExceedsDeclarations` | packages/safe-archive/src/guard.ts:393-436 | at every disk state, mid-member and on abort included, for any root, stripping, disk and inflate, the disk has gained at most what the members begun so far declare, hence at most the budget |
| `ExtractionProperties.NothingOutsideIsTouched` | packages/safe-archive/src/guard.ts:325-436 | at every disk state, for any root, stripping, disk and inflate, no file outside the root has been made, changed or removed, and no directory but those above the root and under it has been made; none is lost |
| `ExtractionProperties.BudgetIsNeverTheReason` | packages/safe-archive/src/guard.ts:292-302 | the second refusal of the counter never happens during an extraction |
| `ExtractionProperties.StrippedIsSafe` | packages/safe-archive/src/guard.ts:312-323 | stripping a safe path gives nothing or a safe path made of its last segments |
| `ExtractionProperties.StrippedDestination` | packages/safe-archive/src/guard.ts:393-397 | a stripped member always has a destination, the root followed by the segments left |
| `ExtractionOutcome.LookupsSucceed` | packages/safe-archive/src/guard.ts:406-413 | every inspected member is found in the index and is the entry it came from, so the missing-member branch is unreachable |
| `Extraction.SourceByMethod` | packages/safe-archive/src/guard.ts:412-424 | the bytes behind the local header are inflated for method 8 and taken as they are for method 0 |
| `ExtractionOutcome.MemberStep` | packages/safe-archive/src/guard.ts:393-435 | for any stripping, on the disk its predecessors left, a member succeeds if and only if nothing is left of it, or no file sits at or above it, it is no file above another, and its data is delivered within its declaration; a failure leaves the earlier files alone except the one it collides with, and states the reason met first |
| `ExtractionOutcome.RunOutcome` | packages/safe-archive/src/guard.ts:393-438 | on an unshared root and for any stripping the run stops at the first member that is not fine, leaves exactly the complete files of the earlier ones and nothing partial, less the one file a colliding member takes away, and succeeds if and only if all are fine; the failure is the one that member runs into first: an obstructed directory, data that cannot be located, an occupied path, a prefix longer than declared, a broken stream |
| `ExtractionOutcome.RunLeaves` | packages/safe-archive/src/guard.ts:393-438 | each such file holds exactly what its data unpacks to, nothing else has come or changed, and the list names those files by their stripped paths in archive order |
| `ExtractionOutcome.LostIffCollision` | packages/safe-archive/src/guard.ts:393-432 | a file written completely is missing at the end if and only if the member that stopped the run is a readable file stripped to the same path |
| `ExtractionOutcome.DistinctPathsLoseNothing` | packages/safe-archive/src/guard.ts:309-323 | when the inspected files stay distinct under stripping, exactly the complete files of the members before the first that is not fine are on the disk |
| `ExtractionExamples.CollisionLosesFile` | apps/worker/src/intake/repo-clone.ts:137-141 | the archive of `a/x` and `b/x`, stripped by one as a repository archive is, fails after writing `x`, still lists it, and leaves no file |
| `ExtractionOutcome.BytesWrittenIsDeclared` | packages/safe-archive/src/guard.ts:434 | after success, stripped or not, the reported byte count is at least what the disk gained, with equality if and only if every file came out as long as declared |
| `ExtractionOutcome.StoredBytesWritten` | packages/safe-archive/src/guard.ts:412-434 | where all files are stored the count equals the gain if and only if the two sizes the directory declares agree for every file written |
| `ExtractionExamples.DeclarationIsCounted` | packages/safe-archive/src/guard.ts:434 | an archive of one stored byte that declares five succeeds, reports five bytes written, and the disk has gained one |
| `ExtractionExamples.LyingMemberIsRefused` | packages/safe-archive/src/guard.ts:278-290 | the same byte declaring nothing is refused because the declaration is not true, and leaves nothing |
| `WriterRoundTrip.WrittenIsExtracted` | packages/safe-archive/tests/helpers/build-zip.ts:61-143 | an archive written with stored and deflated members, with or without modes, files and directories, is accepted and extracted, stripped or not, to exactly the contents that were put in, given distinct names, files that are prefix-free after stripping, and an inflate that undoes the deflate used |
| `WriterRoundTrip.ShortNameIsUnambiguous` | packages/safe-archive/tests/helpers/build-zip.ts:77-143 | whatever the members are, a last name of fewer than fourteen bytes leaves no second end record and no Zip64 locator for the reader to find |
| `WriterRoundTrip.EmptyArchiveIsExtracted` | packages/safe-archive/src/zip.ts:69-75 | the archive without members is accepted under the published limits and extracts to nothing |
| `Detection.LastIndexIsCapture` | packages/redaction/src/detect.ts:324-328 | `lastIndexOf` lands on the capture group itself when at most one character follows it and that character does not occur in it |
| `Detection.NamedMatches` | packages/redaction/src/detect.ts:316-342 | the candidates are those of the matches in order, and each quotes the text at its span |
| `Detection.MatchesContribute` | packages/redaction/src/detect.ts:316-342 | every rule match contributes by itself, one candidate or none, in order |
| `Detection.WholeMatchIsCandidate` | packages/redaction/src/detect.ts:319-339 | without a group the candidate is the whole match where it was found |
| `Detection.CaptureIsCandidate` | packages/redaction/src/detect.ts:319-339 | with a group it is the capture where it was captured, under the condition on what follows |
| `Detection.LineStarts` | packages/redaction/src/detect.ts:344-350 | the starts are 0 and the offsets after each newline |
| `Detection.PositionOf` | packages/redaction/src/detect.ts:352-361 | the binary search terminates with the position given by the newlines before the offset |
| `Detection.PositionIsOnLine` | packages/redaction/src/detect.ts:352-361 | the line is one more than the newlines before the offset, the column leads back to the start of the line, a newline or nothing precedes that start, and none lies between it and the offset |
| `Detection.MatchIsPlaced` | packages/redaction/src/detect.ts:394-397 | a match is on the line after as many newlines as precede it, and its column leads back to the start of that line |
| `Detection.DetectSecrets` | packages/redaction/src/detect.ts:368-398 | sort, greedy acceptance, re-sort and positions give the specified matches |
| `Detection.MatchesInDocumentOrder` | packages/redaction/src/detect.ts:388-397 | matches are pairwise disjoint, in document order, and each value is the text at its span |
| `Detection.AcceptedSettle` | packages/redaction/src/detect.ts:377-392 | accepted candidates never overlap, and every candidate overlaps an accepted one that is longer, or as long and at least as trusted |
| `Detection.CandidateIsCovered` | packages/redaction/src/detect.ts:377-392 | every candidate shares a character with a reported match that is longer, or as long and trusted no less, or as long and as trusted and no further right |
| `Detection.LoneCandidateIsReported` | packages/redaction/src/detect.ts:388-392 | a candidate that shares no character with another is reported as it was found |
| `Detection.MatchIsCandidate` | packages/redaction/src/detect.ts:388-397 | every match is one of the candidates |
| `Detection.SelectionIsUnique` | packages/redaction/src/detect.ts:377-392 | there is only one set of spans that is free of overlaps and beats every rejected span |
| `Detection.OrderDoesNotMatter` | packages/redaction/src/detect.ts:375-397 | the order and multiplicity of candidates decide nothing about the reported spans and values |
| `Detection.KindsIgnoreOrder` | packages/redaction/src/detect.ts:375-397 | whole matches, kinds included, are independent of the order and multiplicity of candidates if and only if no winning span is claimed by two kinds at its level of trust |
| `Detection.UnanimityIsOfSelection` | packages/redaction/src/detect.ts:377-392 | which spans win, and so whether their kinds are unanimous, is a matter of the candidates' spans and trust alone |
| `Detection.DistinctKeysIgnoreOrder` | packages/redaction/src/detect.ts:375-397 | candidates of which no two of different kinds share span and trust give the same matches in every order and multiplicity |
| `Detection.KindMayDependOnOrder` | packages/redaction/src/detect.ts:154-172 | an authorization header with a JWT: the two rules claim one span, and whichever comes first gives the kind |
| `Splice.ReplaceRightToLeft` | packages/redaction/src/assemble.ts:179-184 | cutting from the last match to the first gives the left-to-right splice gap, part, gap, ..., gap |
| `Splice.Restore` | packages/redaction/src/assemble.ts:116-131 | splicing the values back in restores the text |
| `Splice.PartStands` | packages/redaction/src/assemble.ts:116-131 | part i stands where its match stood, moved by what the parts before it add less what they replace; before it stands the text since the previous match, behind the last part the rest |
| `Splice.SplicedLength` | packages/redaction/src/assemble.ts:116-131 | the length is the original's less the spans plus the parts |
| `Splice.InterleaveEmpty` | packages/redaction/src/assemble.ts:116-131 | with the placeholders deleted what remains is the gaps between the spans, joined |
| `Assemble.RedactSegment` | packages/redaction/src/assemble.ts:117-131 | the loop that assigns placeholders while it replaces gives the splice with the segment's placeholders and the ledger of its matches taken last to first |
| `Assemble.AssemblePrompt` | packages/redaction/src/assemble.ts:95-161 | text, placeholder records and references are those of the specification with the final placeholder of every value, and the prompt is sealed |
| `Rendering.PromptIsLaidOut` | packages/redaction/src/assemble.ts:147-155 | the prompt is the instructions, an empty line, and every segment in order under its header, with nothing else; a body is the whole redacted segment, or its first characters and the line that counts the missing ones |
| `Rendering.SegmentStands` | packages/redaction/src/assemble.ts:147-155 | segment k stands, header and body, at the offset given by the lengths before it |
| `Rendering.PlaceholderStands` | packages/redaction/src/assemble.ts:89-131 | in the redacted segment every match has given way to the literal placeholder of its value, the kind and number of its record |
| `Rendering.RecordIsOfMatch` | packages/redaction/src/assemble.ts:119-129 | every placeholder record names the kind and place of a match whose value its placeholder stands for |
| `Assemble.LedgerIsBijection` | packages/redaction/src/assemble.ts:103-129 | placeholders are a bijection between the distinct detected values of all segments and the ordinals 1 to n without gaps |
| `Assemble.PlaceholdersAreFaithful` | packages/redaction/src/assemble.ts:89-129 | two occurrences have the same placeholder string if and only if they have the same value |
| `Assemble.SecretsAreComplete` | packages/redaction/src/assemble.ts:133-145 | every match of every segment has its reference, in document order, its lookup succeeds and its placeholder has a record, whatever the clipping limit |
| `Assemble.PromptRegistry.SealRedactedPrompt` | packages/redaction/src/redacted-prompt.ts:65-73 | the new object and nothing else joins the sealed set, and the registry stays sound when it was assembled |
| `Assemble.RedactText` | packages/redaction/src/assemble.ts:175-186 | a log line is the splice with kind markers |
| `Rendering.MarkerStands` | packages/redaction/src/assemble.ts:175-186 | in a log line the literal marker of its kind stands in the place of every match, with the text between matches and behind the last unchanged |
| `Rendering.LinesDoNotShow` | packages/redaction/src/assemble.ts:165-186 | two lines with the same text around secrets of the same kinds become the same line, whatever the secrets are |
| `Rendering.QuietLineStays` | packages/redaction/src/assemble.ts:176-177 | a line in which nothing is detected comes back as it is |
| `NonInterference.TextDoesNotShow` | packages/redaction/src/assemble.ts:113-160 | two sources with the same text around the secrets, the same kinds and the same equalities between secrets give the same prompt text, whatever the secrets are, however long and with whatever line breaks |
| `NonInterference.SecretsDoNotShow` | packages/redaction/src/assemble.ts:113-160 | two sources whose detected matches agree in all but their values, with the same text outside them and the same equalities between secrets, give the same prompt text, placeholder records, references and findings |
| `NonInterference.FindingsStay` | packages/redaction/src/to-findings.ts:16-20 | if besides every secret begins on the same line and column, placeholder records and findings are the same, fingerprints included, up to the length the evidence states |
| `NonInterference.RotationDoesNotShow` | packages/redaction/src/to-findings.ts:16-20 | an instance: the one secret of a one-segment source is rotated into any other, longer, shorter or broken into other lines; prompt text and placeholder records do not change, and it is still the same finding up to its length |
| `NonInterference.RotationLeavesNoTrace` | packages/redaction/src/to-findings.ts:89-99 | the same instance with a new secret of the old length: the findings are the same altogether |
| `NonInterference.DetectShapes` | packages/redaction/src/detect.ts:375-397 | detection depends on kinds, spans and newlines only, never on the values |
| `NonInterference.LedgersAgree` | packages/redaction/src/assemble.ts:117-129 | placeholder assignment depends only on the kinds of the secrets and on which values are equal |
| `Findings.FingerprintIsPlace` | packages/redaction/src/to-findings.ts:92-99 | fingerprints are equal if and only if path, kind, line and column are |
| `Findings.FindingsAreOfMatches` | packages/redaction/src/to-findings.ts:89-123 | every match of every segment is reported in document order, with its kind, severity, path, line, column, length and the placeholder that stands for it |
| `Findings.FindingsArePlaced` | packages/redaction/src/assemble.ts:134-145 | and its line and column are where it stands in the segment |
| `Chain.BuildChain` | packages/ai-executor/src/chain.ts:48-99 | the chain comes back unchanged if and only if every entry is named, no key repeats and two vendors are spanned; each refusal means what it says |
| `Chain.ChainSpansTwoVendors` | packages/ai-executor/src/chain.ts:87-96 | an accepted chain names two vendors that trimming and folding tell apart |
| `Chain.TwoVendorsSuffice` | packages/ai-executor/src/chain.ts:48-99 | two such vendors, names that are not blank and no repeated key are enough |
| `Chain.KeysSeparateVendors` | packages/ai-executor/src/chain.ts:77 | two vendor keys never produce a common key, whatever model keys follow, if and only if neither is the other, a slash, and nothing or something that does not begin with a space; so `a` and `a/ b` never do |
| `Chain.VendorsSeparate` | packages/ai-executor/src/chain.ts:76-83 | the same of configured providers, names as written: no two of these vendors are refused as one if and only if neither key continues the other, under any case folding that never makes or moves white space at the ends and fixes a string if it fixes its characters |
| `Chain.RepetitionIsReal` | packages/ai-executor/src/chain.ts:73-85 | where no vendor key is followed by a slash in another, a repeated key is a repeated vendor and model, whatever case folding does |
| `Chain.SpellingsAreRepetitions` | packages/ai-executor/src/chain.ts:73-85 | two spellings of one vendor and model, apart in case and surrounding white space, are refused |
| `Chain.TrimRemoves` | packages/ai-executor/src/chain.ts:77 | trimming takes the white space around a name and nothing else |
| `Chain.DifferentProvidersMayCollide` | packages/ai-executor/src/chain.ts:76-83 | two providers of different vendors that the check refuses as one |
| `Executor.CreateExecutor` | packages/ai-executor/src/executor.ts:178-186 | an executor exists if and only if the chain passes the check, with the configured order |
| `Executor.AiExecutor.Run` | packages/ai-executor/src/executor.ts:188-262 | an unsealed prompt reaches no provider; otherwise the walk stops at the first provider that serves, the records are exactly the prefix up to it, and every provider called, whatever it answers in this run, was sent the sealed text and nothing else; if only sealed texts were ever sent before, that is so after |
| `Executor.SentIsAssembled` | packages/redaction/src/redacted-prompt.ts:1-28 | across all runs every text any provider was sent is the prompt text of some assembly, its detected secrets replaced |
| `Executor.WalkServes` | packages/ai-executor/src/executor.ts:195-261 | the run serves if and only if some provider serves; record positions equal their indices and only the last record of a served run is a success |
| `Executor.RecordsAreTrue` | packages/ai-executor/src/executor.ts:199-255 | every record states the provider and model asked, the tokens reported, the latency, the cost, the outcome, the prompt version and the redacted message of its attempt |
| `Executor.MessagesAreRedacted` | packages/ai-executor/src/executor.ts:238-240 | in a recorded message the literal marker stands in the place of every secret the message held |
| `Executor.MessagesDoNotShow` | packages/ai-executor/src/executor.ts:238-240 | two runs whose messages differ in their secrets only record the same message |
| `Executor.CostIgnoresOutcome` | packages/ai-executor/src/executor.ts:206-226 | a recorded cost depends on pricing and counts only and is never negative, so the usage guard changes nothing |
| `Executor.TotalIsWithinHalves` | packages/ai-executor/src/record.ts:94-96 | over n attempts the recorded total is within n/2 micros of the exact consumption |
| `Executor.ExhaustionSpansVendors` | packages/ai-executor/src/chain.ts:87-96 | an exhausted run of a built chain recorded the whole chain and at least two distinct vendors |
| `Executor.DegradationIsHonest` | packages/ai-executor/src/degrade.ts:54-70 | the degraded module keeps area, records and every measured finding, counts the whole chain and holds no successful attempt; the vendors its notice counts are at least the chain's, and exactly as many if and only if no two names of the chain fold and trim to one |
| `Executor.NoticeMayOvercount` | packages/ai-executor/src/degrade.ts:56 | a chain of `A`, `a` and `b` has two vendors for the chain check and three in the notice |
| `Billing.CostIsRounded` | packages/ai-executor/src/provider.ts:92-104 | a cost is a non-negative whole number within half a micro of what was consumed, halves rounded up, for every count including malformed ones |
| `Billing.CostBySides` | packages/ai-executor/src/provider.ts:99-103 | prompt tokens cost the input rate and output tokens the output rate |
| `Billing.MillionsCostRates` | packages/ai-executor/src/provider.ts:99-103 | whole millions of tokens cost exactly the two rates, without rounding |
| `Billing.MalformedCountsAreFree` | packages/ai-executor/src/provider.ts:106-110 | a count that is not finite or negative counts as none |
| `Billing.CostIsMonotone` | packages/ai-executor/src/provider.ts:92-110 | more tokens never cost less |
| `Billing.GuardChangesNothing` | packages/ai-executor/src/executor.ts:223-226 | what the usage guard records as zero would have cost zero |
| `Billing.MicrosAreExact` | packages/ai-executor/src/pricing.ts:78-84 | a rate with decimals is whole dollars times a million plus the decimals scaled to six places, exactly |
| `Billing.WholeMicrosAreExact` | packages/ai-executor/src/pricing.ts:78-84 | a rate without decimals is its dollars times a million |
| `Billing.DollarsRoundTrip` | packages/ai-executor/src/pricing.ts:52-84 | every amount of micros printed as dollars with six decimals is in the grammar and reads back as itself |
| `Billing.MatchesIsDollarRate` | packages/ai-executor/src/pricing.ts:52-55 | splitting at dots decides the rate grammar |
| `Billing.PricingFrom` | packages/ai-executor/src/pricing.ts:95-113 | a free tier costs nothing; otherwise there is a price exactly when both trimmed halves are in the grammar |
| `Drift.MajorityWithin` | packages/ai-executor/src/drift.ts:56-63 | when more than half of the values lie below a bound, or at most at it, so does the median |
| `Drift.MajorityBeyond` | packages/ai-executor/src/drift.ts:56-63 | when more than half lie on the other side so does the median |
| `Drift.MedianIgnoresOrder` | packages/ai-executor/src/drift.ts:56-63 | the median is a function of the multiset of samples |
| `Drift.MedianIsMiddle` | packages/ai-executor/src/drift.ts:56-63 | of any sorted arrangement the median is the middle value, or the mean of the two middle ones |
| `Drift.ReportedIsMedian` | packages/ai-executor/src/drift.ts:72-142 | in the computed report a capability with a positive declaration appears as overshoot, or as undershoot, if and only if it has enough samples and its median is beyond the scaled declaration |
| `Drift.MajorityDecides` | packages/ai-executor/src/drift.ts:72-142 | with enough samples majorities decide the entries of the computed report, however large the outliers: overshoot for any options, undershoot too when its ratio is the smaller one or a majority is below both bounds |
| `Drift.ZeroReported` | packages/ai-executor/src/drift.ts:94-109 | a capability that declared zero and has enough samples has an entry in the computed report if and only if its median is positive, so whenever a majority consumed something, and it precedes all finite ratios |
| `Drift.ComputeDrift` | packages/ai-executor/src/drift.ts:72-142 | exactly the capabilities whose group drifted are reported, each at most once, worst ratio first |
| `Drift.EntryIsTrue` | packages/ai-executor/src/drift.ts:87-139 | an entry states the declaration of the capability's first sample, the number of its samples, their median, and a ratio that times the declaration is the median |
| `Drift.ReportFalls` | packages/ai-executor/src/drift.ts:141 | infinite ratios come first and finite ones fall |
| `Drift.BucketConcat` | packages/ai-executor/src/drift.ts:80-85 | a group is the samples of its capability, each by itself, in the order they came |

## Left out

- Regular expressions and entropy of `detect.ts`: candidates are any non-empty spans of the text.
- Real streams, back pressure and inflate: a chunk passed on is on the disk at once, so the disk states of the model bound the real ones from above; a write error counts as a broken stream.
- File-system faults other than a path in the way, and directories left behind by a failed run.
- `ExtractionOutcome.RunOutcome`: stated for a root nobody else uses, as `ExtractOptions` asks.
- `WriterRoundTrip.WrittenIsExtracted`: the writer's override of the compressed size is not modelled; deflate itself is any function inflate undoes.
- `Guard.InspectArchive`: limits are whole non-negative numbers, as the published ones are.
- Cutting bits out of a mode is division by powers of two; the fields are 16 and 32 bits wide and every bound is proved.
- JavaScript numbers above 2^53, and strings as UTF-16 code units: integers are unbounded, a character is a Unicode scalar value, and `toLowerCase` is an arbitrary function.
- `Billing.CostIsRounded`: exact arithmetic over the reals, because floating-point rounding is not what the bound is about.
- `Executor.AiExecutor.Run`: timers, abort signals and vendor adapters are one arbitrary answer per provider; the DISABLED result belongs to `from-env.ts`, which is not part of this model.
- Response validation (`validate.ts`), database writes (`recordInvocations`) and message texts, titles, consequence strings and notices.
- Freezing of a sealed prompt is the constness of its fields; weak references of the registry are not modelled.
- Intake routes, worker, web client, safe-net, scoring and capability-sdk: I/O, UI or thin wrappers.
