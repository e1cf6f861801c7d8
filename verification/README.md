# LodeDB in Dafny

Machine-checked models of the parts of LodeDB where a local reading of the code does not settle
whether it is right: the metadata-filter planner, the write-ahead log and the appenders that share
it, the generation commit protocol of the cloud store, path resolution, and the benchmark harness's
own guarantees (exact ground truth, crash-safe datasets, resumable sweeps, concurrent measurement,
allocation accounting and ranking metrics).

Verify everything with `dafny verify dfyconfig.toml` (Dafny 4.11). The project uses no axioms.

## How it is organised

| module | models | main results |
|---|---|---|
| `Filters`, `FieldIndexes`, `DocumentIndexes`, `Planner`, `Plans` | metadata filters: predicate, set resolver, mutable field indexes, cost-based planner, plan completion | `ResolveDocumentsExact`: whatever the planner picks, the answer is the predicate's; `IndexState.Upsert`: the indexes it plans on are those a rebuild would give |
| `Checksums`, `Framing`, `Wal` | CRC-32 and FNV-1a, the framed log | `CrashPrefixRecovers`, `OneByteCorruption` and its exact exception |
| `Appenders` | concurrent appenders, checkpointer and writer over the log's bytes | `DurableRuns`, `DisciplinedRuns`: two rules on the steps of a run keep every acknowledged record; `AppendLands` |
| `Digests`, `Commits` | streaming digests, blob names, write-if-absent artifacts, pointer compare-and-swap | `CommittedIsComplete`, `CommitsFormAChain`, `TransferCommits` |
| `Publication` | dataset manifests and payloads under crashes | `AlwaysValid` |
| `Sweeps` | verified store builds, guarded serving, resumable sweep | `AlwaysWellBuilt`, `RerunIsIdle` |
| `TopK`, `Recall`, `Ranking` | blocked exact top-k, masked truth, recall, nDCG | `ExactGroundTruth`, `ScoreListUnique`, `NdcgBounds` |
| `ClosedLoop`, `Allocator` | the barrier protocol and the counting allocator as interleaved atomic steps | `NoDeadlock`, `FinishesAfterDeadline`, `FailuresAreReported`, `ProbeIsExact` |
| `Paths` | containment over a filesystem with symlinks | `ResolutionExact`, `WithinIsContainment` |

State that the source updates in place is a class (`FieldIndex`, `IndexState`, `ArtifactStore`,
`Process`, `Workspace`), loops are methods with invariants proved against functions, and concurrent
or crashing code is a state machine whose steps may be cut anywhere.

## Modelling choices

- JSON serialisation is a codec parameter that reads back what it wrote; SHA-256 is an incremental
  function with 32-byte results in `Digests`, and in `Publication` and `Sweeps` a digest is the tuple
  that was hashed, so it is injective by construction.
- Scores and gains are reals; the infinities that pad the top-k buffers are explicit. numpy's
  `argpartition` and `argsort` are arbitrary functions with their documented postconditions. The
  row-wise array operations treat queries independently, so one query's scores are modelled.
- A crash may cut a write after any byte, leave a counter unreadable, and separate any two file steps.
  A directory rename is atomic.
- Machine words wrap at 2^32 and 2^64 where the source's do.
- A validated filter is a typed tree, so the source's "validated filter must be ..." errors cannot
  arise; the empty filter list and empty operator object are excluded as the validator excludes them.

## Where the code does less than it says

Nine places are stated with their exact conditions and with runs or inputs that show them.

- The appender's O(1) path trusts a recorded length (`Appenders.AppendLands`). The comments say the
  counter covers every surviving frame; after a checkpoint removed the log, a crash or a writer can
  regrow it to the stale length (`Appenders.LostAppend`, `Appenders.DuplicateLsn`). It cannot happen
  when an appender opens after such a write and before the next append
  (`Appenders.DisciplinedRuns`), and without checkpoints and writers not at all
  (`Appenders.AppendersStaySafe`).
- A writer appends without repairing a log that holds torn bytes but no complete record
  (`Appenders.WriterAppendLands`, `Appenders.LostWriterRecord`).
- Interior corruption is said to be an error. In a length field it is one only if the frame then
  ends before the end of the file; otherwise it drops every later record
  (`Wal.OneByteCorruption`, `Wal.LengthByteLosesLaterRecords`).
- A manifest may carry an evaluation identity for ground truth it does not name
  (`Publication.EvaluationNeedsTruth`, `Publication.IdentityWithoutTruth`). The producers never write
  one (`Publication.AlwaysValid`).
- A probe's load and store are two steps; what is allocated in between may be missing from the peak
  (`Allocator.ProbeIsExact`, `Allocator.SplitProbeForgets`).
- The containment guard promises an error on any escape. It decides by name; what it accepts is really
  where the result says, and so below the root, exactly as long as no symlink is on the way to it
  (`Paths.WithinIsContainment`). One can be, with `..` behind a missing name or a dangling symlink
  (`Paths.ParentBehindMissing`, `Paths.DanglingFirstName`); otherwise none is
  (`Paths.ClimbedUnlinked`). A root that collapses to nothing bounds nothing
  (`Paths.UnanchoredRoot`).
- The length of a body of 4 GiB or more is cut to 32 bits, and its frame does not read back
  (`Wal.FrameReadsBack`).
- A segment cut exactly between two frames decodes, silently, to fewer records (`Wal.TruncatedSegment`).
- A stamped record whose payload has its own root-level `lsn` key is accepted and loses it
  (`Wal.BodyRoundTrip`).

## Model

| member | source | states |
|---|---|---|
| `Filters.OrderedMeaning` | crates/lodedb-core/src/filter/predicate.rs:110-147 | what an ordered operator accepts: two numbers compare as numbers, infinities outermost, anything else by the first differing character or a proper prefix; `$lte` and `$gte` are the opposites of `$gt` and `$lt`, and a value is neither above nor below itself |
| `Filters.OrderedMonotone` | crates/lodedb-core/src/filter/predicate.rs:110-147 | a larger operand never adds to `$gt` and never removes from `$lt`, among numbers and among other values |
| `Filters.Corpus.OrderedSelects` | crates/lodedb-core/src/filter/predicate.rs:110-147 | the same on documents: which carriers of a field each ordered operator selects |
| `Filters.Corpus.ResolveExact` | crates/lodedb-core/src/filter/resolve.rs:16-43 | the set-based resolver returns exactly the documents whose stored metadata the per-document predicate accepts, for every filter tree |
| `Filters.Corpus.OperatorExact` | crates/lodedb-core/src/filter/resolve.rs:111-181 | one operator on one field selects from the postings exactly the documents the predicate's operator accepts, missing fields included |
| `Filters.Corpus.SpecExact` | crates/lodedb-core/src/filter/resolve.rs:83-109 | a literal or an operator object on a field selects exactly the documents the predicate's field test accepts |
| `FieldIndexes.InsertedCoherent` | crates/lodedb-core/src/filter/field_index.rs:29-36 | setting a field keeps the postings exactly the inverse of the stored metadata |
| `FieldIndexes.RemovedCoherent` | crates/lodedb-core/src/filter/field_index.rs:39-48 | removing a value keeps the postings exact and never leaves an empty posting behind |
| `FieldIndexes.SortedSorts` | crates/lodedb-core/src/filter/field_index.rs:131-157 | the lazily built numeric run is ascending and a permutation of the distinct numeric values |
| `FieldIndexes.PartitionPoint` | crates/lodedb-core/src/filter/field_index.rs:199-207 | binary search returns the exact boundary of the values below (or not above) the operand |
| `FieldIndexes.NumericSatisfying` | crates/lodedb-core/src/filter/field_index.rs:188-197 | the slice of the numeric run is exactly the values that satisfy the comparison, each once |
| `FieldIndexes.FieldIndex.Insert` | crates/lodedb-core/src/filter/field_index.rs:29-36 | the postings become those of the document map with the field set, and the ordered cache is dropped |
| `FieldIndexes.FieldIndex.Remove` | crates/lodedb-core/src/filter/field_index.rs:39-48 | the postings become those of the document map without the field, and the ordered cache is dropped |
| `FieldIndexes.FieldIndex.EnsureOrdered` | crates/lodedb-core/src/filter/field_index.rs:131-157 | building the cache changes nothing but the cache, which then is the exact partition of the current values |
| `FieldIndexes.FieldIndex.ResolveOrdered` | crates/lodedb-core/src/filter/field_index.rs:62-91 | an ordered comparison answered from the cached partition is the scan over every distinct value, cold or warm |
| `FieldIndexes.FieldIndex.CountOrdered` | crates/lodedb-core/src/filter/field_index.rs:94-123 | the summed posting sizes are the number of documents whose value satisfies the comparison, because no document is in two postings |
| `DocumentIndexes.BuildFieldIndexes` | crates/lodedb-core/src/filter/field_index.rs:217-233 | building from the documents gives for every field in use exactly the documents carrying it, per stored value |
| `DocumentIndexes.AddingIsExact` | crates/lodedb-core/src/engine/mod.rs:5787-5811 | adding a document to the postings of each of its fields turns the exact indexes of the documents into those with it |
| `DocumentIndexes.RemovingIsExact` | crates/lodedb-core/src/engine/mod.rs:5812-5839 | removing it from each indexed field of its own metadata turns them into those without it |
| `DocumentIndexes.FinalizedIsExact` | crates/lodedb-core/src/engine/mod.rs:5841-5852 | dropping the emptied fields changes no answer, and none is left over when every field that could be empty was marked changed |
| `DocumentIndexes.IndexState.Upsert` | crates/lodedb-core/src/engine/mod.rs:279-433 | a batch of replacements and additions, ids repeated or not, keeps the indexes exact even if it stops before the clean-up; a finished one leaves exactly the indexes a rebuild would |
| `DocumentIndexes.IndexState.Delete` | crates/lodedb-core/src/engine/mod.rs:472-518 | a batch of deletions, ids repeated, absent or not, leaves exactly the indexes a rebuild would |
| `DocumentIndexes.IndexState.GetFieldIndexes` | crates/lodedb-core/src/engine/mod.rs:5775-5785 | whenever the indexes are first asked for and whatever was written before or since, they meet what the filter planner's exactness rests on |
| `FieldIndexes.ComplementPosting` | crates/lodedb-core/src/filter/plan/and_plan.rs:654-673 | the two-pointer walk over two ascending id lists returns exactly the set difference |
| `Planner.CountNodeExact` | crates/lodedb-core/src/filter/plan.rs:180-194 | whenever the count estimator answers, the answer is the exact number of matching documents |
| `Planner.CountOperatorExact` | crates/lodedb-core/src/filter/plan.rs:288-335 | operator counts, including the clamped complements, are exact |
| `Planner.SidesDual` | crates/lodedb-core/src/filter/plan.rs:337-353 | matching and failing side of an operator are complements, so negation may swap sides |
| `Planner.NodeBounds` | crates/lodedb-core/src/filter/plan.rs:337-353 | a probe that promises a bound can always be materialised, to a superset of the wanted side inside the corpus and no larger than promised |
| `Planner.EntryBounds` | crates/lodedb-core/src/filter/plan.rs:355-398 | the same for every entry, through conjunction, disjunction and negation |
| `Planner.OperatorBounds` | crates/lodedb-core/src/filter/plan.rs:487-589 | the same for every operator and side |
| `Planner.NodeMatchingExactly` | crates/lodedb-core/src/filter/plan/and_plan.rs:394-410 | a matching probe flagged exact materialises the matching set itself |
| `Planner.NodeFailingExactly` | crates/lodedb-core/src/filter/plan/and_plan.rs:688-693 | a failing probe flagged exact materialises the failing set itself |
| `Planner.NodePostingExact` | crates/lodedb-core/src/filter/plan/and_plan.rs:493-509 | a borrowed posting offered for a filter is exactly its matching set |
| `Planner.IndexedNodeExact` | crates/lodedb-core/src/filter/plan/and_plan.rs:722-736 | evaluating a filter for one document through the index agrees with the stored-metadata predicate |
| `Plans.SelectiveAnchorSound` | crates/lodedb-core/src/filter/plan/and_plan.rs:105-138 | the selective-anchor plan's candidates contain every match |
| `Plans.AllUnselectiveDenylistSound` | crates/lodedb-core/src/filter/plan/and_plan.rs:140-167 | the all-unselective denylist contains every non-match |
| `Plans.ExactFailingDenylistSound` | crates/lodedb-core/src/filter/plan/and_plan.rs:169-250 | the exact denylist is precisely the non-matches, with exact counts |
| `Plans.ComplementKnockoutSound` | crates/lodedb-core/src/filter/plan/and_plan.rs:252-295 | anchor minus denied loses no match and its denylist covers every wrong anchor document |
| `Plans.PlanFilterSound` | crates/lodedb-core/src/filter/plan.rs:84-155 | every validated filter gets a plan, never an error, and the plan keeps what its kind promises |
| `Plans.CompleteSound` | crates/lodedb-core/src/engine/mod.rs:5934-6002 | completing a plan with stored metadata yields exact counts and, where it lists failing documents, exactly those |
| `Plans.IntersectSound` | crates/lodedb-core/src/engine/mod.rs:6004-6055 | restricting a completed plan to given ids gives exactly the given ids that match, whichever side is iterated |
| `Plans.MaterializeSound` | crates/lodedb-core/src/engine/mod.rs:6057-6120 | materialising a completed plan gives exactly the matches |
| `Plans.ResolveDocumentsExact` | crates/lodedb-core/src/engine/mod.rs:5854-5905 | whatever strategy is chosen, filtering never fails on a validated filter and returns exactly the documents the predicate accepts, cut to the ids given |
| `Checksums.Crc32` | crates/lodedb-core/src/storage/wal.rs:744-754 | the byte loop computes the reflected CRC-32 fold |
| `Checksums.CrcDetectsOneByte` | crates/lodedb-core/src/storage/wal.rs:744-754 | two equally long streams that differ in exactly one byte have different checksums |
| `Checksums.FnvStepInjective` | benchmarks/embedded_open_memory/src/main.rs:207-217 | the FNV-1a 64-bit step is injective in the state for each byte and in the byte for each state |
| `Checksums.FnvDetectsOneByte` | benchmarks/embedded_open_memory/src/main.rs:207-217 | two hit streams of equal length that differ in one byte print different digests |
| `Checksums.ResultDigest` | benchmarks/embedded_open_memory/src/main.rs:207-217 | the nested loop over hits is the fold over all their bytes in order |
| `Checksums.EveryPartCounts` | benchmarks/embedded_open_memory/src/main.rs:207-217 | one changed byte of the document id, chunk id or score of any hit changes the digest |
| `Wal.BodyRoundTrip` | crates/lodedb-core/src/storage/wal.rs:341-398 | exactly the records with a non-empty, newline-free operation are encoded, unless unstamped with a root-level `lsn` key of their own; an encoded record decodes to itself if and only if its payload has no such key |
| `Wal.FrameReadsBack` | crates/lodedb-core/src/storage/wal.rs:135-222 | a frame passes its own check with its own body if and only if the body is below 2^32 bytes, the cast of its length |
| `Wal.ScanRecords` | crates/lodedb-core/src/storage/wal.rs:174-222 | the scanning loop computes the specified parse of header and frames |
| `Wal.ScanWithTornTail` | crates/lodedb-core/src/storage/wal.rs:135-222 | complete frames followed by any torn frame read as exactly the complete records, with the valid length reported |
| `Wal.CrashPrefixRecovers` | crates/lodedb-core/src/storage/wal.rs:135-222 | for every log and every cut, the reader returns exactly the records whose frames are whole, never an error |
| `Wal.SegmentRoundTrip` | crates/lodedb-core/src/storage/wal.rs:231-261 | a non-empty list of records survives encoding and strict decoding as a segment |
| `Wal.SegmentsExactly` | crates/lodedb-core/src/storage/wal.rs:231-247 | exactly the non-empty lists of records that each encode make a segment |
| `Wal.TruncatedSegment` | crates/lodedb-core/src/storage/wal.rs:249-261 | a truncated segment is accepted if and only if the cut is on a frame boundary after the first record, and then yields that prefix |
| `Wal.OneByteCorruption` | crates/lodedb-core/src/storage/wal.rs:174-222 | any one changed byte of a frame: behind the length it never passes the checksum, in the length it moves the declared end; unless the bytes then delimited carry their own checksum, the log is refused if that end lies before the end of the file and otherwise the record and all behind it are dropped |
| `Wal.LengthByteLosesLaterRecords` | crates/lodedb-core/src/storage/wal.rs:169-222 | an interior input: the top length byte of one frame set drops it and every intact record behind it without an error |
| `Wal.RealChecksum` | crates/lodedb-core/src/storage/wal.rs:403-410 | the frame checksum in use has the one-byte property the previous row needs |
| `Framing.ParseLoop` | crates/lodedb-core/src/storage/wal.rs:174-222 | the position-advancing loop equals the recursive parse |
| `Appenders.FileLogLawful` | crates/lodedb-core/src/storage/wal.rs:135-167 | the log file's frames and reader obey the laws the appender steps are proved against |
| `Appenders.RepairExact` | crates/lodedb-core/src/engine/mod.rs:3458-3472 | repairing keeps every readable record and leaves exactly their bytes, or no file |
| `Appenders.FloorExact` | crates/lodedb-core/src/engine/mod.rs:3401-3453 | the section never errs on a log a crash may leave, its LSN floor is at or above the watermark (and the log, when it scans), and it starts from exactly the readable records if and only if the recorded length hides no torn tail |
| `Appenders.AppendExact` | crates/lodedb-core/src/engine/mod.rs:3331-3379 | an append cut at any byte or at the counter hands out an LSN above the watermark; unless it believes a torn log, it leaves the readable log unchanged or extended by its own record and acknowledges only that |
| `Appenders.FoldKeeps` | crates/lodedb-core/src/engine/mod.rs:1754-1800 | a checkpoint contains every acknowledged record, with or without the log removal that follows |
| `Appenders.DurableRuns` | crates/lodedb-core/src/engine/mod.rs:3059-3473 | in every state of every run of appenders, folds and writers, each cut anywhere, every acknowledged record is in the base or readable and LSNs strictly increase, unless an earlier append or writer started behind a log it had not read |
| `Appenders.DisciplinedRuns` | crates/lodedb-core/src/engine/mod.rs:3059-3473 | no step is ever misled in a run that keeps two rules told from its steps alone: after a checkpoint removed the log and a cut append or a writer wrote to the new one, no append until an appender opens; and no writer behind a cut write until one opens or appends |
| `Appenders.AppendersStaySafe` | crates/lodedb-core/src/engine/mod.rs:3093-3379 | any number of appenders opening, appending and crashing on a fresh store need no rule: durability and LSN order hold in every state |
| `Appenders.OpenMarks` | crates/lodedb-core/src/engine/mod.rs:3093-3214 | opening an appender makes the recorded length trustworthy from any well-formed log |
| `Appenders.RequestsAreAcceptable` | crates/lodedb-core/src/storage/wal.rs:341-398 | the requests every append over the log file can store, from the request alone: a non-empty, newline-free operation, no root-level `lsn` key, and a body below 2^32 bytes under every LSN |
| `Appenders.FreshRequestLands` | crates/lodedb-core/src/engine/mod.rs:3331-3453 | such a request to a fresh log is acknowledged under LSN 1 and reads back as the only record |
| `Appenders.AppendLands` | crates/lodedb-core/src/engine/mod.rs:3331-3453 | a completed append is acknowledged, and leaves the log extended by its record if and only if it did not take the O(1) path over a torn log |
| `Appenders.CounterNeverFalls` | crates/lodedb-core/src/engine/mod.rs:3093-3379 | no step lowers the recorded LSN |
| `Appenders.WriterAppendLands` | crates/lodedb-core/src/engine/mod.rs:1969-1990 | a writer's append, which repairs nothing, extends the log correctly if and only if the log is intact |
| `Appenders.LostAppend` | crates/lodedb-core/src/engine/mod.rs:3401-3453 | a run breaking the first rule: checkpoint, crash leaving exactly the stale length, append; the acknowledged record is neither folded nor readable |
| `Appenders.FileLogHides` | crates/lodedb-core/src/storage/wal.rs:174-222 | the real reader meets that run's condition whenever the torn frame declares more bytes than follow it |
| `Appenders.DuplicateLsn` | crates/lodedb-core/src/engine/mod.rs:3401-3453 | another: checkpoint, a writer's record of equal length, append; one LSN is handed out twice |
| `Appenders.LostWriterRecord` | crates/lodedb-core/src/engine/mod.rs:1969-1990 | a run breaking the second rule: a crash in the first frame of a log, then a writer; its acknowledged record is neither folded nor readable |
| `TopK.MergeTops` | benchmarks/wiki_dpr_disk_rescore/common.py:283-313 | pruning each side to its best first does not change the best of the union |
| `TopK.LastLargestTop` | benchmarks/wiki_dpr_disk_rescore/common.py:302-305 | the last positions of an ascending argpartition are a best part of the block |
| `TopK.FirstLargestTop` | benchmarks/wiki_dpr_disk_rescore/common.py:306-310 | the first positions of an argpartition of negated scores are a best part |
| `TopK.BufferHoldsBest` | benchmarks/wiki_dpr_disk_rescore/common.py:297-310 | after p rows the buffer is the best min(k, p) rows and otherwise only sentinels, none once p reaches k |
| `TopK.ExactGroundTruth` | benchmarks/wiki_dpr_disk_rescore/common.py:283-313 | for every row count and block size of at least 100: 100 distinct real rows, non-increasing, none beaten by an omitted row, with their own scores; an error exactly below those sizes |
| `TopK.ScoreListUnique` | benchmarks/wiki_dpr_disk_rescore/common.py:311-313 | the score list is determined by the scores alone, so it depends neither on block size nor on how ties are cut |
| `TopK.ExactTopkIds` | benchmarks/gpu_vanilla_vs_augmented/turbovec_vva_bench.py:98-125 | for every tile size the 1-based ids are the top min(k, n) in descending order |
| `TopK.ExactTop1` | benchmarks/mps_vs_neon/run.py:46-61 | the tiled argmax returns the least row attaining the maximum, 0 without rows |
| `Recall.TruthRows` | benchmarks/memory_integrations/common.py:291-314 | with any mask the kept rows are min(k, eligible) eligible ones, none beaten by an omitted eligible row |
| `Recall.ExactTruth` | benchmarks/memory_integrations/common.py:291-314 | every query gets the ids of such rows; with distinct ids each truth set has exactly min(k, eligible) members |
| `Recall.RecallAtK` | benchmarks/memory_integrations/common.py:317-328 | the reported recall is within half a unit of the fourth decimal of the mean, in [0, 1], and 1.0 if and only if the mean is at least 0.99995; errors exactly on unequal lists or a zero depth |
| `Recall.MeanRecall` | benchmarks/memory_integrations/common.py:317-328 | the mean is the sum of the counted queries' recalls over their number, in [0, 1], and 1 if and only if every counted query returned min(k, truth) truth ids |
| `Recall.QueryRecall` | benchmarks/memory_integrations/common.py:326-327 | one query's recall is in [0, 1], and 1 if and only if it found min(k, truth) truth ids |
| `Recall.RecallValue` | benchmarks/memory_integrations/common.py:326-327 | in between it is the number of truth ids among the first k returned, over min(k, truth) |
| `Digests.HashReader` | crates/lodedb-cloud-core/src/digest.rs:25-37 | for every schedule of short reads the streamed digest is the buffered one and the count is the length |
| `Digests.HexInjective` | crates/lodedb-cloud-core/src/digest.rs:44-46 | different byte strings have different hex forms |
| `Digests.HexIsValid` | crates/lodedb-cloud-core/src/digest.rs:13-20 | the hex of any digest is a valid blob digest |
| `Digests.BlobNamesExact` | crates/lodedb-cloud-core/src/blob_layout.rs:28-51 | a blob name parses to a digest if and only if that digest is valid and has that name |
| `Commits.ArtifactStore.WriteStreamIfAbsent` | crates/lodedb-cloud-core/src/artifact_store.rs:46-69 | success means the stored bytes have the expected digest, failure stores nothing, nothing already stored changes; accepted exactly when the stored or incoming bytes match |
| `Commits.ArtifactStore.CompareAndSwapPointer` | crates/lodedb-cloud-core/src/artifact_store.rs:102-118 | publishes if and only if the committed body is the expected one, otherwise reports both generations and changes nothing |
| `Commits.ArtifactStore.Contains` | crates/lodedb-cloud-core/src/artifact_store.rs:84-90 | true exactly for stored names |
| `Commits.CommittedIsComplete` | crates/lodedb-cloud-core/src/artifact_store.rs:46-118 | in every state of every interleaving with crashes, committed bodies name only artifacts present with the recorded digest |
| `Commits.UploadWrites` | crates/lodedb-cloud-core/src/local_artifact_store.rs:70-147 | staging and claiming one artifact changes the store exactly as the write-if-absent operation and fails in exactly the same cases |
| `Commits.TransferCommits` | crates/lodedb-cloud-core/src/manifest_transfer.rs:71-250 | a transfer handed the right bytes, meeting no conflicting name and not overtaken ends with its body committed, every artifact it names present, and all else as it was |
| `Commits.ArtifactsImmutable` | crates/lodedb-cloud-core/src/local_artifact_store.rs:70-147 | no stored artifact ever changes or disappears |
| `Commits.BeginSafe` | crates/lodedb-cloud-core/src/generation_inventory.rs:303-334 | what the inventory diff skips is already present with the same digest |
| `Commits.Missing` | crates/lodedb-cloud-core/src/generation_inventory.rs:303-323 | uploads exactly the artifacts the destination does not name with the same digest |
| `Commits.RepeatIsIdle` | crates/lodedb-cloud-core/src/manifest_transfer.rs:223-248 | repeating a committed transfer uploads nothing and moves no pointer |
| `Commits.CommitsFormAChain` | crates/lodedb-cloud-core/src/manifest_transfer.rs:223-264 | the successful swaps of any run form one chain in which each replaced exactly the body committed before it |
| `Commits.NoLostUpdate` | crates/lodedb-cloud-core/src/artifact_store.rs:94-118 | in such a chain a swap's old body is the new body of the previous swap of that key |
| `Commits.GenerationSwapExact` | crates/lodedb-cloud-core/src/artifact_store.rs:107-110 | a swap comparing generation numbers keeps the chain if and only if no different body with the same number is committed |
| `Commits.GenerationSwapLosesCommit` | crates/lodedb-cloud-core/src/artifact_store.rs:107-127 | a two-lineage run in which the full-body swap refuses and the generation swap overwrites a commit |
| `Commits.LocalSwapNeedsOneWriter` | crates/lodedb-cloud-core/src/local_artifact_store.rs:163-189 | the directory backend's read-check-then-replace is sound alone, and breaks the chain when two clients both passed the check |
| `Publication.PublishAtomic` | benchmarks/wiki_dpr_disk_rescore/common.py:95-106 | payloads under new names and the manifest replaced last: cut anywhere before the end a reader sees exactly the old dataset, after it the new one |
| `Publication.TruthAtomic` | benchmarks/wiki_dpr_disk_rescore/common.py:314-327 | computing ground truth, cut anywhere, leaves the old dataset or the same corpus and queries with a ground truth that validates |
| `Publication.CreateAtomic` | benchmarks/wiki_dpr_disk_rescore/common.py:346-398 | creating a dataset, in place or by rename, leaves the old one or a complete one whose manifest passes the loader |
| `Publication.AlwaysValid` | benchmarks/wiki_dpr_disk_rescore/data_prep.py:146-214 | after any history of producers each crashing anywhere, a visible dataset validates, base hash included, and has an evaluation identity exactly when it has ground truth, assuming fresh tokens |
| `Publication.ValidatedShapes` | benchmarks/wiki_dpr_disk_rescore/common.py:209-257 | a validated dataset with ground truth has arrays of exactly the declared shapes and types, a base file of the declared size and digest, and a pinned source revision |
| `Publication.TruthKeepsCorpus` | benchmarks/wiki_dpr_disk_rescore/common.py:56-92 | adding ground truth never changes the corpus identity |
| `Publication.EvaluationPinsPayloads` | benchmarks/wiki_dpr_disk_rescore/common.py:56-84 | two validated datasets with one evaluation identity have the same corpus rows, queries and ground truth |
| `Publication.EvaluationNeedsTruth` | benchmarks/wiki_dpr_disk_rescore/common.py:56-92 | every validated dataset with ground truth has an evaluation identity; the converse holds exactly for manifests that list no digests of ground truth they do not name |
| `Publication.IdentityWithoutTruth` | benchmarks/wiki_dpr_disk_rescore/common.py:56-92 | the failing family: take the two file names out of any manifest with ground truth and it still validates, with its identity |
| `Publication.StreamBase` | benchmarks/wiki_dpr_disk_rescore/data_prep.py:151-171 | the nested loops succeed exactly when the shards yield the target number of good rows; the file holds them and the running hash is the file's |
| `Publication.ConsumeFailsExactly` | benchmarks/wiki_dpr_disk_rescore/data_prep.py:151-171 | the loops fail exactly if an unreadable batch or a row that cannot be normalised comes before the target is reached |
| `Publication.ConsumedRows` | benchmarks/wiki_dpr_disk_rescore/data_prep.py:155-168 | what is accepted is the first rows of all batches in order, normalised, up to the target |
| `Sweeps.BatchesCover` | benchmarks/wiki_dpr_disk_rescore/lodedb_bench.py:354-362 | whatever the batch size, the payloads together are every row exactly once, in order, under its own index |
| `Sweeps.IngestVectors` | benchmarks/wiki_dpr_disk_rescore/lodedb_bench.py:345-363 | the loop hands over those payloads up to the step at which the engine gives up, and the digest it returns is that of the rows handed over |
| `Sweeps.RunBuild` | benchmarks/wiki_dpr_disk_rescore/lodedb_bench.py:714-806 | the build does the steps of its plan, up to the one at which the engine gives up: open, add batch by batch, check the digest, persist, write the configuration aside, rename it |
| `Sweeps.ConfigComesLast` | benchmarks/wiki_dpr_disk_rescore/lodedb_bench.py:231-237 | after any number of steps a configuration file exists exactly if the build is complete and its digest matched |
| `Sweeps.CutIsWellBuilt` | benchmarks/wiki_dpr_disk_rescore/lodedb_bench.py:714-806 | cut after any step, with any first part of the unpersisted rows on disk, a build leaves no configuration, or one over exactly its corpus |
| `Sweeps.AlwaysWellBuilt` | benchmarks/wiki_dpr_disk_rescore/lodedb_bench.py:714-806 | in every store directory reached by sweeps and by builds cut after any step, a configuration file means a finished build of exactly the corpus it names |
| `Sweeps.ServedCorpus` | benchmarks/wiki_dpr_disk_rescore/lodedb_bench.py:183-228 | serving proceeds only on a store configured for the same corpus, creation parameters, layout and pinned builder, which then holds exactly that corpus |
| `Sweeps.ServeLabelExact` | benchmarks/wiki_dpr_disk_rescore/sweep.py:297-352 | a label without a result is completed exactly if its store is usable and the engine serves it, with what the engine measured under the requested identity; it is skipped exactly if its store is unusable or the engine lacks something and unsupported ones are included |
| `Sweeps.PrepareStoreExact` | benchmarks/wiki_dpr_disk_rescore/sweep.py:244-296 | a configured store is ready exactly if its configuration is the one asked for, another exactly if it may be built and the build succeeds; it is put aside exactly if it may not be built or the engine lacks something and unsupported ones are included |
| `Sweeps.StoreIdPinsContents` | benchmarks/wiki_dpr_disk_rescore/lodedb_bench.py:81-116 | two well-built stores with one store id hold the same rows under the same ids and were created alike |
| `Sweeps.ResumeExact` | benchmarks/wiki_dpr_disk_rescore/lodedb_bench.py:495-588 | a result is resumed if and only if it is valid and label, evaluation, store, measurement and overrides are all the requested ones |
| `Sweeps.ServeAgain` | benchmarks/wiki_dpr_disk_rescore/lodedb_bench.py:591-599 | a result just written is the answer to the same request with any engine whatsoever, so nothing is served again; every answer is repeated over the files the first run left |
| `Sweeps.PrepareAgain` | benchmarks/wiki_dpr_disk_rescore/sweep.py:244-296 | a prepared store gets the same answer again, and a ready one is found ready with any engine whatsoever, so nothing is built |
| `Sweeps.PrepareAll` | benchmarks/wiki_dpr_disk_rescore/sweep.py:244-296 | the store loop stops at the first abort and otherwise leaves every referenced store prepared, unusable ones with their reason |
| `Sweeps.ServeLoop` | benchmarks/wiki_dpr_disk_rescore/sweep.py:297-352 | the serve loop returns the completed and skipped lists and files its answers determine, or stops at the first abort |
| `Sweeps.Workspace.RunSweep` | benchmarks/wiki_dpr_disk_rescore/sweep.py:213-358 | a sweep returns exactly when nothing aborts, with the directories, files and summary its inputs determine; stores stay well built either way |
| `Sweeps.SweepPartitions` | benchmarks/wiki_dpr_disk_rescore/sweep.py:297-353 | completed and skipped interleave to the selection, each in configuration order |
| `Sweeps.InterleavesDisjoint` | benchmarks/wiki_dpr_disk_rescore/sweep.py:297-353 | with distinct labels each selected label is in exactly one of the two lists |
| `Sweeps.RerunIsIdle` | benchmarks/wiki_dpr_disk_rescore/sweep.py:239-358 | rerunning with the same inputs yields the same answers and leaves every directory and file alone; with any engine whatsoever each completed label's store is ready and its answer is its file |
| `Sweeps.MatrixIsSound` | benchmarks/wiki_dpr_disk_rescore/sweep.py:34-196 | every configuration refers to a known store, and no buildable store pins a builder |
| `Sweeps.MatrixNamesDistinct` | benchmarks/wiki_dpr_disk_rescore/sweep.py:79-196 | the configuration labels are distinct |
| `ClosedLoop.DeadlineSetBeforeRead` | benchmarks/wiki_dpr_disk_rescore/lodedb_bench.py:414-451 | in no schedule does a worker read the deadline before the main thread set it |
| `ClosedLoop.NoDeadlock` | benchmarks/wiki_dpr_disk_rescore/lodedb_bench.py:414-451 | in every reachable state something other than a failure or another serving iteration can step until the main thread has returned, even when workers fail early |
| `ClosedLoop.BoundedRun` | benchmarks/wiki_dpr_disk_rescore/lodedb_bench.py:414-451 | every run has at most seven steps per worker and five besides iterations of the serving loop |
| `ClosedLoop.BoundedWithoutServing` | benchmarks/wiki_dpr_disk_rescore/lodedb_bench.py:414-451 | a run without such iterations is no longer than that |
| `ClosedLoop.FinishesAfterDeadline` | benchmarks/wiki_dpr_disk_rescore/lodedb_bench.py:414-451 | once the deadline has passed what is left of any run is bounded, and where it can go no further the main thread has returned and every worker finished |
| `ClosedLoop.FirstErrorIsGenuine` | benchmarks/wiki_dpr_disk_rescore/lodedb_bench.py:436-451 | the error re-raised is a worker's own, never a barrier broken by another worker; without errors everybody passed the barrier and finished |
| `ClosedLoop.FailuresAreReported` | benchmarks/wiki_dpr_disk_rescore/lodedb_bench.py:419-451 | the main thread returns without an error if and only if no worker failed, and every worker that failed has its own error recorded by then |
| `Allocator.LiveIsTheSum` | benchmarks/embedded_open_memory/src/main.rs:31-66 | in every interleaving LIVE is the sum of the sizes counted and not yet released |
| `Allocator.LiveIsTheBalance` | benchmarks/embedded_open_memory/src/main.rs:31-66 | whenever all calls are finished, LIVE is what the program asked for in the run and did not give back |
| `Allocator.StepLive` | benchmarks/embedded_open_memory/src/main.rs:48-60 | each subtraction finds its bytes counted, so LIVE never wraps below zero |
| `Allocator.PeakCovers` | benchmarks/embedded_open_memory/src/main.rs:63-101 | in every interleaving, also between the probe's load and store, every value LIVE has had since the load is at most PEAK, a value a call in flight is about to publish, or one published between the two; nothing published exceeds a value LIVE had |
| `Allocator.MissedExact` | benchmarks/embedded_open_memory/src/main.rs:63-101 | what is remembered of the steps between load and store is the largest value published there |
| `Allocator.ProbeCovers` | benchmarks/embedded_open_memory/src/main.rs:96-101 | if nothing above the loaded value is published between a probe's load and store, PEAK and the calls in flight cover every value LIVE has had since the load, from the store until the next probe |
| `Allocator.ProbeIsExact` | benchmarks/embedded_open_memory/src/main.rs:96-113 | for a load and a report that find no growth in flight, PEAK is exactly the maximum of LIVE since the load if and only if every value published between load and store is at most the loaded one or one published after the store |
| `Allocator.SplitProbeForgets` | benchmarks/embedded_open_memory/src/main.rs:96-101 | a run in which an allocation between the two halves is lost from the peak |
| `Paths.Normalize` | crates/lodedb-cloud-core/src/paths.rs:100-112 | the push-and-pop loop computes the lexical normal form |
| `Paths.NormalizeIdempotent` | crates/lodedb-cloud-core/src/paths.rs:100-112 | normalising twice is normalising once |
| `Paths.NormalizeComposes` | crates/lodedb-cloud-core/src/paths.rs:97-112 | normalising a prefix first does not change the result of normalising the whole |
| `Paths.WalkIsLexical` | crates/lodedb-cloud-core/src/paths.rs:97-112 | on a tree without symlinks, walking step by step ends where the normal form says |
| `Paths.ResolveLoop` | crates/lodedb-cloud-core/src/paths.rs:73-95 | the walk-up loop terminates and returns the specified resolution |
| `Paths.ResolutionExact` | crates/lodedb-cloud-core/src/paths.rs:66-95 | the resolution from the tree and the path alone: the deepest existing beginning behind which only names follow is resolved and the names are appended; without one the path is normalised lexically |
| `Paths.RelativeResolves` | crates/lodedb-cloud-core/src/paths.rs:73-95 | a relative path resolves as the absolute one behind the working directory, except the empty one |
| `Paths.ResolvesToFuturePlace` | crates/lodedb-cloud-core/src/paths.rs:73-95 | with an existing ancestor the result is where real resolution arrives in any later tree containing the missing names below it |
| `Paths.ResolvesToCreatedPlace` | crates/lodedb-cloud-core/src/paths.rs:66-95 | in particular once the missing directories are made, the first of them not being a dangling link |
| `Paths.WithinIsContainment` | crates/lodedb-cloud-core/src/paths.rs:14-95 | for every candidate, on either branch: what is accepted is below the resolved root by name (for exactly the roots that are absolute or of which something exists), and in any later tree in which it exists it is really there, so really below that root, when no symlink is on the way to it, and otherwise somewhere else |
| `Paths.ClimbedUnlinked` | crates/lodedb-cloud-core/src/paths.rs:66-95 | none is when an ancestor exists and the tree has nothing, so no dangling symlink either, at the first missing name |
| `Paths.MakeableContainment` | crates/lodedb-cloud-core/src/paths.rs:29-39 | a candidate that exists or can be made is accepted exactly when the place where it is once made lies below the root's, and the result names that place |
| `Paths.ParentBehindMissing` | crates/lodedb-cloud-core/src/paths.rs:14-39 | an input on which one is: `..` behind a missing name below a symlink; the accepted path, once it exists, is not below the root |
| `Paths.DanglingFirstName` | crates/lodedb-cloud-core/src/paths.rs:14-39 | another: a dangling symlink as first missing name |
| `Paths.UnanchoredRoot` | crates/lodedb-cloud-core/src/paths.rs:97-112 | a relative root of which nothing exists and which collapses to nothing accepts every candidate |
| `Paths.LinkFreeContainment` | crates/lodedb-cloud-core/src/paths.rs:29-95 | without symlinks success means exactly that the candidate lies below the root in any tree in which both exist, on the lexical branch too |
| `Paths.ExistingContainment` | crates/lodedb-cloud-core/src/paths.rs:29-39 | for existing paths, success means exactly that the real location lies below the real root |
| `Ranking.RankDocids` | benchmarks/trieve_vs_lodedb/trieve_bench.py:134-150 | the loop returns the first occurrences of the non-empty ids |
| `Ranking.OrderKept` | benchmarks/trieve_vs_lodedb/trieve_bench.py:134-150 | the deduplicated ranking keeps the order of first appearance |
| `Ranking.DcgAtK` | benchmarks/trieve_vs_lodedb/trieve_bench.py:60-67 | the accumulating loop is the discounted gain of the relevant positions |
| `Ranking.Rearrangement` | benchmarks/trieve_vs_lodedb/trieve_bench.py:60-78 | moving the relevant documents to the front never lowers the gain, and keeps it if and only if they are there already |
| `Ranking.NdcgBounds` | benchmarks/trieve_vs_lodedb/trieve_bench.py:70-78 | after deduplication nDCG@k is in [0, 1], and 1 if and only if the first min(k, relevant) positions are all relevant |
| `Ranking.NdcgValue` | benchmarks/trieve_vs_lodedb/trieve_bench.py:70-78 | in between it is the gain of the relevant documents ranked over the best possible gain |
| `Ranking.RecallMonotone` | benchmarks/trieve_vs_lodedb/trieve_bench.py:158-161 | recall@k is in [0, 1] and monotone in k |
| `Ranking.RecallValue` | benchmarks/trieve_vs_lodedb/trieve_bench.py:158-161 | it is the share of the relevant documents among the first k |
| `Ranking.QualityMetrics` | benchmarks/trieve_vs_lodedb/trieve_bench.py:153-165 | the metrics dictionary holds exactly those recalls and that nDCG |

## Left out

- BM25, fusion, ANN clustering, vector kernels and GPU paths: numeric code whose interest is speed.
- The engine's chunks, vectors and text sidecars: of applying a record only the effect on documents' metadata and its indexes is modelled.
- Validation and coercion of raw JSON filters: the model starts from the validated tree.
- UTF-8: an operation name is a byte string, so the decoder's UTF-8 check is not modelled.
- Records only the Python engine can replay: appenders, folds and writable opens refuse a log holding any, which the model does not have.
- Object-store backends: their conditional write is the atomic swap of the protocol; multipart upload is not modelled.
- Redaction policies and the legacy null-inserting body comparison when publishing a transfer.
- Floating-point rounding in dot products, norms and logarithms.
- `json.dumps` layout, file permissions, fsync ordering below the level of a rename.
- `recall_curve` and the `--only` selection of the sweep: one-line filters over what is modelled.
- Remote benchmark drivers, plotting, latency percentiles and throughput figures.
- Relative paths' dependence on a changing working directory, and Windows prefixes.
- Recall.RecallAtK: sums and rounds exact numbers, so the last bit of a floating-point mean is not modelled.
- ClosedLoop.NoDeadlock: states that some thread can always step, not that the operating system schedules it or that the clock passes the deadline. A worker thread that cannot be started, which would leave those already started at the barrier, is not modelled.
- Publication.AlwaysValid: assumes that a generation token was not used in the directory before.
- Sweeps.AlwaysWellBuilt: covers stores the sweep builds; an imported historical store is taken to be as its configuration says. A crash ends the process; the loss of renamed or persisted files with the machine is not modelled.
