# chitta-field: a Dafny model of its hard core

chitta-field is a log-structured memory store with many derived indexes. This
project models the parts whose correctness is not visible from any single
function, and proves what they are for:

- **Turbo publication** (`TurboProtocol.dfy`, `SemanticIndex.dfy`). An immutable
  search index is built off-lock from a stale copy, published under an epoch and
  a mutation watermark, and patched at query time by the ids that changed since.
  The protocol is a state machine; its invariant makes the patched search return
  exactly the brute-force top k of what the history of writes and removals left.
- **Bit-sliced counters** (`HdcVectors.dfy`, `BitSliced.dfy`, `HdcStore.dfy`).
  Saturating 16-bit counters held as bit planes, with ripple-carry addition and a
  bit-parallel comparator, refine the scalar counters; a realm's running count
  gives the from-scratch majority.
- **Write-ahead log** (`Bytes.dfy`, `WalRecords.dfy`, `WalReplay.dfy`,
  `WalTail.dfy`, `WalReopen.dfy`, `WalCorrupt.dfy`, `OpLog.dfy`). Files are byte sequences; power
  loss cuts them at any byte; segments vanish and writes fail part-way. Replay,
  tailing and recovery lose and repeat nothing, and exactly when reopening or a
  long segment name does is stated. Of arbitrary bytes only what re-encodes to
  them is delivered, and a damaged record ends the reading.
- **Several writers** (`MergeReplay.dfy`, `ForeignSync.dfy`, `Manifest.dfy`).
  Timestamp merge with certified skipping, the two-phase peer sync with its
  coverage vectors, and the two-slot manifest under crashes.
- **Graph search** (`GraphTraverse.dfy`, `BeamSearch.dfy`, `HnswGraph.dfy`,
  `HnswClean.dfy`). Budgeted breadth-first search with true hop counts, the
  guarantee of the greedy beam, the exact HNSW graph after an insert, a remove
  or a stale plan, and when these keep it free of dangling and self edges.
- **Derived indexes kept in step** (`DerivedIndex.dfy`, `AssocEdges.dfy`). The
  dense code array, the posting lists and the realm counts are determined by the
  stored vectors alone; association weights are determined by history alone.

`Collections.dfy`, `Ranking.dfy` and `Vectors.dfy` hold shared definitions; a
ranked top k is shown there to be unique, so that "returns the top k" leaves no
freedom.

State that the source changes in place is a class whose methods are proved equal
to a step function on values; the theorems over runs are lemmas about those step
functions. CRC-32, SHA-256 and the payload codec are parameters of type `Codec`,
assumed only to produce values of the right length and to decode what they
encoded (`Codec.Sound`); `HeadDeterminesRecords` alone also takes the hash to be
free of collisions. Scores, weights and vectors are reals. Locks are the
atomicity of steps. Quantisation is a contract: the published index returns the
true top n of its own snapshot.

Where a promise turned out not to hold for every input, the exact condition is a
lemma of its own (named `...Iff`), and a second one gives a run that fails:

- the Turbo overlay scores whatever vector it finds, also zero vectors and ones
  of the wrong dimension, which an index build leaves out
  (`TurboMatchesBruteForceIff`, `ArmsAgreeIff`; `PendingEmbeddingIsOverlayOnly`);
- a startup cache may be planned exactly while every row it has wrong is still
  recorded as changed, or the cache is outdated anyway; before the first prune
  that is always so (`PlanCacheKeepsInvIff`, `CacheBeforePruneIsSafe`;
  `CacheAfterPruneIsStale`);
- from 131070 vectors on, a 16-bit counter can no longer reach the threshold
  (`VoteIsMajorityIff`; `UnanimousVoteIsLost`);
- an insert keeps the realm counters true to the members exactly when its id is
  new, or enters one more realm with the vector it already has, and no counter
  that it raises is saturated; only for a new id do later steps stay safe. A remove must name the
  realm of insertion (`InsertKeepsCountsIff`, `InsertKeepsInvIff`,
  `RemoveKeepsCountsIff`; `ReinsertDrifts`, `SaturatedInsertDrifts`);
- replay yields the acknowledged list exactly when each segment that holds
  records has a name of twelve digits, as the listing demands
  (`ReplayYieldsAcknowledgedIff`; `LongNameIsLost`);
- a writer that reopens its last segment after a crash is replayed exactly when
  the repair left nothing behind the last whole record (`ReopenedLogReplaysIff`;
  `OneStrayByteLoses`);
- offsets seeded from file sizes start in step exactly when each file was empty,
  or ended with its header or a whole record (`SeededInStepIff`;
  `MidRecordStartMisses`);
- a peer collect that fails half-way loses records exactly when a visit before
  the error found a whole unread one (`FailedCollectLosesIff`;
  `FailedCollectLoses`);
- `HnswGraph::remove` is documented as taking the node off its neighbours' lists,
  but leaves every edge that was not mutual (`RemoveLeavesOneWayEdges`, an
  equivalence as well; `DanglingEdge`). A graph whose edges all lead to other
  present nodes, each listed once, stays so under every insert of a new id, under
  wiring exactly when the planned neighbours are present, and under removal
  exactly when the edges to the node are mutual (`InsertedIsClean`,
  `WiringKeepsCleanIff`, `RemoveKeepsCleanIff`). After the other runs an id that
  comes back may find itself (`SelfEdge`);
- a commit with a smaller seqno than the other slot records is shadowed by the
  older family (`SaveLoadsBackIff`; `StaleCommitIsShadowed`);
- a negative delta breaks the capped sum unless it lowers a live edge whose sum
  has not passed one (`CappedOneMoreIff`, `CappedThroughoutIff`; `CapForgets`).

`dafny verify dfyconfig.toml` checks the whole project.

## Model

| member | source | states |
|---|---|---|
| `Ranking.TopKUnique` | src/hnsw.rs:3228-3242 | Two ranked lists that are both the top k of the same scores (score descending, id ascending) are equal. |
| `Ranking.PushKeepsTopK` | src/hnsw.rs:3249-3282 | Offering one more scored id to the bounded heap keeps it the exact top k of everything offered. |
| `Ranking.TopKByScore` | src/hnsw.rs:3228-3242 | The top k stands by falling score, equal scores by rising id; what is missing scores less than each of k hits, or as much under a larger id. |
| `Vectors.DotOneMore` | src/hnsw.rs:3197-3199 | The inner product grows by the product of the two coordinates appended. |
| `Vectors.DotOfCommonLength` | src/hnsw.rs:3197-3199 | It is symmetric, and what one vector has beyond the other does not count. |
| `TurboProtocol.StepKeepsInv` | src/hnsw.rs:1321-1413 | Every protocol step keeps the invariant: each published or publishable snapshot disagrees with the live vectors only on ids stamped after its watermark. |
| `TurboProtocol.PruneKeepsInv` | src/hnsw.rs:1365-1370 | Pruning below the published watermark drops no stamp that a viable plan or the published index still needs. |
| `TurboProtocol.PlanCacheKeepsInvIff` | src/hnsw.rs:2202-2212 | At any time, a startup cache plan keeps the invariant if and only if the published index is newer than its watermark, or every row the cache has wrong is recorded as changed. |
| `TurboProtocol.CacheBeforePruneIsSafe` | src/hnsw.rs:2202-2212 | Before any prune, as at startup, that condition holds. |
| `TurboProtocol.StaleRowsAreStamped` | src/hnsw.rs:1445-1448 | In every interleaving, an id whose live vector differs from the published snapshot is in the change map with a mutation above the snapshot's. |
| `TurboProtocol.ContentsFollowHistory` | src/hnsw.rs:1445-1634 | After any legal run an id is live exactly when the last step that settles it wrote it, with the vector written then. |
| `TurboProtocol.RemovedStaysAway` | src/hnsw.rs:1620-1634 | A removed id is not live until it is written again. |
| `TurboProtocol.CacheWatermarkIsLargest` | src/hnsw.rs:2202-2212 | The watermark a startup cache claims is the largest for which every recorded change is still fresh. |
| `TurboProtocol.OldPlansNeverPublish` | src/hnsw.rs:3474-3481 | A plan handed out before an invalidation changes nothing when it arrives, whatever happened in between. |
| `TurboProtocol.WatermarkNeverFalls` | src/hnsw.rs:3437-3442 | Within an epoch the published watermark never falls. |
| `TurboProtocol.CacheAfterPruneIsStale` | src/hnsw.rs:2202-2212 | A run in which a cache plan taken after a prune publishes a row that nothing rescores. |
| `SemanticIndexModel.KeepUnmoved` | src/hnsw.rs:1755-1789 | The walk over the index's answer keeps exactly the unmoved rows of a prefix, stopping only at the end or once k are kept. |
| `SemanticIndexModel.OverFetchSuffices` | src/hnsw.rs:1755-1789 | With k + changed rows fetched, an unmoved row is kept or outranked by k kept rows. |
| `SemanticIndexModel.MergeIsExact` | src/hnsw.rs:1755-1789 | Kept rows plus the rescored overlay, sorted and cut at k, are the exact top k of the live vectors. |
| `SemanticIndexModel.RemovedIsNotFound` | src/hnsw.rs:1620-1634 | After any run neither arm of search returns a memory that was removed and not written since. |
| `SemanticIndexModel.WrittenIsRanked` | src/hnsw.rs:1797-1825 | A memory whose last step wrote a full-dimension vector is among the hits, with that vector's score, or beaten by k of them. |
| `SemanticIndexModel.SemanticIndex.Upsert` | src/hnsw.rs:1445-1480 | Bumps the counter, stamps the id, stores the vector; the protocol invariant is kept. |
| `SemanticIndexModel.SemanticIndex.Remove` | src/hnsw.rs:1620-1634 | The state becomes that of the protocol's remove step, whose effect on what is stored `ContentsFollowHistory` states; the invariant is kept. |
| `SemanticIndexModel.SemanticIndex.PlanTurboRebuild` | src/hnsw.rs:1388-1413 | The plan copies exactly the live indexable vectors with the current mutation and epoch. |
| `SemanticIndexModel.SemanticIndex.Publish` | src/hnsw.rs:3474-3481 | The slot changes exactly if the epoch is current and no newer index is published. |
| `SemanticIndexModel.SemanticIndex.PlanStartupTurboCache` | src/hnsw.rs:2202-2212 | The plan claims the watermark one below the oldest recorded change; it keeps the invariant exactly when safe, and always before any prune. |
| `SemanticIndexModel.SemanticIndex.InvalidateTurbo` | src/hnsw.rs:1321-1325 | The slot is empty and the epoch has moved on; the invariant is kept. |
| `SemanticIndexModel.SemanticIndex.PruneTurboChanges` | src/hnsw.rs:1365-1370 | The change map loses exactly the stamps at or below the published watermark; the invariant is kept. |
| `SemanticIndexModel.SemanticIndex.SearchTurbo` | src/hnsw.rs:1755-1789 | Through any reachable stale index the result is the exact top k of the live vectors. |
| `SemanticIndexModel.SemanticIndex.FlatScan` | src/hnsw.rs:1797-1825 | The scalar scan returns the exact top k of the live full-dimension vectors. |
| `SemanticIndexModel.TurboMatchesBruteForceIff` | src/hnsw.rs:1755-1789 | The patched index answers every k like brute force over the indexable vectors exactly when no moved live vector is zero or of wrong dimension. |
| `SemanticIndexModel.ArmsAgreeIff` | src/hnsw.rs:1755-1825 | The Turbo arm and the scalar arm answer alike for every k exactly when no live vector belongs to only one of them. |
| `SemanticIndexModel.UnindexableIsOverlayOnly` | src/hnsw.rs:1755-1789 | Whatever index is published in a reachable state, writing a zero vector or one of wrong dimension leaves a memory that the overlay alone ranks. |
| `SemanticIndexModel.PendingEmbeddingIsOverlayOnly` | src/hnsw.rs:1755-1789 | Such a run: a build is published, then a memory is written without its embedding. |
| `HdcVectors.SatCountIsCappedCount` | src/hdc.rs:163-175 | The saturating counter of a lane is the true count cut off at 65535. |
| `HdcVectors.VoteIsMajorityIff` | src/hdc.rs:78-103 | The thresholded counters are the strict majority exactly when there are fewer than 131070 vectors, or no lane has a majority to lose. |
| `HdcVectors.UnanimousVoteIsLost` | src/hdc.rs:78-103 | From 131070 copies of the all-ones vector on, the bundle is blank. |
| `HdcVectors.Bundle` | src/hdc.rs:78-103 | The scalar bundle is the vote of its vectors, lane by lane. |
| `BitSliced.RippleAdds` | src/hdc.rs:577-595 | Rippling a word of carries up a column adds one to every lane the word names, carry out included. |
| `BitSliced.RippleStopsEarly` | src/hdc.rs:577-595 | Stopping when the carries run out gives the full ripple. |
| `BitSliced.AddColumnSaturates` | src/hdc.rs:577-595 | Setting carried-out lanes to all ones is saturating addition. |
| `BitSliced.NoOverflowBelowSixteen` | src/hdc.rs:577-595 | With fewer than sixteen planes no lane ever carries out of the top. |
| `BitSliced.CompareColumn` | src/hdc.rs:597-615 | The bit-parallel comparator sets exactly the lanes whose counter meets the threshold. |
| `BitSliced.EpBundle.Add` | src/hdc.rs:577-595 | After adding, the planes hold the saturating count of all vectors added, in every lane. |
| `BitSliced.EpBundle.ToHv` | src/hdc.rs:597-615 | The result is the vote that the scalar counters would give. |
| `BitSliced.EpBundleRefinesBundle` | src/hdc.rs:576-615 | For every list of vectors the bit-plane bundle and the scalar bundle give the same vector, past saturation too. |
| `HdcStoreModel.InsertKeepsCountsIff` | src/hdc.rs:279-291 | From any state that satisfies the invariant, an insert keeps every realm's counters exact precisely when its id is new, or is not in that realm and already has that vector, and no counter it raises, member count included, is at its limit. |
| `HdcStoreModel.InsertKeepsInvIff` | src/hdc.rs:279-291 | It keeps the whole invariant, with each id in one realm, precisely when its id is new and no counter it raises is at its limit. |
| `HdcStoreModel.ReinsertDrifts` | src/hdc.rs:279-291 | Inserting a memory twice into a realm counts it twice. |
| `HdcStoreModel.SaturatedInsertDrifts` | src/hdc.rs:279-291 | After 65535 members that set a lane, a new one that sets it goes uncounted there. |
| `HdcStoreModel.RemoveKeepsCountsIff` | src/hdc.rs:294-304 | A remove keeps every realm's counters those of its members precisely when it names the realm of insertion or an unknown id. |
| `HdcStoreModel.RemoveKeepsInvIff` | src/hdc.rs:294-304 | The same condition keeps the whole invariant. |
| `HdcStoreModel.RealmVectorIsFromScratch` | src/hdc.rs:279-350 | After any run the realm's vector is the vote of its current members, listed in any order. |
| `HdcStoreModel.MembersFollowHistory` | src/hdc.rs:279-304 | After any allowed run an id is in a realm exactly when its last step inserted it there, with the vector of that step. |
| `HdcStoreModel.HdcStore.RealmHv` | src/hdc.rs:348-350 | What is returned is the realm's counters thresholded at its member count. |
| `WalRecords.ReadWhole` | src/log.rs:330-342 | An encoded record reads back as itself, whatever follows it. |
| `WalRecords.ReadPartial` | src/log.rs:1040-1100 | A proper prefix of a record reads as end of file below four bytes and as torn otherwise. |
| `WalCorrupt.ScanReencodes` | src/log.rs:1030-1160 | Whatever the bytes, the records a scan delivers re-encode to the bytes it used. |
| `WalCorrupt.ReplayDeliversWhatIsThere` | src/log.rs:983-1193 | Replay of any file delivers only records that stand in it, cuts it at most where they end, and leaves it alone when it fails. |
| `WalCorrupt.DamagedRecordEndsReplay` | src/log.rs:1105-1118 | Good records, then one whose stored checksum is not that of its seqno, kind, previous hash and payload: with bytes behind it replay fails and changes nothing; as the last one it is cut off and the others are delivered. |
| `WalCorrupt.UndeliverableRecordFailsReplay` | src/log.rs:1149-1165 | An intact record that does not decode, or to an op of another kind, fails the replay. |
| `WalCorrupt.DamagedRecordStopsTail` | src/log.rs:905-948 | From any boundary, following stops in front of a damaged record. |
| `WalCorrupt.IntactRecordStopsTailIff` | src/log.rs:905-948 | In front of an intact record it stops exactly if the payload does not decode; the kind is not compared. |
| `WalReplay.ReplayAfterCut` | src/log.rs:983-1193 | For every byte cut of a segment, replay succeeds, delivers exactly the records wholly before the cut, and truncates a stray tail of four or more bytes. |
| `WalReplay.ReplayTwice` | src/log.rs:955-967 | Replaying again after the repair delivers the same records and changes nothing. |
| `WalReplay.CompleteSegmentCertified` | src/log.rs:1178-1192 | Replaying a complete well-formed segment delivers all of it, and certifies it whenever its seqnos increase from the header's on. |
| `WalReplay.CertificateIsTrue` | src/log.rs:1178-1192 | Whatever the file, an issued certificate has the file's size and first seqno, and every delivered record lies in its range, the last one at its end. |
| `WalReplay.ReadRecords` | src/log.rs:1030-1160 | The reading loop finds what the specification finds, and carries the hash chain along. |
| `WalReplay.ReplaySegment` | src/log.rs:983-1193 | Replay with in-place truncation does to the file exactly what the specification says, for which `WalCorrupt` states what arbitrary and damaged bytes give. |
| `WalTail.TailStep` | src/log.rs:839-948 | One tailing call on any prefix delivers the next run of whole records and returns zero or a boundary. |
| `WalTail.TailDeliversOnceInOrder` | src/log.rs:839-948 | Any run of calls on any prefixes delivers consecutive records, each once and in order. |
| `WalTail.TailReachesTheEnd` | src/log.rs:839-948 | Once a call has seen the finished file, every record has been delivered. |
| `WalTail.ReplayFromOffset` | src/log.rs:839-948 | The reading method computes the tailing specification. |
| `OpLogModel.WriteLandsOnce` | src/log.rs:402-427 | Whether or not the first attempt failed part-way, the file ends up as what was accepted plus the record, once. |
| `OpLogModel.RotateKeepsInv` | src/log.rs:647-661 | Rotation keeps the invariant: a full segment is left only once synced, and its successor has a new name. |
| `OpLogModel.FullSegmentIsLeft` | src/log.rs:647-661 | An append below the size limit goes behind the accepted bytes; at the limit the file is closed as it is, and the next one, named by the next seqno, holds a bare header and the record. |
| `OpLogModel.SegmentsEndAtLimit` | src/log.rs:647-661 | After any run every closed segment has reached the limit, and no record was written to a segment that had. |
| `OpLogModel.HeadDeterminesRecords` | src/log.rs:23-32 | With a hash that has no collisions, two linked logs with the same chain head hold the same records. |
| `OpLogModel.LogIsLinked` | src/log.rs:301-366 | Every run keeps the log linked up to its chain head. |
| `OpLogModel.StepKeepsInv` | src/log.rs:301-427 | Every append, sync and disappearance keeps the log's invariant. |
| `OpLogModel.FileHoldsEveryAck` | src/log.rs:369-427 | After every append and sync the active file is the header plus every record accepted into it. |
| `OpLogModel.ReplayYieldsAcknowledgedIff` | src/log.rs:552-586 | After any run of appends, rotations, disappearances and faults, replay of the listed files yields exactly the acknowledged (seqno, op) list if and only if every segment holding records is listed; then the chain head is the writer's, too. |
| `OpLogModel.SmallSeqnosAreListed` | src/log.rs:663-797 | That holds as long as the writer's seqnos stay within twelve digits. |
| `OpLogModel.LongNameIsLost` | src/log.rs:663-797 | A writer that starts at a thirteen-digit seqno: its op is acknowledged and replay finds nothing. |
| `WalReopen.ReopenedLogReplaysIff` | src/log.rs:215-293 | After a crash at any byte of a segment, replay, and appends behind what replay left, the next replay yields the surviving records and the new ones if and only if the repaired file ended with its header or a whole record. |
| `WalReopen.OneStrayByteLoses` | src/log.rs:215-293 | Power fails one byte into the first record; replay leaves the byte, and what is appended behind it is misread. |
| `OpLogModel.OpLog.Append` | src/log.rs:301-366 | The returned seqno is the next one, the op is acknowledged under it, and the invariant is kept. |
| `OpLogModel.OpLog.RotateIfNeeded` | src/log.rs:647-661 | Below the limit nothing changes; at it the active file is a bare header under the next seqno and the old file is the last closed one. |
| `MergeReplay.ClockIsLatest` | src/ops.rs:951-1029 | The carried clock is the largest timestamp that an op or a batch among a writer's records has shown so far, and zero before the first. |
| `MergeReplay.SortedBufferIsMerge` | src/log.rs:523-611 | Sorting the stamped buffer gives a permutation of all walked records that keeps each writer's order. |
| `MergeReplay.SortedIsByTime` | src/log.rs:603 | Merge order is by timestamp, equal ones by writer, and a writer's own by seqno. |
| `MergeReplay.MergeHoldsExactly` | src/log.rs:523-611 | The stream holds exactly the records of unskipped writers from segments that carry no vector space or the store's own. |
| `MergeReplay.MaxCertifiedIsLargest` | src/log.rs:540-546 | The seqno noted for a skipped writer is the largest of its certificates. |
| `MergeReplay.MergeDependsOnWritersOnly` | src/log.rs:523-611 | Walks that give each writer the same records merge to the same stream. |
| `MergeReplay.SplitsDoNotMatter` | src/log.rs:523-611 | How records are cut into segments does not change the merged stream. |
| `MergeReplay.CertifiedReplayErases` | src/log.rs:489-533 | Certified replay is the full merged stream with exactly the skipped writers' entries erased. |
| `MergeReplay.IssuedCertificatesAreTruthful` | src/wal_certificate.rs:87-112 | A certificate issued by an earlier replay of an append-only file spans all its records as long as the size still fits. |
| `MergeReplay.ErasedRecordsAreCovered` | src/wal_certificate.rs:87-112 | With truthful certificates every erased record is included in both snapshots. |
| `MergeReplay.SkippingKeepsChains` | src/log.rs:552-577 | Skipping whole writers changes no chain head against which another segment is checked. |
| `MergeReplay.CertifiedWriters` | src/log.rs:489-521 | A writer is skipped exactly if the family is of the store's vector space and all of the writer's segments are covered: certificate for the name, first seqno, size and both vectors. |
| `MergeReplay.ReplayCertified` | src/log.rs:478-612 | Behind the lineage fence, the output is the merge of the unskipped records, by timestamp, writer and seqno; coverage lists exactly the writers met, an unskipped one at its largest seqno and a skipped one at its largest certified seqno. |
| `ForeignSync.CollectKeepsInv` | src/field.rs:1049-1084 | A successful collect extends each segment's run of records without gap, repeat or reordering. |
| `ForeignSync.RunDeliversExactlyOnce` | src/field.rs:1049-1104 | In every interleaving, applied then pending records are exactly those between starting and seen offsets. |
| `ForeignSync.FailedCollectLosesIff` | src/field.rs:1049-1084 | A failed collect stays in step exactly when every visit before the error ended before the first unread record did. |
| `ForeignSync.FailedCollectLoses` | src/field.rs:1049-1084 | One visit that delivers records, then a read error: the offset has moved to the end and nothing is pending. |
| `ForeignSync.SeededInStepIff` | src/field.rs:1297-1331 | Offsets taken from file sizes start in step, with the records then whole counted as replayed, if and only if each size is zero, the header's end or a record's end. |
| `ForeignSync.MidRecordStartMisses` | src/field.rs:1297-1331 | From an offset beyond a record boundary, tailing the finished file never delivers the records from that boundary on. |
| `ForeignSync.CoverageClaimsOnlyApplied` | src/field.rs:1189-1214 | If peers finish a segment before they rotate, a record whose seqno the coverage vector claims has been applied, or lay before the starting offset. |
| `ForeignSync.CoverageIsLatestApplied` | src/field.rs:1049-1214 | In every run, whatever the visits find, the coverage vector says for each writer exactly the largest seqno applied from it, or what it said at first; pending coverage likewise. |
| `ForeignSync.FollowerKeepsUp` | src/field.rs:1049-1214 | The same for a follower from its start, writer by writer. |
| `ForeignSync.PeerSync.Collect` | src/field.rs:1049-1084 | The fields become those of the collect step that the theorems over runs are about; the result tells whether every visit succeeded. |
| `ForeignSync.PeerSync.Apply` | src/field.rs:1189-1214 | Everything pending is applied in order and counted, and only then is the coverage joined. |
| `ManifestModel.JoinIsMax` | src/manifest.rs:129-153 | Loading takes the larger generation and, writer by writer, the whole family with the larger seqno; the newer slot gives the rest. |
| `ManifestModel.LoadedIffReadable` | src/manifest.rs:129-153 | Something is loaded exactly if a slot holds a whole manifest of this format, and only such a one is. |
| `ManifestModel.CommitBringsFamily` | src/store/maintenance.rs:1425-1428 | After a completed commit, and any crash, load returns the family committed, under its writer and as the checkpoint, and every other writer's unchanged. |
| `ManifestModel.Load` | src/manifest.rs:129-153 | The merging loop computes the join of both slots. |
| `ManifestModel.StepKeepsInv` | src/manifest.rs:157-191 | Every save, interrupted or not, and every crash keeps the disk's invariant. |
| `ManifestModel.CommitsSurvive` | src/manifest.rs:129-191 | At any point of any run, and after one more crash, load returns at least the last completed commit's generation and every writer's seqno. |
| `ManifestModel.SaveLoadsBack` | src/manifest.rs:157-181 | A completed save is loaded back exactly, before and after any crash. |
| `ManifestModel.SaveLoadsBackIff` | src/manifest.rs:129-153 | Whatever its seqno, a commit is loaded back exactly when the other slot has no larger seqno of that writer. |
| `ManifestModel.StaleCommitIsShadowed` | src/manifest.rs:129-153 | After commits of seqno 5 and then 3 by one writer, load answers 5. |
| `ManifestModel.InactiveSlotSuffices` | src/manifest.rs:183-191 | The slot a save does not touch alone holds the loaded generation and every seqno. |
| `ManifestModel.DataDir.Save` | src/manifest.rs:157-181 | The file steps are performed in order; success means all of them were. |
| `ManifestModel.DataDir.Commit` | src/store/maintenance.rs:1378-1433 | Load, next generation, own family replaced, save: the run's step, and the committed manifest is what load then returns. |
| `GraphTraverse.Traverse` | src/graph.rs:42-119 | Every hit has its true shortest hop count, a live path of that length and the product of its weights, in hop order, each node once; if neither budget binds, every node in range is reported. |
| `GraphTraverse.LevelIsComplete` | src/graph.rs:42-119 | When the queue's front moves to the next level, everything within that level has been met. |
| `GraphTraverse.LeadsIff` | src/graph.rs:77-115 | A path leads to a node exactly if its triplets are unexpired, not superseded, of an allowed label, indexed at the node before, and join up. |
| `GraphTraverse.WeightOneMore` | src/graph.rs:77-115 | Each triplet multiplies its weight in, backwards the reverse weight where one is recorded. |
| `GraphTraverse.Inspect` | src/graph.rs:70-119 | Inspecting a node's entries keeps the search invariant and stops early only when the edge budget is used up. |
| `BeamSearch.SearchLayer` | src/hnsw.rs:324-372 | The search ends on every graph. It visits exactly the entries and the neighbours of the nodes it expands, expands every node it returns, and returns the ef best visited; what it leaves unexpanded, and every scored neighbour not returned, is beaten by all of them; fewer than ef means everything reachable. The result is a function of the layer's lists. |
| `BeamSearch.PushTrimKeepsBest` | src/hnsw.rs:3078-3120 | Pushing and trimming keeps the result heap the ef best nodes scored so far. |
| `BeamSearch.StoppedIsBeam` | src/hnsw.rs:3078-3120 | Stopping at a candidate worse than the worst result already gives the full guarantee. |
| `HnswGraphModel.SelectedAreNearest` | src/hnsw.rs:375-389 | Every candidate passed over ranks behind every neighbour selected, and these stand nearest first; repeated candidates are allowed. |
| `HnswGraphModel.LinkAllCuts` | src/hnsw.rs:225-251 | Offering a node around, a list gives an edge up only for what is nearer to the list's own node, and whoever does not keep the offer has nearer ones only. |
| `HnswGraphModel.ConnectLayer` | src/hnsw.rs:216-251 | The node's own list is exactly what is selected among the candidates, and names the node itself exactly if the selection does; only this layer changes, others gain only the node, lists stay within their bound, each neighbour points back or is full, and edges are given up only by full lists. |
| `HnswGraphModel.HnswGraph.Insert` | src/hnsw.rs:189-262 | The graph becomes exactly the one defined by the plan on the old graph. The node's own list at each layer is that plan's, and it lists itself exactly where the plan names it, which takes a node that already pointed to the id; with none its lists are those `ComputeInsertPlan` returns. Each neighbour points back or is full of nearer nodes; no other edge appears, and a list gives an edge up only when full, to a node nearer to the list's own. |
| `HnswGraphModel.UnnamedIsNotPlanned` | src/hnsw.rs:216-251 | An id that no list names is not planned as its own neighbour. |
| `HnswGraphModel.HnswGraph.Remove` | src/hnsw.rs:267-287 | The node goes, the nodes it points to forget it, nothing else changes, and the entry point is again a node of the highest level. |
| `HnswGraphModel.RemoveLeavesOneWayEdges` | src/hnsw.rs:267-280 | After a removal an edge to the node remains exactly where it had not been mutual. |
| `HnswClean.RemoveKeepsCleanIff` | src/hnsw.rs:267-280 | On a graph whose edges lead to other present nodes, each listed once, a removal keeps that true if and only if every edge to the node is mutual. |
| `HnswClean.WiringKeepsCleanIff` | src/hnsw.rs:447-471 | Wiring a plan into such a graph keeps that true if and only if every planned neighbour is still present. |
| `HnswClean.InsertedIsClean` | src/hnsw.rs:189-262 | Inserting a new id into such a graph always does. |
| `HnswClean.DanglingEdge` | src/hnsw.rs:267-280 | A run with computed plans: node 1 is planned while 0 is there and wired when it is gone; 0 comes back by its own plan and is removed, and 1 still points to it. |
| `HnswClean.SelfEdge` | src/hnsw.rs:189-262 | Inserted once more after that run, 0 is found through the stale edge and listed as its own neighbour. |
| `HnswGraphModel.RemoveKeepsOtherEdges` | src/hnsw.rs:267-280 | A removal keeps every other edge of every other node. |
| `HnswGraphModel.HnswGraph.ComputeInsertPlan` | src/hnsw.rs:413-438 | At each shared layer the plan is the nearest of the beam found there, on one search path from the entry point down; above it is empty. |
| `HnswGraphModel.WiringKeeps` | src/hnsw.rs:447-471 | A plan, however stale, drops no node or edge; lists stay within three times the cap, the node has its planned edges, and its neighbours point back or are full. |
| `HnswGraphModel.WiringIsExact` | src/hnsw.rs:447-471 | List by list: who is planned at a layer gains the node at the end if there is room, no other list of another node changes, and the node's own lists are the plan's. |
| `HnswGraphModel.HnswGraph.WirePrecomputed` | src/hnsw.rs:447-471 | The graph becomes exactly the wired one, and stays valid. |
| `HnswGraphModel.BatchKeeps` | src/hnsw.rs:1598-1617 | A batch drops no node or edge, and adds exactly the planned nodes that are neither deleted nor present. |
| `HnswGraphModel.BatchWires` | src/hnsw.rs:1598-1617 | Every plan not left out ends with its planned edges, and with back edges from each neighbour present when it was wired, unless full. |
| `HnswGraphModel.HnswGraph.ApplyDeltaBatch` | src/hnsw.rs:1598-1617 | The loop wires exactly those plans, in order, and the graph stays valid. |
| `DerivedIndexModel.ProbesAreNearest` | src/hnsw.rs:2874-2892 | A vector is assigned to distinct centroids, the nearest ones in order. |
| `DerivedIndexModel.SameBucketIff` | src/hnsw.rs:3306-3314 | Two vectors share a bucket exactly if no plane of the table separates them. |
| `DerivedIndexModel.SameCodeIff` | src/hnsw.rs:3205-3220 | Two vectors have the same sign code exactly if the centre separates them in no coordinate. |
| `DerivedIndexModel.SwapRemove` | src/hnsw.rs:1634-1646 | Swap-removal keeps the position map a bijection onto the dense array, which carries the codes. |
| `DerivedIndexModel.PostAll` | src/hnsw.rs:1451-1458 | Posting a vector's keys keeps the lists the exact duplicate-free inverse. |
| `DerivedIndexModel.WithdrawAll` | src/hnsw.rs:1648-1660 | Withdrawing them does too, and leaves no empty list. |
| `DerivedIndexModel.PostTables` | src/hnsw.rs:1459-1466 | Every LSH table stays the exact inverse of the signatures. |
| `DerivedIndexModel.WithdrawTables` | src/hnsw.rs:1661-1673 | The same for withdrawal. |
| `DerivedIndexModel.Rebinarize` | src/hnsw.rs:1234-1253 | Laying the rows out afresh gives one row per code, with the right positions. |
| `DerivedIndexModel.CountOneLess` | src/hnsw.rs:1623-1628 | The saturating subtraction never saturates, and the counts stay exact. |
| `DerivedIndexModel.ContentsDetermineIndexes` | src/hnsw.rs:1445-1496 | Equal embeddings and realms mean equal codes, rows, postings and counts, up to list order, whatever the history. |
| `DerivedIndexModel.DerivedIndexes.Upsert` | src/hnsw.rs:1445-1496 | The vector and realm are stored, and every index is again what the contents determine. |
| `DerivedIndexModel.DerivedIndexes.Remove` | src/hnsw.rs:1620-1676 | The vector and realm are gone, and every index is again what the contents determine. |
| `DerivedIndexModel.DerivedIndexes.RefreshCentroid` | src/hnsw.rs:1266-1304 | Keeping or adopting a mean leaves every code agreeing with the current mean. |
| `AssocEdgesModel.WeightIsCappedSum` | src/field.rs:1948-1989 | For every history whose events keep the cap, an edge exists exactly if strengthened since either end was deleted, with weight min(1, sum of deltas since then). |
| `AssocEdgesModel.NonNegativeWeightIsCappedSum` | src/field.rs:1948-1989 | For every history without negative deltas that is so, and weights lie between zero and one. |
| `AssocEdgesModel.EdgesAreLive` | src/field.rs:1948-1989 | Whatever the deltas, an edge exists exactly if it was strengthened since either end was deleted. |
| `AssocEdgesModel.CappedOneMoreIff` | src/field.rs:1948-1989 | After one more event, a self-edge included, all weights are still capped sums if and only if its delta is not negative or it lowers a live edge whose sum has not passed one. |
| `AssocEdgesModel.CappedThroughoutIff` | src/field.rs:1948-1989 | Weights are capped sums all along a history if and only if every event meets that condition when it comes. |
| `AssocEdgesModel.CapForgets` | src/field.rs:1948-1989 | One, one and minus one leave weight zero, where the capped sum is one. |
| `AssocEdgesModel.WeightsAreSymmetric` | src/field.rs:1948-1989 | Both directions exist together, with equal weight. |
| `AssocEdgesModel.DeletedIsUntouched` | src/field.rs:1691-1697 | No edge touches a memory that was deleted and not strengthened since. |
| `AssocEdgesModel.OrderDoesNotMatter` | src/field.rs:1915-1917 | Permuting the strengthenings between deletions gives the same weights. |
| `AssocEdgesModel.BumpList` | src/field.rs:1956-1970 | The list holds each edge once, with the bumped table's weights. |
| `AssocEdgesModel.AssocEdges.StrengthenEdge` | src/field.rs:1948-1989 | The map of lists again represents what its history says. |
| `AssocEdgesModel.AssocEdges.DeleteMemory` | src/field.rs:1691-1697 | The same after a deletion. |
| `AssocEdgesModel.AssocEdges.EdgesFollowHistory` | src/field.rs:1948-1989 | What a list holds, in the history's terms: each edge at most once, exactly the live ones, with the capped sum as weight. |

## Left out

- Filtered Turbo search: its fixed over-fetch is approximate by design.
- Floating-point rounding, 4-bit and i8 quantisation, random projections and vector normalisation.
- CRC-32, SHA-256, MessagePack, bincode and JSON: parameters or whole values. Operations are three classes of payload (own timestamp, none, batch of states), which is all that merge replay looks at.
- WAL recovery whose own rename or retry fails, suppressed appends, and the writers of version 1 and 2 headers.
- WalReopen.ReopenedLogReplaysIff: the first new seqno is positive and below 256^5, which covers every name that is listed. Only the branch that appends to the last segment is modelled, not the one that starts a new segment.
- Certificates made by scanning a sealed segment; only those issued by replay are shown truthful.
- Archiving of foreign-lineage segments, WAL pruning, and the rest of the segment listing (only the length of the seqno in a name is modelled).
- Manifest savers running at the same time from the same generation: both write the same slot.
- The rest of a manifest's scalar fields, and validating a family's files.
- GraphTraverse.Traverse: a hop limit above 255 is not modelled; hop counts are bytes there.
- HnswGraphModel.HnswGraph.Insert: the level is a parameter (the generator that draws it is left out), and inserting an id already in the graph is not modelled.
- BeamSearch.SearchLayer: entry points are distinct, as all callers pass them; heap internals are left out, the heaps are a set and a ranked list.
- The multi-layer HNSW `search`, its thresholds, tiers and per-realm routing, and the thread pool of the bulk backfill.
- DerivedIndexModel.DerivedIndexes.Upsert: pending (empty) embeddings and wrong-dimension vectors are not modelled; the arrays are deliberately out of step for those. When a mean is adopted is a parameter.
- HdcStoreModel.HdcStore.Insert: the text encoder and the codebook are left out; an insert is given its vector.
- Co-activation statistics, the other operations of `apply_op`, PageRank, contradiction and analogy scoring, anchors, profiles, the C interface and the scripts: easy or unrelated members.
- Instance locks and process liveness: operating-system behaviour.
