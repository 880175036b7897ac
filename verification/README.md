# Reperio: verified models

Reperio scans storage media: it reads damaged devices, recovers files, groups duplicates,
schedules stages and jobs, and records what it did. This project models the parts of it that
carry invariants, one module for a component, and proves them with Dafny 4.11:
`dafny verify dfyconfig.toml` checks everything.

- **Duplicate groups** (`DisjointSets`, `Clusters`, `ClusterDiameter`, `Hamming`, `FrameMatching`,
  `DuplicateGroups`): the union-find of the source, with path halving, finds exactly the connected
  components; greedy keyframe matching is maximal and within a factor of two; distances inside an
  image group are bounded.
- **Block devices** (`Reachability`, `DeviceAncestry`, `StorageInspection`): the recursive ancestry
  and the worklist closure are strict reachability in opposite directions of one holder graph,
  cycles included.
- **Jobs** (`JobState`, `JobTable`): every SQL UPDATE is one step, every separate read another; leases
  exclude other workers over all interleavings, and a finish that read an old row can revive a
  completed job.
- **FAT** (`Fat12Table`, `Fat12Chains`, `Fat12Space`, `Fat12LongNames`, `FatEntries`,
  `PartitionDiscovery`): round trips of packing and of long names, chain walks, carve ranges, extents.
- **Audit log and checkpoints** (`SafetyAudit`, `Bytes`, `CanonicalJson`, `Checkpoints`,
  `CheckpointExamples`): hash chains over appends and
  rotations; superseding saves form one chain per job and stage; a load accepts only what was
  saved, and not all of that.
- **Reading and storing** (`ReadErrors`, `ChunkPlan`, `ChunkStream`, `ScratchStore`,
  `ContentExtraction`): what is stored is the source's bytes, or zeros exactly where a chunk is sparse
  or a gap is recorded, and every attempt, gap and reference is accounted for.
- **Scheduling, review, paging, naming** (`StageGraph`, `Scheduler`, `SchedulerRuns`, `AiBudget`,
  `Review`, `ReviewInterleaving`, `Keyset`, `FindingPages`, `EventOutbox`, `ExportManifest`): scans never
  get stuck, greedy batching is optimal, undo restores (and exactly when it does if actions interleave),
  cursor walks return things exactly once, no two export paths have one key.

What the model takes as parameters: SHA-256, UTF-8 and JSON are functions, injective where a theorem
says so, and JSON text is what its reader makes of it where a theorem says that; devices, clocks, free
disk space and generated ids are arguments; a device is any function from the number of a read, its
offset and its length to what the read did. SQL tables are maps, a NULL is `None`, and a comparison with
NULL is not true. Names that are only compared and sorted (finding ids, device identities, stage names,
checkpoint ids, job ids) are their ranks in that order.

Where the code and what one would expect of it part ways, the model follows the code and says exactly
when: `JobState.MovesAreAllowed`, `JobState.TerminalIsLeftIff`,
`Fat12Chains.OutOfRangeLinkPassesAsIntact`, `Fat12LongNames.BuiltNameSurvivesIff`,
`FatEntries.LargeChainIsWholeIff`, `FatEntries.ExFatChainIsWholeIff`, `Checkpoints.SaveThenLoad`,
`Checkpoints.SaveThenLoadMedium`, `CanonicalJson.RedumpIff`, `SchedulerRuns.ScanIsRestartableIff`,
`DuplicateGroups.ReportedIsCanonicalIff`, `ExportManifest.PlannedPathIsSafeIff`,
`ExportManifest.PlannedPathIsBelowIff`, `Review.OutOfOrderIff`, `ReviewInterleaving.UndoOneOfTwoIff`,
`ReviewInterleaving.UndoOfPartIff`, `EventOutbox.NumberIsReusedIff`. Where the condition does not show a
failing input by itself, a further member is one.

## Model

| member | source | states |
|---|---|---|
| `DisjointSets.HalvingKeepsRoots` | worker/duplicate_groups.py:226-230 | path halving leaves the root of every id as it was |
| `DisjointSets.DisjointSets.Find` | worker/duplicate_groups.py:226-230 | returns the root of the id; the forest it leaves has the same roots; it ends because parents are never larger |
| `DisjointSets.JoinFoundRoots` | worker/duplicate_groups.py:232-236 | hanging the larger root under the smaller one merges exactly the two trees the roots were found for |
| `DisjointSets.DisjointSets.Union` | worker/duplicate_groups.py:232-236 | joins exactly two trees, below the smaller root |
| `Clusters.JoinNearPairs` | worker/duplicate_groups.py:238-241 | after the double loop, trees are sound and complete for the near pairs of all positions i < j |
| `Clusters.RootsAreComponents` | worker/duplicate_groups.py:226-241 | two items have the same root if and only if a walk of near pairs joins them |
| `Clusters.GroupByRoot` | worker/duplicate_groups.py:243-245 | the dictionary holds, under each root in order of first appearance, the items of that tree in order |
| `Clusters.FindClusters` | worker/duplicate_groups.py:219-250 | the clusters are exactly the connected components of more than one item, in order |
| `Clusters.SharedClusterIffConnected` | worker/duplicate_groups.py:219-250 | two different items share a cluster if and only if near pairs connect them |
| `Clusters.ClustersAreDisjoint` | worker/duplicate_groups.py:219-250 | no item is in two clusters |
| `Clusters.MembersIncrease` | worker/duplicate_groups.py:246-250 | a cluster lists its members in increasing order of id |
| `Hamming.DistanceIsZeroIffEqual` | worker/duplicate_groups.py:350-351 | the Hamming distance of two hashes of any width is zero only for equal hashes |
| `Hamming.DistanceTriangle` | worker/duplicate_groups.py:350-351 | the Hamming distance satisfies the triangle inequality |
| `Hamming.DistanceCountsBits` | worker/duplicate_groups.py:350-351 | the Hamming distance is the number of positions whose bits differ |
| `FrameMatching.FindFree` | worker/duplicate_groups.py:328-333 | the inner loop stops at the first free close frame |
| `FrameMatching.MatchingFrames` | worker/duplicate_groups.py:325-336 | the nested loops count what the greedy choice of first free frames matches |
| `FrameMatching.GreedyIsMatching` | worker/duplicate_groups.py:325-336 | the greedy choice is one-to-one, close in every pair, and as large as the count says |
| `FrameMatching.GreedyIsMaximal` | worker/duplicate_groups.py:325-336 | no further close pair could be added to it |
| `FrameMatching.GreedyIsHalfOptimal` | worker/duplicate_groups.py:325-336 | no one-to-one matching within the threshold is more than twice as large |
| `ClusterDiameter.DiameterBound` | worker/duplicate_groups.py:219-250 | two members of a cluster of n items are at most threshold times (n - 1) apart, for any metric that bounds near pairs |
| `DuplicateGroups.CanonicalIsFirst` | worker/duplicate_groups.py:282-291 | the canonical item comes before every other member: a preview first, then the larger, then the least path, then the least id |
| `DuplicateGroups.ReportedIsFirst` | worker/duplicate_groups.py:270-279 | the reported item comes before every other member: a path first, then the larger, then the least path, then the least id |
| `DuplicateGroups.LeastPathIsLeast` | worker/duplicate_groups.py:270-291 | no path of the item comes before the one that ranks it |
| `DuplicateGroups.ImagesTakePart` | worker/duplicate_groups.py:122-131 | exactly the images and photos with a decoded hash take part, and exactly those with a malformed one are warned of |
| `DuplicateGroups.GapIsMetric` | worker/duplicate_groups.py:131-135 | the distance between looked-up hashes is a metric, and near pairs are within the threshold |
| `DuplicateGroups.ImageGroups` | worker/duplicate_groups.py:117-148 | image groups are the components of the near pairs; each records every member's distance to its canonical item, none above threshold times (size - 1), and the item it reports; malformed hashes are warned of |
| `DuplicateGroups.ReportedIsCanonicalIff` | worker/duplicate_groups.py:270-291 | the reported item is the one measured from if and only if that item has a path or none has, and no member like it in that respect outranks it |
| `DuplicateGroups.ReportedDistanceIsZeroIff` | worker/duplicate_groups.py:270-291 | the reported item has distance 0 on record if and only if its hash is that of the item measured from |
| `DuplicateGroups.ReportedMayDiffer` | worker/duplicate_groups.py:270-291 | two photos of which one is measured from and the other is reported |
| `DeviceAncestry.NormalizeHolders` | hostd/destination_separation.py:188-199 | turning the holder records round gives each child exactly its valid parents |
| `Reachability.ReachesUnfolds` | hostd/destination_separation.py:205-214 | what lies strictly beyond a vertex while avoiding a set: its successors, and what they reach without returning to it |
| `DeviceAncestry.Visit` | hostd/destination_separation.py:205-214 | the recursion with a path-local seen set returns exactly what is strictly above a device on walks that avoid that set, cycles included |
| `DeviceAncestry.ExpandAncestry` | hostd/destination_separation.py:202-216 | every device gets exactly the devices strictly above it in the holder graph |
| `DeviceAncestry.WithDescendants` | hostd/storage_inspection.py:258-270 | the worklist returns exactly the sources and everything downstream of them |
| `DeviceAncestry.DescendantsAreDualToAncestry` | hostd/storage_inspection.py:258-270 | a device is in the closure of the sources if and only if a source is the device or stands in its recursive ancestry |
| `DeviceAncestry.SharedPhysicalDevices` | hostd/destination_separation.py:86-97 | the devices shared by destination and source are the intersection of the two ancestries, each with its own device |
| `DeviceAncestry.DownstreamMountOverlaps` | hostd/destination_separation.py:86-97 | for a local destination mounted on anything downstream of the source, the overlap is not empty, so it is never judged separate |
| `DeviceAncestry.ExpandValidAncestry` | hostd/system_disks.py:143-158 | the system-disk variant, which skips invalid identities, reaches exactly what valid steps reach |
| `DeviceAncestry.MatchesSource` | hostd/system_disks.py:134-140 | a protected device matches if and only if a source is the device or is reached from it in the parent graph |
| `StorageInspection.VerdictIsAmbiguousIff` | hostd/storage_inspection.py:222-255 | a holder is ambiguous if and only if two of its records disagree, whatever their order |
| `StorageInspection.NormalizeRecords` | hostd/storage_inspection.py:222-255 | overwriting entries in place as conflicts appear ends in that order-independent verdict |
| `StorageInspection.EntrySaysWhatRecordsSay` | hostd/storage_inspection.py:241-253 | an entry repeats what all its records say, or names the holder ambiguous and unsupported exactly if two disagree |
| `StorageInspection.NormalizeLists` | hostd/storage_inspection.py:222-255 | a device has a list exactly if it has a valid holder, and the list states the verdict on each of them |
| `StorageInspection.NormalizedGraphHolds` | hostd/storage_inspection.py:222-270 | the graph that the walks follow has an edge exactly where a valid device lists a valid holder |
| `StorageInspection.NormalizedDescribes` | hostd/storage_inspection.py:222-270 | so this graph and the parent lists of the separation check are turned round of each other, as their duality needs |
| `StorageInspection.RelatedHolders` | hostd/storage_inspection.py:273-294 | lists exactly the edges whose parent is downstream of the sources, each once |
| `StorageInspection.ReadHolderGraph` | hostd/storage_inspection.py:88-116 | reads the holders of exactly what is downstream of the sources |
| `StorageInspection.ReadingKeepsDescendants` | hostd/storage_inspection.py:88-116 | inspecting only what was read finds the same downstream devices as the whole graph |
| `JobTable.JobTable.ClaimSelected` | shared/job_state.py:144-184 | a claim succeeds exactly with attempts left on a pending row, a retrying one that is due or one whose lease has expired; the whole new row, with the new owner and expiry, or no change |
| `JobTable.JobTable.ClaimPendingJob` | shared/job_state.py:130-141 | a pending job with attempts left becomes leased, without a new expiry; otherwise no change |
| `JobTable.JobTable.ProcessDeathTarget` | shared/job_state.py:256-279 | a dead process's leased or running job is sent to retrying exactly if attempts are left, else to failed |
| `JobTable.JobTable.HeartbeatJob` | shared/job_state.py:187-209 | accepted exactly from the owner of a leased or running row up to and at the expiry, which it moves to the lease from now |
| `JobTable.JobTable.CommitTransition` | shared/job_state.py:212-241 | commits exactly if the transition is allowed from the state it read and the row still has that state; leaving leased clears owner and expiry |
| `JobTable.JobTable.CommitFinish` | shared/job_state.py:288-332 | retrying exactly for a transient error with attempts left, due after the capped delay, else failed; it overwrites the row whatever its state is by then |
| `JobTable.JobTable.CreateOrGetJob` | shared/job_state.py:88-127 | a key in use gives the first job for the same input and an error for another, and changes nothing; a new key creates the job, unless its id is taken or its limit is below one |
| `JobTable.JobTable.SelectRunnable` | shared/job_state.py:151-165 | selects the earliest runnable row by creation and id, exhausted or not |
| `JobState.TargetsAreReachedFrom` | shared/job_state.py:13-27 | from which states each state can be reached by a transition |
| `JobState.LeasesOnlyWhileLeased` | shared/job_state.py:130-241 | in every run, an owner or an expiry implies the state leased |
| `JobState.RunningJobsHaveNoLease` | shared/job_state.py:187-209 | so no heartbeat or claim ever changes a running job |
| `JobState.AttemptsCountClaims` | shared/job_state.py:166-181 | attempts equal the successful claims and never exceed the limit; input and key never change |
| `JobState.MovesAreAllowed` | shared/job_state.py:310-316 | a move of the state is forbidden if and only if a finish that had read an active row finds it pending, paused or terminal and writes another state; finishes that act on the state they read never are |
| `JobState.TerminalStatesAbsorb` | shared/job_state.py:15-27 | with such finishes, a job in a terminal state keeps its row for ever |
| `JobState.TerminalIsLeftIff` | shared/job_state.py:300-332 | a terminal state is left if and only if the step is a finish whose read is out of date |
| `JobState.StaleFinishRevivesCompletedJob` | shared/job_state.py:310-316 | a run in which a finish that read a running row turns a job completed meanwhile into a retrying one |
| `JobState.StaleFinishFailsPausedJob` | shared/job_state.py:310-316 | a run in which such a finish turns a paused job into a failed one |
| `JobState.HolderOwnsTheRow` | shared/job_state.py:144-209 | whoever claimed last and was not released is exactly the owner of a leased row with an expiry |
| `JobState.LeaseExcludesOthers` | shared/job_state.py:144-209 | while someone holds a lease, no claim commits up to its expiry and no other owner's heartbeat succeeds |
| `JobState.LeaseLastsUntilReleased` | shared/job_state.py:144-241 | the lease lasts until a later claim, a transition or a finish |
| `JobState.HolderClaimed` | shared/job_state.py:144-184 | becoming the holder takes a successful claim of one's own |
| `JobState.OldHolderIsLockedOut` | shared/job_state.py:144-209 | after another worker's claim, the former holder's heartbeats fail until it claims again |
| `JobState.LeasesNeverOverlap` | shared/job_state.py:144-209 | a claim that ends a lease has a clock past that lease's last expiry |
| `JobState.RetryDelayIsBoundedAndMonotone` | shared/job_state.py:362-364 | retry delays lie between the policy's bounds and never shrink |
| `JobState.RetryDelayDoubles` | shared/job_state.py:362-364 | the first delay is the base and each later one twice the one before, up to the greatest |
| `Fat12Table.EncodeFat` | scripts/fixture_builder.py:305-312 | packs every pair of 12-bit entries into three bytes, an odd last one padded |
| `Fat12Table.DecodeFat` | scanner/fat12_parser.py:266-275 | reads back any number of entries, as the entry formula says |
| `Fat12Table.UnpackedPacked` | scanner/fat12_parser.py:266-275 | decoding the packed form of any 12-bit sequence gives it back, whatever bytes follow |
| `Fat12Table.PackedUnpacked` | scripts/fixture_builder.py:305-312 | packing what was decoded from a whole number of pairs gives the bytes back |
| `Fat12Table.PackingIsInjective` | scripts/fixture_builder.py:305-312 | different tables are packed into different bytes |
| `Fat12Table.DecodeEncoded` | scanner/fat12_parser.py:266-275 | the two loops, one after the other, return the table |
| `Fat12Table.PackingExample` | scanner/fat12_parser.py:266-275 | the layout, on the entries 0x123 and 0x456 and the bytes 23 61 45 |
| `Fat12Table.RecoverFromCopies` | scanner/fat12_parser.py:241-263 | as long as one copy kept its header, the first such copy is read back unchanged |
| `Fat12Chains.SupportedGeometriesAreFat12` | scanner/fat12_parser.py:35-78 | every supported geometry has a data region and few enough clusters for FAT12 |
| `Fat12Chains.DataFollowsRootDirectory` | scanner/fat12_parser.py:54-65 | the data region begins right after the reserved sectors, the tables and the least number of sectors that hold the root entries |
| `Fat12Chains.ClusterCountIsGreatest` | scanner/fat12_parser.py:67-69 | the cluster count is the greatest number of clusters that the data region holds |
| `Fat12Chains.LastEntrySays` | scanner/fat12_parser.py:371-387 | the table entry of the last cluster decides status and warning, marker by marker |
| `Fat12Chains.FollowChain` | scanner/fat12_parser.py:350-391 | the walk ends with distinct linked clusters of the table, for the reason its status names; the length bound never fires first |
| `Fat12Chains.WalkIsUnique` | scanner/fat12_parser.py:350-391 | a first cluster determines its complete walk |
| `Fat12Chains.PigeonHole` | scanner/fat12_parser.py:360-371 | distinct clusters are never more than the table names |
| `Fat12Chains.ClustersForSizeIsLeast` | scanner/fat12_parser.py:426-428 | the cluster count is the least that holds the size |
| `Fat12Chains.AllocatedChain` | scanner/fat12_parser.py:350-403 | what is recorded for an entry: cut, status, confidence and warnings, by how its walk ends and how long it is |
| `Fat12Chains.ChainIsWalkCutToSize` | scanner/fat12_parser.py:388-403 | the chain kept is the whole walk, or its first clusters up to what the size needs exactly if there is a size and the walk is longer, at every status; a walk too short for the size makes the entry partial |
| `Fat12Chains.RecordedIsUnique` | scanner/fat12_parser.py:350-403 | first cluster, size and table determine what is recorded |
| `Fat12Chains.WholeChainHasItsSize` | scanner/fat12_parser.py:350-403 | an entry with a size recorded as intact or fragmented has exactly the clusters its size needs, distinct and none free |
| `Fat12Chains.WalkLeavesTableIff` | scanner/fat12_parser.py:365-387 | some walk leaves the table if and only if some entry links past its end |
| `Fat12Chains.OutOfRangeLinkPassesAsIntact` | scanner/fat12_parser.py:350-403 | an entry can be recorded as intact without doubt although nothing ends its chain if and only if the table links past its own end; with any other table, what is recorded as intact or fragmented was ended by a mark |
| `Fat12Chains.UnendedFileIsIntact` | scanner/fat12_parser.py:72-77 | it happens on the smallest supported medium |
| `Fat12Space.ExtentsAreDisjoint` | scanner/fat12_parser.py:431-440 | extents of different clusters share no byte |
| `Fat12Space.ExtentIsInDataRegion` | scanner/fat12_parser.py:431-440 | every extent lies in the data region of the medium |
| `Fat12Space.ClustersTile` | scanner/fat12_parser.py:431-440 | the first cluster begins the data region and each further one follows the one before |
| `Fat12Space.FreeClusterRanges` | scanner/fat12_parser.py:456-479 | the run-length loop returns the byte ranges of sorted, separated runs that cover exactly the readable sectors of free clusters |
| `Fat12Space.RangesCoverCarvableBytes` | scanner/fat12_parser.py:456-479 | a byte lies in a carve range if and only if its sector is readable and its cluster free |
| `Fat12Space.RangesAreUnique` | scanner/fat12_parser.py:456-479 | what may be carved determines the ranges |
| `Fat12Space.RunsAreDisjoint` | scanner/fat12_parser.py:456-479 | no sector is in two runs |
| `Fat12Space.RunsAreMaximal` | scanner/fat12_parser.py:456-479 | what borders a run may not be carved, so no two runs touch |
| `Fat12Space.UsedClustersAreNotCarved` | scanner/fat12_parser.py:456-479 | carving never touches a cluster that is not free |
| `Fat12Space.IntactFileIsWhole` | scanner/fat12_parser.py:350-479 | an entry with a size recorded as intact or fragmented: its extents are as many as its size needs, lie in the data region, and share no byte with one another or with anything that is carved |
| `Fat12Space.DeletedCandidateIsCarved` | scanner/fat12_parser.py:406-423 | every readable sector of a deleted contiguous candidate lies in exactly one run |
| `Fat12LongNames.SplitName` | scripts/fixture_builder.py:192-200 | cuts a name into parts of thirteen units |
| `Fat12LongNames.LfnEntries` | scripts/fixture_builder.py:192-220 | prints the parts in reverse, numbered, with the checksum in each; too many parts do not fit the order byte |
| `Fat12LongNames.DecodeLfn` | scanner/fat12_parser.py:495-521 | the parser's loop computes the decoding function |
| `Fat12LongNames.DecodeOfEntries` | scanner/fat12_parser.py:495-521 | what the entries printed for any name at all decode to |
| `Fat12LongNames.RoundTripIff` | scripts/fixture_builder.py:192-220 | a name comes back if and only if it has 1 to 403 units, none of them zero, 0xFFFF or a surrogate |
| `Fat12LongNames.WrongChecksumIsInvalid` | scanner/fat12_parser.py:500-509 | under another checksum than the printed one, the long name is discarded |
| `Fat12LongNames.BuiltNameSurvivesIff` | scanner/fat12_parser.py:524-529 | with the checksums both programs really use, a name comes back if and only if in addition the two agree on the short name |
| `Fat12LongNames.ChecksumsMayDiffer` | scripts/fixture_builder.py:79-80 | for the fixture's NAIVE~1.TXT they do not: 66 and 181 |
| `Fat12LongNames.FixtureNameIsLost` | scripts/fixture_builder.py:261-265 | so the long name that is printed for that entry is not given back |
| `Fat12LongNames.PrintAndParse` | scanner/fat12_parser.py:495-521 | printing and parsing by the two loops returns exactly such names |
| `Fat12LongNames.NamedEntriesAreComplete` | scanner/fat12_parser.py:495-521 | entries give a name only if all have the checksum, one is flagged as last, and their numbers are exactly those up to the number of the last flagged one |
| `Fat12LongNames.Utf16ReadsBack` | scanner/fat12_parser.py:515-521 | the units of any code points decode to these code points, beyond sixteen bits too |
| `Fat12LongNames.Utf16IsStrict` | scanner/fat12_parser.py:515-521 | and units that decode at all are those of the code points they decode to |
| `FatEntries.NormalizeClusterChain` | scanner/fat_entries.py:119-149 | cuts a chain at the first cluster that ends, spoils, repeats or exceeds it, and nowhere else; which of these it is decides status and warning |
| `FatEntries.NormalizedIsUnique` | scanner/fat_entries.py:119-149 | the chain and the limit determine the result |
| `FatEntries.LargeChainIsWholeIff` | scanner/fat_entries.py:11-12 | a FAT32 chain of distinct data clusters is kept whole if and only if none of them is in 0xFF7 to 0xFFF, the marks of FAT12 |
| `FatEntries.ExFatChainIsWholeIff` | scanner/fat_entries.py:11-12 | an exFAT chain of distinct data clusters is kept whole if and only if none of them is in 0xFF7 to 0xFFF or in 0x0FFFFFF7 to 0x0FFFFFFF |
| `FatEntries.LargeChainsAreCut` | scanner/fat_entries.py:119-149 | one chain of each that is cut and reported as complete |
| `FatEntries.ClusterExtents` | scanner/fat_entries.py:152-183 | each extent lies where its cluster does; the lengths add up to the smaller of the size and the capacity |
| `FatEntries.ExtentsAreDisjoint` | scanner/fat_entries.py:174-180 | extents of different clusters do not overlap |
| `PartitionDiscovery.SortingKeepsIntersections` | scanner/partition_discovery.py:236-238 | sorting spans neither makes nor hides an intersection |
| `PartitionDiscovery.WarnsOfOverlap` | scanner/partition_discovery.py:150-179 | overlap is warned of if and only if two lines of the tool claim a common sector |
| `PartitionDiscovery.HasOverlap` | scanner/partition_discovery.py:235-244 | comparing neighbours in sorted order finds an overlap if and only if two allocated partitions share a sector |
| `AiBudget.BatchItems` | worker/ai_budget.py:82-110 | the batches keep the items and their order and respect both limits; an oversized item or invalid limits are the only errors |
| `AiBudget.GreedyStaysAhead` | worker/ai_budget.py:82-110 | after k batches the greedy split has consumed at least as many items as any other split |
| `AiBudget.GreedyIsFewest` | worker/ai_budget.py:82-110 | no contiguous split within the limits has fewer batches |
| `AiBudget.ChunkText` | worker/ai_budget.py:113-133 | chunks are within the limit, all but the last full, each beginning with the end of the one before, and give the text back once the overlap is dropped from the later ones |
| `SafetyAudit.VerifyLines` | hostd/safety_audit.py:171-203 | the loop accepts a list of lines if and only if it is a chain from the given position |
| `SafetyAudit.VerifyAuditLog` | hostd/safety_audit.py:133-151 | a log is accepted if and only if it is a chain from the genesis or from the position its continuation names |
| `SafetyAudit.VerifyAuditSegments` | hostd/safety_audit.py:154-168 | segments are accepted if and only if their lines, joined, are one chain from the genesis |
| `SafetyAudit.ChainIs` | hostd/safety_audit.py:171-203 | a chain is exactly: records of this schema with a listed event, numbered without a gap, each naming the hash of the one before and carrying its own |
| `SafetyAudit.ChainedConcat` | hostd/safety_audit.py:171-203 | verifying two pieces one after the other is verifying them as one |
| `SafetyAudit.SameEndSameRecords` | hostd/safety_audit.py:154-203 | with an injective hash, two accepted logs with the same next sequence and last hash hold the same records |
| `SafetyAudit.AppendKeepsChain` | hostd/safety_audit.py:256-271 | a new record extends the chain |
| `SafetyAudit.ActiveVerifies` | hostd/safety_audit.py:133-151 | verifying the active file alone finds where the whole log stands |
| `SafetyAudit.SafetyAuditLog.Append` | hostd/safety_audit.py:77-88 | one more record at the end of the whole chain; or, exactly if the event is not allowed, the record too large or the file full, an error that changes nothing |
| `SafetyAudit.SafetyAuditLog.Rotate` | hostd/safety_audit.py:90-111 | the active file becomes the last segment and a continuation starts the next; all segments still verify as one chain |
| `Bytes.MessageIsInjective` | shared/checkpoints.py:248-274 | the length-prefixed framing is injective |
| `Bytes.BigEndianReadsBack` | shared/checkpoints.py:268-272 | the length prefix is the length, most significant byte first |
| `Checkpoints.IntegrityFixesFields` | shared/checkpoints.py:248-274 | equal digests mean equal fields, all eight |
| `Checkpoints.LatestCheckpointId` | shared/checkpoints.py:171-181 | selects the greatest current row by created_at and id |
| `Checkpoints.OnlyTheLastIsCurrent` | shared/checkpoints.py:171-181 | in a slot's chain only the last save is not superseded |
| `Checkpoints.PreviousIsLast` | shared/checkpoints.py:171-181 | so the SELECT finds the last save, whatever created_at says |
| `Checkpoints.SaveKeepsStore` | shared/checkpoints.py:80-119 | a committed save extends the chain of its job and stage, leaves all other chains alone, and keeps every digest right |
| `Checkpoints.CheckpointStore.Commit` | shared/checkpoints.py:80-121 | the transaction succeeds if and only if the id is new, the job exists and nothing fails; a failed one leaves table and history as they were |
| `Checkpoints.CheckpointStore.Save` | shared/checkpoints.py:42-121 | a save succeeds exactly on valid inputs and payloads that can be dumped, if the id is new and the job known; its row holds the fields and the dumped text and becomes the last of its chain |
| `Checkpoints.CheckpointStore.SaveMedium` | shared/media_checkpoints.py:99-168 | the same, with the key of the medium identity in place of the fingerprint and version 1 |
| `Checkpoints.CheckpointStore.Load` | shared/checkpoints.py:124-168 | judges the last save of the slot: accepted exactly if its columns hold objects, its version is 1, its fingerprint and tool are those asked for and its text still has its digest; otherwise the error says which of these fails first |
| `Checkpoints.CheckpointStore.LoadMedium` | shared/media_checkpoints.py:171-234 | judges the last save of the slot: resumed exactly if its columns hold objects, the identity stored with it reads back to the key of the medium in the reader, its version is 1, its tool is the one asked for and its text still has its digest; otherwise the error says which of these fails first; no checkpoint is no error |
| `Checkpoints.OnlySavedFieldsAreAccepted` | shared/checkpoints.py:145-168 | however a row was altered, while it carries the digest of the saved fields a load returns a checkpoint with exactly those fields or an error |
| `CanonicalJson.RenamedAscendsIff` | shared/checkpoints.py:208-212 | integer keys sorted as numbers are still sorted once they are text if and only if no two of them change places |
| `CanonicalJson.RedumpIff` | shared/checkpoints.py:208-212 | a document that was dumped from a payload can be parsed and dumped again, and comes out the same if and only if in no dictionary of the payload, however deep, two integer keys change places as text |
| `CanonicalJson.DumpsIff` | shared/checkpoints.py:208-212 | a payload is refused exactly if something in it has no JSON form, is not finite where that is forbidden, or is a dictionary with keys of two kinds |
| `CanonicalJson.ObjectKeepsEntries` | shared/checkpoints.py:208-212 | a dictionary is written with all its entries, each value dumped and under its key as text |
| `CanonicalJson.ListKeepsElements` | shared/checkpoints.py:208-212 | a list is written element by element, in order |
| `CanonicalJson.DigitsReadBack` | shared/checkpoints.py:208-212 | the digits of an integer key stand for that integer, without a leading zero |
| `Checkpoints.ReframedIsSameIff` | shared/checkpoints.py:184-212 | so parsing and dumping what a save wrote changes none of the digested fields if and only if cursor and counters keep their keys' order |
| `Checkpoints.SaveThenLoad` | shared/checkpoints.py:42-168 | a checkpoint just saved is accepted by a load if and only if its version is 1, although any positive version is saved, and parsing and dumping leaves its text alone, which is to say that no two integer keys of a dictionary in it change places as text; otherwise the error says which |
| `Checkpoints.SaveThenLoadMedium` | shared/media_checkpoints.py:99-234 | a medium checkpoint just saved is resumed if and only if the stored identity reads back to the key of the medium in the reader and parsing and dumping leaves its text alone; otherwise the error says which |
| `CheckpointExamples.NumbersChangePlaces` | shared/checkpoints.py:208-212 | the dictionary {10: 2, 2: 1} is written with 2 first, and what was written, parsed, with 10 first |
| `CheckpointExamples.SavedAndRefused` | shared/checkpoints.py:42-168 | with injective libraries made explicit, a checkpoint of version 1 with that dictionary in its cursor is saved and its load fails with an integrity mismatch |
| `ReadErrors.BackoffIsBoundedAndMonotone` | scanner/read_errors.py:224-226 | waits never shrink and never exceed a minute |
| `ReadErrors.BackoffDoubles` | scanner/read_errors.py:224-226 | the first wait is the base and each later one twice the one before, up to a minute |
| `ReadErrors.ResilientReader.CountFailure` | scanner/read_errors.py:136-160 | a bad attempt is counted once, under its own kind, and the code names that kind |
| `ReadErrors.ResilientReader.ReadOrGap` | scanner/read_errors.py:126-175 | the bytes of the first good attempt, or zeros and one new gap when the policy's attempts are all bad; the gap's code names what the last attempt did, and every bad attempt is counted under its own kind; attempted = retries + successes + failures, failures = gaps, skipped bytes = sum of gap lengths |
| `ChunkPlan.PlanIsExact` | scanner/content_extraction.py:158-177 | reading the planned chunks without loss gives exactly the bytes of the extents |
| `ChunkPlan.CutIsFull` | scanner/content_extraction.py:162-177 | the chunks of an extent follow one another, each of a mebibyte except the last |
| `ChunkPlan.FlatByteByByte` | scanner/content_extraction.py:158-177 | the extents hold, byte by byte and in order, what the source holds at their offsets, or zeros where sparse |
| `ChunkPlan.ChunkIsSourceOrZeros` | scanner/content_extraction.py:158-177 | in any reading a chunk holds what the extents hold there, or zeros if it was lost |
| `ChunkStream.ChunkReader.NextChunk` | scanner/content_extraction.py:158-177 | the generator yields the next planned chunk: the source's bytes, or zeros when sparse or newly recorded as a gap; with a policy it never raises |
| `Sums.TotalWithout` | shared/scratch_store.py:241-249 | a directory's size does not depend on the order of its files |
| `ScratchStore.PutKeepsRecords` | shared/scratch_store.py:165-203 | after a put, every object still has one provenance for each put of its content, in order, and the reference count is their number |
| `ScratchStore.ScratchStore.CheckAvailableQuota` | shared/scratch_store.py:226-233 | refuses exactly what exceeds the quota, counting objects and metadata, or the disk |
| `ScratchStore.ScratchStore.ReadAll` | shared/scratch_store.py:91-107 | collects the generator's chunks until it ends, fails, or the quota is exceeded |
| `ScratchStore.ScratchStore.PutBytes` | shared/scratch_store.py:78-127 | stores the content once under its digest with one more provenance, within quota and disk; every error has its cause and leaves objects and metadata unchanged |
| `ContentExtraction.SumExtentLengths` | scanner/content_extraction.py:149-155 | the sum of the lengths, or an error exactly when an extent is malformed |
| `ContentExtraction.EndsBeforeReadingIff` | scanner/content_extraction.py:52-112 | each way in which an extraction ends before it reads, with the exact condition, the size limit among them, and when it does read |
| `ContentExtraction.Extract` | scanner/content_extraction.py:42-137 | what is stored is the selected extents, chunk by chunk, with zeros exactly for sparse chunks and recorded gaps, of the expected length; with a policy it is stored if and only if it fits quota and disk |
| `ContentExtraction.CopyWithoutGapsIsExact` | scanner/content_extraction.py:94-137 | without gaps the stored bytes are exactly the extents' bytes |
| `ContentExtraction.CopyIsExactOutsideGaps` | scanner/content_extraction.py:94-137 | with gaps, they differ only inside recorded gaps, which hold zeros |
| `StageGraph.StageOrder` | scanner/scheduler.py:73-89 | a topological order by levels, each level by name; an error if and only if no topological order exists |
| `StageGraph.WaitingStagesHaveNoOrder` | scanner/scheduler.py:80-84 | stages that all wait for one another or for an unknown stage rule out every order |
| `StageGraph.OrderIsStable` | scanner/scheduler.py:73-89 | the graph alone determines the order |
| `StageGraph.ApplyStageFailure` | scanner/scheduler.py:139-158 | one pass in stage order reaches the fixed point of failing and skipping; the flag says whether a mandatory stage or a further stage failed |
| `StageGraph.PropagatedMeans` | scanner/scheduler.py:139-158 | only pending stages change: one fails exactly if a mandatory dependency has failed, and is skipped exactly if only optional ones have and it is not the finalization |
| `StageGraph.SpreadIsUnique` | scanner/scheduler.py:139-158 | there is only one such fixed point |
| `Scheduler.PlanInOrder` | scanner/scheduler.py:102-126 | a stage is chosen if and only if it is pending, enabled, its dependencies allow it, and it fits what earlier choices left of the I/O limit; all other candidates are blocked |
| `Scheduler.RunnableStages` | scanner/scheduler.py:96-126 | the same after validation, with exact errors: every pending enabled stage is planned, as runnable or as blocked, and a runnable one has all its dependencies over or excused |
| `Scheduler.AvailableIsWhatIsLeft` | scanner/scheduler.py:104-107 | what may be spent is the limit less what the running stages use, or nothing |
| `Scheduler.PlanIsNotEmpty` | scanner/scheduler.py:96-126 | if nothing runs, failures have spread and an enabled stage is pending, the plan is not empty |
| `SchedulerRuns.ExecutionWaves` | scanner/scheduler.py:182-194 | waves respect dependencies and the I/O limit, repeat nothing, and contain every enabled stage |
| `SchedulerRuns.RestartPlan` | scanner/scheduler.py:161-179 | exact errors; the plan is that of the completed stages, reruns none of them, and has nothing to run only when every enabled stage has completed |
| `SchedulerRuns.ScanIsRestartableIff` | scanner/scheduler.py:161-179 | the stages completed at any point of a scan are accepted if and only if none of them depends on an enabled stage that failed or was skipped |
| `SchedulerRuns.ProductIsRestartableIff` | scanner/scheduler.py:161-179 | for the product: refused if and only if finalization completed and an enabled optional stage failed or was skipped |
| `SchedulerRuns.FinishedScanIsRefused` | scanner/scheduler.py:161-179 | such a scan, which did not fail, and its refusal |
| `SchedulerRuns.RunsAreSound` | scanner/scheduler.py:96-158 | in every scan, stages run only when enabled and after their dependencies, within the I/O limit; no failure is left unspread; the scan counts as failed if and only if a mandatory stage failed |
| `SchedulerRuns.RunsAreBounded` | scanner/scheduler.py:96-158 | no scan without pauses takes more than two steps a stage |
| `SchedulerRuns.ScansGoOn` | scanner/scheduler.py:96-158 | a scan in which an enabled stage has not ended can take a step |
| `SchedulerRuns.FinishedScansHaveEnded` | scanner/scheduler.py:96-158 | when no step is left, every enabled stage has completed, failed or been skipped, and finalization completed unless the scan failed |
| `SchedulerRuns.PlanCanStart` | scanner/scheduler.py:96-126 | all stages of one plan can be started, one after the other |
| `SchedulerRuns.ProductIsShaped` | scanner/scheduler.py:52-70 | the product's seven stages meet the assumptions of all this under every configuration |
| `Review.ReviewDesk.ApplyAction` | api/app.py:918-961 | with nothing in between: sets the targets' statuses, notes the previous ones under the group, and names exactly the findings that changed; errors change nothing |
| `Review.ReviewDesk.Undo` | api/app.py:996-1029 | with nothing in between: restores what the matching rows noted and marks them undone; an undone group is left alone |
| `Review.UndoTwiceIsUndoOnce` | api/app.py:1010-1012 | undoing what has been undone changes nothing |
| `Review.UndoPops` | api/app.py:1013-1029 | undoing the last action takes exactly it off again |
| `Review.UndoingRestores` | api/app.py:918-1029 | over any history of actions and last-in first-out undos, the statuses are those of the actions still applied; once all are undone, all are as at the start |
| `Review.OutOfOrderIff` | api/app.py:996-1029 | undoing the first of two actions leaves what the second alone would have if and only if their common findings already had the second's target |
| `Review.UndoneOutOfOrder` | api/app.py:996-1029 | a finding reviewed and then dismissed is new again once the review is undone |
| `ReviewInterleaving.RunsAreKept` | api/app.py:928-958 | however many actions interleave, statement by statement: each action's rows note what it read, and a finding of one action only has its first status or, once the action has come past it, the action's target |
| `ReviewInterleaving.AloneIsApplied` | api/app.py:928-958 | an action whose statements nothing interrupts does what the action in one step does |
| `ReviewInterleaving.UndoOneOfTwoIff` | api/app.py:918-1029 | of two interleaved actions, undoing one leaves what the other alone would have given if and only if it read their common findings with the other's target |
| `ReviewInterleaving.BothReadFirst` | api/app.py:918-1029 | a run of two actions on one finding that both read before either writes: once the dismissal is undone the finding is new, though the review alone makes it reviewed |
| `ReviewInterleaving.UndoBothIff` | api/app.py:918-1029 | undoing both gives every finding its first status back if and only if the action undone last read their common findings as they were at the start |
| `ReviewInterleaving.UndoOfPartIff` | api/app.py:918-1029 | an action that ended part way, undone, leaves every finding as it was if and only if it did not end between an UPDATE and the INSERT that notes it |
| `FindingPages.QueryFindings` | api/app.py:670-693 | the least matching keys past the cursor, up to the limit, and a cursor if and only if there are more |
| `Keyset.PageIsUnique` | api/app.py:676-683 | the keys and the limit determine the page |
| `FindingPages.WalkAscends` | api/app.py:670-693 | a walk's keys strictly ascend, whatever happens to the table between the pages |
| `FindingPages.NothingTwice` | api/app.py:670-693 | no finding is returned twice |
| `FindingPages.FinishedWalkIsComplete` | api/app.py:670-693 | a finished walk returns exactly once every finding that matched at each of its requests |
| `EventOutbox.Outbox.InsertEvent` | shared/event_outbox.py:38-46 | the INSERT of a number read earlier: refused exactly if the id or the number is taken meanwhile, which without compaction is any number but the next |
| `EventOutbox.RacingAppends` | shared/event_outbox.py:36-46 | of two appends that both read their number first, the second INSERT is refused and changes nothing |
| `EventOutbox.Outbox.AppendEvent` | shared/event_outbox.py:19-47 | with nothing in between, the event gets the next number of its case; without compaction that is the length of the case's log |
| `EventOutbox.Outbox.ListEvents` | shared/event_outbox.py:82-106 | the next events in order up to the limit; without compaction, the next part of the log |
| `EventOutbox.Outbox.MarkPublished` | shared/event_outbox.py:109-123 | exactly the given events without a publication time get this one; numbers do not change |
| `EventOutbox.Outbox.CompactPublishedEvents` | shared/event_outbox.py:126-144 | deletes the oldest published events up to the limit, and no unpublished one |
| `EventOutbox.PollIsSlice` | shared/event_outbox.py:82-106 | a page of an uncompacted case is the slice of its log after the given number |
| `EventOutbox.PollingReadsThePrefix` | api/app.py:1170-1173 | pages read one after the other from the table, with appends in between, are a prefix of the case's log without gap or repetition |
| `EventOutbox.PollingGoesOn` | api/app.py:1170-1173 | a page read when there is something after the reader's number moves the reader on |
| `EventOutbox.NumberIsReusedIff` | shared/event_outbox.py:126-182 | after deletions a number is given out again if and only if the case's last event was deleted |
| `EventOutbox.NumberIsReused` | shared/event_outbox.py:126-182 | compacting away the last event of a case and appending another gives the same number twice |
| `ExportManifest.Unique` | worker/export_manifest.py:300-306 | the first candidate whose key is free; the loop ends |
| `ExportManifest.TakenAreFew` | worker/export_manifest.py:300-306 | candidates whose keys are all used are at most as many as the used keys |
| `ExportManifest.CandidateKeysDiffer` | worker/export_manifest.py:300-310 | different suffixes give different keys, also without regard to case |
| `ExportManifest.PlanExportPaths` | worker/export_manifest.py:159-196 | in item order each path is the first free name; no two paths are equal, nor equal in upper case if case does not count; a path stays as asked exactly if no earlier one equals it in that sense, and the collisions are exactly the others |
| `ExportManifest.SanitizedIsSafe` | worker/export_manifest.py:82-101 | a sanitized component is not empty, has no separator or control character and does not end in a dot |
| `ExportManifest.OrdinaryNameStays` | worker/export_manifest.py:82-101 | a name with nothing to replace or strip that is not reserved stays as it is |
| `ExportManifest.BlankNameIsUnnamed` | worker/export_manifest.py:91-93 | a name of white space only is called unnamed |
| `ExportManifest.ReservedWithAnyExtension` | worker/export_manifest.py:94-98 | a device name is reserved with any extension and in any case, and gets an underscore in front |
| `ExportManifest.TraversalIsDropped` | worker/export_manifest.py:117-130 | a dot or a double dot gives no component, any other part gives one |
| `ExportManifest.PartsStayApart` | worker/export_manifest.py:117-131 | every part gives its own components, in order, wherever it stands |
| `ExportManifest.JoinedPathHasItsComponents` | worker/export_manifest.py:131-145 | joining safe components and splitting the path again gives the same components |
| `ExportManifest.SafePathStaysBelow` | worker/export_manifest.py:116-149 | a path within the limit has only safe components, so it stays below the destination |
| `ExportManifest.PlannedPathIsSafeIff` | worker/export_manifest.py:152-196 | a planned path that was not cut has only safe components if and only if its item is not carved or the stem of its source has no control character |
| `ExportManifest.StemIsLastName` | worker/export_manifest.py:295-297 | the stem of a path is the name after its last separator |
| `ExportManifest.CarvedNameKeepsLineBreak` | worker/export_manifest.py:290-297 | a carved item whose name has a line break |
| `ExportManifest.BelowIffPrefix` | worker/export_manifest.py:131-145 | a joined path lies below another if and only if its components go on after the other's |
| `ExportManifest.PlannedPathIsBelowIff` | worker/export_manifest.py:159-196 | of two planned paths that were not cut, one lies below the other if and only if the other's components are the first of its own; if neither was renamed or carved, those are the sanitized components of their sources |
| `ExportManifest.LongerPathIsBelow` | worker/export_manifest.py:116-149 | the path asked for by an item whose source path goes on from another item's always lies below the path that the other asks for |
| `ExportManifest.FileAndDirectory` | worker/export_manifest.py:159-196 | two such items, as a and a/b, are planned as they ask, without a collision: a file and a directory of one name |

## Left out

- SafetyAudit.SafetyAuditLog.Rotate: assumes that a continuation record, which names one file, fits the record limit, and does not model a crash between moving the file and writing the continuation.
- Liveness of the job queue: a claim may select an exhausted row and return nothing, so none is claimed.
- JobTable.JobTable.CreateOrGetJob: job type and case belong to the input here, since the three are only ever compared together; so the refusal of an unknown case or job type, which the table's constraints add, is not modelled.
- StorageInspection.RelatedHolders: lists the edges in the order they are found, without the final sort of the source.
- Checkpoints.OnlySavedFieldsAreAccepted: speaks of rows that still carry the digest they were saved with; the digest is not a signature, so a row rewritten together with its digest is out of reach.
- CanonicalJson.RedumpIff: dictionary keys are text or integers; keys that are floats, Booleans or None, nesting too deep for the interpreter and numerals too long for it are not modelled.
- Checkpoints.CheckpointStore.LoadMedium: one error stands for every reason why a medium is not eligible, and for stored identity text that does not parse; a cursor column holding a JSON list of pairs, which no save writes, counts as malformed.
- FindingPages.FinishedWalkIsComplete: needs a walk that ends; while findings keep arriving past the cursor a walk may go on for ever.
- EventOutbox.Outbox.AppendEvent: the job transition that one caller commits before it appends is not part of this model.
- EventOutbox.PollingReadsThePrefix: between the polls the case's log only grows, which compaction may break.
- ExportManifest.SafePathStaysBelow: says nothing of paths cut to the byte limit, whose last component may end anywhere.
- ScratchStore.ScratchStore.PutBytes: one put at a time; a crash between moving the object and writing its metadata, symbolic links and the temporary directory are not modelled.
- ContentExtraction.Extract: extraction warnings and the checkpoint dictionary are reduced to the outcome; a resume checkpoint is absent or an integer.
- ReadErrors.ResilientReader.ReadOrGap: pause advice, temperature and the warning messages are not modelled.
- SchedulerRuns.RunsAreSound: scans without an operator's pause.
- DuplicateGroups.ImageGroups: group ids, which are hashes of member ids, are not modelled. Exact and video groups reuse the same clusters and matching and would add only easy members.
- Review.ReviewDesk.ApplyAction: one action at a time, without a crash; the connection has no transaction around its statements, and `ReviewInterleaving` says what the statements do when others run in between.
- Review.ReviewDesk.Undo: one undo at a time, in `ReviewInterleaving` too; visits the rows in any order, since they are about different findings; the operator notes and actors are not modelled.
- Fat12: timestamps, attribute names, short names and the volume label, which the builder writes at byte 56 of the boot sector and the parser reads from byte 54; so no whole-image round trip is claimed.
- Mount lookup, network file systems (which end the separation check early with a warning) and path checks of the destination.
- JSON Schema compatibility (`scripts/check_schema_compat.py`): a structural recursion over schemas without an invariant of its own.
- Crash recovery and durability (fsync), the file system, sysfs, subprocesses, containers and HTTP.
- Redaction of audit events, content signatures, wizards, browser, document and archive adapters.
