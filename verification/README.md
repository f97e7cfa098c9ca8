# SmallAIOS verification

A Dafny model of the parts of SmallAIOS whose correctness is hard to see by reading: the cycle gate in the
build, the file-system layer that updates itself in place, the audit exporter, the JSON codec, and the login
stack. `dafny verify dfyconfig.toml` checks everything.

Each component has the same two layers. A layer of functions and lemmas says what the component does and what
follows from that over every input or every run. A layer of classes and methods follows the source's own loops
and in-place updates, and each method is proved to compute what the first layer says.

- **Cycle gate** (`Digraph`, `TarjanInvariant`, `ModuleCycles`, `PathOrder`, `CycleGate`). The iterative form of
  Tarjan's algorithm, with an explicit work stack of half-consumed iterators, returns exactly the strongly
  connected components with two or more members. The invariant speaks about stack positions: the stack is cut
  into stretches, one for each open iterator.
- **Block cache** (`LruSpec`, `LruCache`). The epoch-stamped map is a recency list cut to the budget; a larger
  budget never loses a hit, as two caches that go through the same trace show.
- **Delta update** (`DeltaFormat`, `Delta`, `DeltaRoundTrip`, `BootConfig`, `BlockDevice`, `BootFlow`,
  `SlotUpdate`). The patch
  applier, which accepts exactly the encodings of legal segmentations; the two-copy boot record; and the update of the
  inactive squashfs slot. Every disk operation may fail, by a table of faults, and a disk keeps every state it has been
  in, so a statement about its trail is a statement about every point where power may be cut.
- **Audit exporter** (`PipelineSpec`, `PipelineLaws`, `Pipeline`, `ExportConfig`). Runs of pushes, ticks, send
  outcomes and overflow reports in any order.
- **JSON** (`Decimal`, `Binary64`, `JsonSpec`, `JsonNumeral`, `JsonGrammar`, `JsonLanguage`, `JsonRoundTrip`,
  `JsonReturns`, `JsonMachine`, `AuditSidecar`). The reader accepts exactly the texts of a grammar that is given beside
  it, numbers included, and rounds each number to the nearest 64-bit float. A value comes back from its text exactly
  when its numbers are finite. The grammar is the reader's own, not that of RFC 8259: it has leading zeros, raw control characters, Unicode white space and a plus sign
  in front of three hexadecimal digits.
- **Shadow file** (`Base32`, `Separated`, `ShadowSpec`, `ShadowLaws`, `ShadowRoundTrip`, `ShadowFile`, `ShadowMeaning`,
  `Shadow`). The record format, told once by its reader and writer and once by what a line means, including base32 (section 6 of RFC 4648) through a 32-bit shift register.
- **Login** (`Lockout`, `ConsoleLogin`, `AtomicWriteSpec`, `AtomicWrite`, `Phc`, `FirstBoot`). The throttle, the stage
  and rename protocol, the password hash strings, and the first boot that ties them to the shadow file.
- **Checkpoints** (`Checkpoint`) and **latency statistics** (`LatencyStats`).

`Bytes`, `Arithmetic` and `Results` hold what several components share.

Choices that matter when reading the model:

- Integers are unbounded in Dafny. Where the source has a width, the model has the wrap-around, the saturation or
  the failing check written out: the cache epoch, the exporter's 64-bit deadlines and 32-bit drop tally, the
  decimal readers, the base32 register, the checkpoint version, the day counter of the first boot.
- A bitwise or of bits that cannot overlap is written as a sum, and `x & 31` as `x % 32`.
- Text is a sequence of Unicode scalar values, so byte offsets inside one character do not exist.
- A JSON number is a 64-bit float: a finite value of the format, an infinity or NaN. Zeros of either sign are one
  number, as they are to the source's comparison; the writer prints both as `0`.
- Signatures, digests, password hashes, squashfs verification, the formatting of numbers that are not whole, clocks,
  the console and the network enter as parameters, and every statement holds for all of them, or names what it asks of
  them.

Where the code and its own documentation disagree, the model follows the code:

- `scripts/module-cycles.py` announces exit code 2 when no edges are read; it returns 0. The code is the announced
  one exactly when some edge counts (`CycleGate.Gate`).
- `stage_new_active_slot` and `boot_success` announce the highest generation plus one; they use the active record's
  generation plus one. Once a rollback has cleared the newest record that blocks every later update
  (`BootConfig.StagingRefusedIff`, `BootConfig.RollbackBlocksStaging`) and every later confirmation
  (`BootConfig.ConfirmRefusedIff`, `BootConfig.RollbackBlocksConfirming`).
- `Pipeline::push` announces that a new record is always queued; one larger than the whole buffer is dropped after
  everything else has been evicted for it (`PipelineLaws.PushAcceptsIff`, `PipelineSpec.VictimsAreFewest`).
- The shadow module announces that serializing a parsed line gives the line back; that holds exactly for canonical
  lines (`ShadowFile.RewriteIsIdentityIff`, `ShadowFile.LeadingZeroIsRewritten`). It also announces that
  `totp_required` is always written; it is written exactly when true (`ShadowRoundTrip.RequirementWrittenIff`).
- `percentile` announces tenths of a percent; it takes numbers up to a hundred as whole percents
  (`LatencyStats.AnnouncedIff`).
- `update_atomic` announces that it overwrites the inactive slot. A slot that cannot be read counts as absent, so one
  failed read can send the write to the only valid record. No table of faults can cost the last valid record exactly
  when the second slot holds one (`BlockDevice.UpdateKeepsIff`, `BlockDevice.StageKeepsIff`,
  `BlockDevice.ConfirmKeepsIff`).
- The checkpoint protocol tracks whether a pack's journal was written, but the selection does not look at it, so a
  commit cut between header and journal is mounted (`Checkpoint.JournalIsNotChecked`, `Checkpoint.MountedIsPersisted`).

## Model

| member | source | states |
|---|---|---|
| ModuleCycles.TarjanSccs | scripts/module-cycles.py:34-81 | for every finite graph and list of roots: each reported list is a strongly connected component of at least two nodes, strictly sorted and reachable from a root; no node is reported twice; any two distinct, mutually reachable nodes reachable from a root are reported together |
| TarjanInvariant.VisitRoot | scripts/module-cycles.py:43-50 | opening an iterator on an unnumbered root establishes the traversal invariant |
| TarjanInvariant.VisitChild | scripts/module-cycles.py:54-62 | descending to an unnumbered successor keeps the invariant |
| TarjanInvariant.SkipKeeps | scripts/module-cycles.py:54-64 | looking at a numbered successor, on the stack or not, keeps the invariant |
| TarjanInvariant.CloseKeeps | scripts/module-cycles.py:67-70 | closing an exhausted iterator whose lowlink is below its index keeps the invariant, and an enclosing iterator is still open |
| TarjanInvariant.PopIsScc | scripts/module-cycles.py:71-78 | when lowlink equals index, the stack from that node up is one whole strongly connected component |
| TarjanInvariant.PopKeeps | scripts/module-cycles.py:67-78 | popping that component keeps the invariant |
| ModuleCycles.PopThrough | scripts/module-cycles.py:72-78 | the inner loop pops exactly the part of the stack from the node up, in reverse |
| ModuleCycles.Traversal.Scan | scripts/module-cycles.py:52-66 | the loop over one iterator keeps the traversal invariant and ends with a newly numbered node opened, or with the iterator exhausted and nothing else opened |
| ModuleCycles.Traversal.Report | scripts/module-cycles.py:67-80 | popping a component keeps the traversal invariant, under which the reports are exactly the components of two or more members among the nodes already finished |
| CycleGate.EmptyIffAcyclic | scripts/module-cycles.py:34-113 | on a graph without self loops whose edges all start at roots, nothing is reported exactly when there is no cycle |
| CycleGate.CountsIff | scripts/module-cycles.py:29-95 | an edge counts exactly when it joins two different modules neither of which is the other followed by `::` and some rest |
| CycleGate.SiblingsCount | scripts/module-cycles.py:29-95 | an edge between two modules of one parent counts, also when one name begins with the other |
| CycleGate.KeepCounting | scripts/module-cycles.py:29-96 | an edge is kept exactly when it is given and joins two modules apart in that sense |
| CycleGate.Gate | scripts/module-cycles.py:84-118 | exit code 1 exactly when the given edges between modules apart have a cycle, otherwise 0, which is the announced code exactly when there is such an edge; two modules share a report exactly when they reach each other |
| LruSpec.RunKeeps | fs/src/cache.rs:174-267 | after every trace the recency list has no repeats, matches the stored blocks and is within capacity |
| LruSpec.LargerCapacityIncludes | fs/src/cache.rs:174-257 | for every trace the smaller cache's recency list is the larger one's with blocks left out, with the same bytes, and the two agree until the smaller fills |
| LruSpec.LargerBudgetIncludes | fs/src/cache.rs:174-257 | for every trace and block size, a larger byte budget holds every block a smaller one holds, hits at least as often and misses at most as often |
| LruSpec.HitsAreLatest | fs/src/cache.rs:174-222 | every hit returns the bytes of the latest put since the last clear |
| LruSpec.CountersAreGets | fs/src/cache.rs:174-193 | the hit and miss counters are the gets since the last clear that found their block and those that did not |
| LruSpec.OrderIsByLastUse | fs/src/cache.rs:174-257 | after every trace the list is sorted by the last operation that used each block, so evictions take the least recently used |
| LruSpec.ConservationIff | fs/src/cache.rs:203-257 | evictions plus resident blocks equal the puts that brought in a new block since the last clear, exactly when the block size is positive or there were none |
| LruSpec.StoredBlockSurvives | fs/src/cache.rs:203-257 | a block survives its own eviction pass exactly when the capacity is positive, and, ranked last as at the epoch wrap, exactly when room is left over |
| LruCache.LruCache.Get | fs/src/cache.rs:174-193 | for every state, wrapped or not: the stored bytes, the block stamped with the next epoch modulo 2^64, every counter; before the wrap this is the recency list's lookup and promotion, and at the wrap the block becomes least recent instead |
| LruCache.LruCache.Peek | fs/src/cache.rs:196-199 | returns what a lookup would and changes nothing |
| LruCache.LruCache.Put | fs/src/cache.rs:203-222 | for every state, wrapped or not, even with equal epochs: the block is stored with the next epoch, as many blocks stay as fit and none that went is newer than one that stayed, and each drop is counted; before the wrap this is the list's store and truncation, and at the wrap the stored block is the first to go |
| LruCache.LruCache.EvictToBudget | fs/src/cache.rs:230-257 | sorting a snapshot by epoch and dropping from its front leaves the newest blocks that fit, and counts each drop; on distinct epochs it cuts the recency list to budget / block size |
| LruCache.LruCache.Clear | fs/src/cache.rs:260-266 | empties the cache and resets the counters and the epoch |
| LruCache.RunTrace | fs/src/cache.rs:114-267 | a new cache taken through any trace shorter than 2^64 is the recency list of that trace |
| LruCache.CompareBudgets | fs/src/cache.rs:114-257 | two caches with the two budgets that are the recency lists of one and the same trace: the one with the larger budget holds every block of the other with the same bytes, has hit at least as often and missed at most as often |
| DeltaFormat.CtrlsRoundTrip | fs/src/delta.rs:11-51 | control entries as little-endian two's-complement triples read back as written |
| DeltaFormat.HeaderIff | fs/src/delta.rs:219-262 | a header is accepted exactly when the patch has its 80 bytes, the magic letters, and the length that its three lengths say, with whole control entries; which complaint comes first |
| Delta.ApplyMeaning | fs/src/delta.rs:219-360 | for every reference and patch: header errors are passed on; otherwise applying succeeds exactly when every read lies inside the reference and the streams, the cursor stays in range, the streams are used up and their lengths add up to the announced size; the result is the recursive rebuild |
| Delta.WritePiece | fs/src/delta.rs:318-340 | one entry's bytes are appended: reference plus diff modulo 256, then extra bytes |
| Delta.ApplyEntry | fs/src/delta.rs:283-352 | the checks of one entry in their order and with their errors, without leaving 64 bits, and the new cursors and output |
| Delta.ApplyDelta | fs/src/delta.rs:263-360 | the in-place applier computes the specified result or error for every reference and patch |
| DeltaRoundTrip.StreamsRebuild | fs/src/delta.rs:602-639 | for every legal segmentation of a target, target minus reference and the copied bytes rebuild the target |
| DeltaRoundTrip.PatchReadsBack | fs/src/delta.rs:219-639 | an encoded patch parses to its header and the three streams it was made of |
| DeltaRoundTrip.PatchRoundTrip | fs/src/delta.rs:11-639 | for every reference, target and legal segmentation, applying the encoded patch returns exactly the target |
| DeltaRoundTrip.SimplePatch | fs/src/delta.rs:602-639 | the one-entry patch over the common length is a legal segmentation of every target |
| DeltaRoundTrip.AppliesIff | fs/src/delta.rs:219-360 | for every reference, byte string and target: applying gives the target exactly when the byte string is the encoding of a legal segmentation of that target, so the applier accepts nothing else |
| BootConfig.RecordRoundTrip | fs/src/boot_config/mod.rs:251-309 | every record reads back from its encoding, whatever the digest |
| BootConfig.EncodedBytes | fs/src/boot_config/mod.rs:251-272 | the bytes of a written record, place by place |
| BootConfig.DecodesIff | fs/src/boot_config/mod.rs:274-309 | a block is taken for a record exactly when it has the length, the magic letters, version 1, a squashfs slot and the digest of the rest at its end; which complaint comes first |
| BootConfig.DecodedFields | fs/src/boot_config/mod.rs:274-309 | the fields of a record that was read are the bytes at their places |
| Bytes.LeastFirst | fs/src/boot_config/mod.rs:251-309 | a 64-bit number is its eight bytes, the least significant first |
| BootConfig.ActiveIsNewestValid | fs/src/boot_config/mod.rs:354-374 | a record is picked exactly when one is valid, and then a valid one of highest generation |
| BootConfig.TargetMissesActive | fs/src/boot_config/mod.rs:426-441 | an update overwrites the active record exactly when both are valid with equal generations, and even then leaves a valid one |
| BootConfig.MisreadLosesIff | fs/src/boot_config/mod.rs:400-441 | with each read the truth or a failure: an update the generation rule lets through, and a staging, spare no valid record exactly when the only valid one is the first slot's and reading it failed |
| BootConfig.StagingRefusedIff | fs/src/boot_config/watchdog.rs:287-323 | staging over a valid record is refused exactly at the last generation or when a readable record, valid or not, has a higher one |
| BootConfig.RollbackBlocksStaging | fs/src/boot_config/watchdog.rs:287-323 | once the newer of two valid records is marked invalid, no update can be staged |
| BootConfig.ConfirmRefusedIff | fs/src/boot_config/watchdog.rs:220-249 | confirming a valid record is refused exactly at the last generation or when a readable record, valid or not, has a higher one, each with its error |
| BootConfig.RollbackBlocksConfirming | fs/src/boot_config/watchdog.rs:220-249 | once the newer of two valid records is marked invalid, the boot from the older one cannot be confirmed |
| BootConfig.OverwriteHealthyIff | fs/src/boot_config/mod.rs:354-441 | overwriting one of two healthy records and sparing a newest one keeps them healthy exactly when what is left in its place, torn or not, is not a cleared record of a higher generation |
| BootFlow.FlowStaysHealthy | fs/src/boot_config/watchdog.rs:220-323 | over every run of staging, confirming and giving up on a device whose reads work, with writes and flushes failing at will and torn writes leaving any bytes short of a newer cleared record: a valid newest record is there, its generation has not fallen, and staging and confirming are refused only at the last generation |
| BootFlow.RunFlow | fs/src/boot_config/watchdog.rs:220-323 | a disk taken through such a run by the operations themselves ends as the modelled run says, and where reads work a valid record is there at every cut point, whatever bytes a torn write leaves |
| BlockDevice.ReadActive | fs/src/boot_config/mod.rs:323-352 | under any faults, the pick from what the two reads gave, a failed one counting as no record; a record that is picked is on the device and valid; with working reads, the pick from the two slots on disk |
| BlockDevice.UpdateKeepsIff | fs/src/boot_config/mod.rs:390-446 | on a device with a valid record, an update leaves one under every table of read, write and flush faults exactly when the second slot holds one |
| BlockDevice.StageKeepsIff | fs/src/boot_config/watchdog.rs:287-323 | the same for staging, its path for a device without records included |
| BlockDevice.ConfirmKeepsIff | fs/src/boot_config/watchdog.rs:220-249 | confirming leaves a valid record under every table of faults exactly when the second slot holds one or the first slot's record is confirmed or at the last generation |
| BlockDevice.CalmConfirm | fs/src/boot_config/watchdog.rs:220-249 | where nothing fails, a confirmed record is left alone; otherwise the active slot ends up confirmed one generation up, or the error says why not |
| BlockDevice.CalmGiveUp | fs/src/delta.rs:568-577 | where nothing fails, giving up clears the valid flag of the record that is not active, and of no other |
| BlockDevice.AcknowledgedIsFlushed | fs/src/boot_config/mod.rs:400-446 | under any faults, no update, staging or confirmation is acknowledged whose write or flush failed |
| BlockDevice.OtherBlocksRefused | fs/src/boot_config/mod.rs:323-470 | on a device without 4096-byte blocks every operation is refused and changes nothing |
| BlockDevice.UpdateAtomic | fs/src/boot_config/mod.rs:390-446 | under any faults: answer and contents are those of the modelled run, only the two boot slots ever change, at most one write happens, and a valid record remains at every cut point if reads work or the second slot is valid; on success the slot returned holds the record; a working device answers exactly as the rule for records says |
| BlockDevice.MarkInvalid | fs/src/boot_config/mod.rs:459-486 | under any faults answer and contents are those of the modelled run: only the slot named changes and the other slot's record stays, so the device stays bootable at every cut point if that is valid; on success the valid flag is cleared; a working device succeeds |
| BlockDevice.GiveUp | fs/src/delta.rs:568-577 | whatever fails, contents are those of the modelled run and the record that was picked stays, so a device with a valid record keeps one at every cut point |
| BlockDevice.StageNewActiveSlot | fs/src/boot_config/watchdog.rs:287-323 | under any faults: answer and contents are those of the modelled run, only the boot slots change, and a valid record remains at every cut point if reads work or the second slot is valid; on success the tentative record for the new slot is on disk; a working device answers exactly as the rule for staging says |
| BlockDevice.BootSuccess | fs/src/boot_config/watchdog.rs:220-249 | under any faults: contents are those of the modelled run, only the boot slots change, and a valid record remains at every cut point if reads work or the second slot is valid; the watchdog is disarmed only once a valid confirmed record is on the device; after a new record the answer is Ok exactly when the watchdog could be disarmed, and a record already confirmed always answers Ok |
| SlotUpdate.MountReads | fs/src/mount.rs:370-385 | a slot is verified from its own partition's first block through its last, at least one, as far as the device reaches |
| SlotUpdate.FallbackServes | fs/src/mount.rs:322-385 | a slot serves exactly when one verifies; it verifies; the preferred one serves if it does; the other is tried exactly when the preferred one fails, and each status says what happened to that slot |
| SlotUpdate.CutStillBoots | fs/src/mount.rs:322-385 | if only the inactive slot and the boot slots differ, an active slot that verified still verifies, so the mount finds a slot whichever is preferred |
| SlotUpdate.ReadPartition | fs/src/delta.rs:518-527 | a successful read returns the partition's bytes |
| SlotUpdate.WritePartition | fs/src/delta.rs:554-560 | only the partition changes, at every cut point, and on success it holds the staged image |
| SlotUpdate.VerifiesIff | fs/src/delta.rs:375-404 | a patch passes exactly when key and signature have their lengths, the header parses, the signature is good for the patch and the header names the hash of the reference; which refusal comes first |
| SlotUpdate.ImageIff | fs/src/delta.rs:518-552 | an image may be staged exactly when the patch passes, applies and its result fits; it is that result followed by zeros |
| SlotUpdate.ApplyDeltaToPartition | fs/src/delta.rs:494-590 | whatever fails and at every cut point: only the inactive slot and the boot slots differ; every slot that verified and lies apart from them keeps the mount going, whichever slot is preferred; and a valid record remains if reads work or the second record slot holds one. Nothing is written, and nothing succeeds, unless key and signature have their lengths, the signature is good for the patch, the patch names the hash of what the active slot holds, and it applies; on success the inactive slot holds its result and zeros; the staged event is emitted exactly on success, after the image verified in place, and names the record on disk; each refusal has its own event; with a working device, a good patch, an image that verifies and records that allow it, the update succeeds |
| PipelineSpec.VictimsAreFewest | audit-export/src/pipeline.rs:216-230 | eviction takes the fewest oldest records after which the new one fits, and all of them when it is larger than the whole buffer |
| PipelineLaws.EveryRun | audit-export/src/pipeline.rs:209-370 | in every run: delivered, in-flight and buffered records are an order-preserving subsequence of the accepted ones; with the evicted ones they are exactly the accepted ones, counted; buffered plus in-flight bytes stay within one buffer and one batch of largest records; reported plus pending drops equal the drops until the 32-bit tally sticks |
| PipelineLaws.NothingEvictedNothingLost | audit-export/src/pipeline.rs:209-340 | in every run, nothing was evicted exactly when delivered, in-flight and buffered records together are the accepted stream |
| PipelineLaws.PushBounded | audit-export/src/pipeline.rs:209-236 | an accepted push leaves the buffer within its byte limit |
| PipelineLaws.PushAcceptsIff | audit-export/src/pipeline.rs:209-248 | a push is accepted exactly when the pipeline is not halted, the action is included and not excluded, and the record fits the whole buffer; it fails exactly when halted |
| PipelineLaws.OnlyAdmitted | audit-export/src/pipeline.rs:209-248 | in every run only records that pass the filter and fit are accepted |
| PipelineLaws.BackoffLawIff | audit-export/src/pipeline.rs:309-327 | after k retries in a row the delay is min(initial * 2^(k-1), cap) on every run, exactly when the initial delay is within the cap |
| PipelineLaws.RetryWaits | audit-export/src/pipeline.rs:252-327 | after a retry, whatever else happens before the next outcome, no batch is sent before the delay for that many retries has passed, a tick before then names that time, and a full batch goes out from then on |
| PipelineLaws.NoRetryNoWait | audit-export/src/pipeline.rs:252-327 | without a retry since the last success nothing is put off |
| PipelineLaws.BatchIsOldest | audit-export/src/pipeline.rs:271-290 | a batch is the 1 to batch-size oldest records, and leaves some behind only when full |
| PipelineLaws.WakeIsHonest | audit-export/src/pipeline.rs:252-297 | every tick before an advertised wake time is idle and changes nothing |
| PipelineLaws.TimerRuns | audit-export/src/pipeline.rs:252-297 | in every reachable state that is not halted, has nothing in flight and is not empty, the wait for a batch has begun, and a tick after both deadlines sends |
| PipelineLaws.TimerLaw | audit-export/src/pipeline.rs:209-327 | the wait begins with a record accepted while none waits, a batch that leaves records behind or one that comes back while none waits, ends with a tick that takes everything, and nothing else moves it |
| PipelineLaws.DeadlineSends | audit-export/src/pipeline.rs:209-297 | counted from the event that began the wait, whatever happens short of sending, a tick with records, nothing in flight and no retry pending sends exactly when a batch is full or the interval has passed, and otherwise names the time at which it will have |
| PipelineLaws.OneInFlight | audit-export/src/pipeline.rs:252-262 | while a batch is in flight a tick does and plans nothing, and a halt is told first |
| PipelineLaws.OutcomeTold | audit-export/src/pipeline.rs:300-340 | what is told of an outcome: success, the code of a retry, or the reason of a halt, which every tick and push then names |
| PipelineLaws.DrainDelivers | audit-export/src/pipeline.rs:252-308 | with the server answering, whatever transactions it names, as many rounds as there are records deliver all of them in order, and the last one named is remembered |
| PipelineLaws.ProvesSinceLast | audit-export/src/pipeline.rs:287-308 | in every run a batch asks for a proof since the last acknowledged transaction |
| PipelineLaws.HaltFreezes | audit-export/src/pipeline.rs:209-340 | for every run, halt and continuation: after the halt nothing more is accepted, evicted, sent or delivered, every tick says halted, and the buffer is for good the batch that was in flight followed by what was buffered |
| PipelineLaws.ReportsAreThrottled | audit-export/src/pipeline.rs:356-370 | in every run, however the clock jumps, overflow reports are at least the interval apart |
| PipelineLaws.ReportedIff | audit-export/src/pipeline.rs:356-370 | in every run a report is made exactly when drops are pending and none was made within the interval, and it names all of them |
| AuditPipeline.Pipeline.MakeRoom | audit-export/src/pipeline.rs:216-230 | the eviction loop drops exactly the specified records, counts them, and keeps the byte count equal to the buffer's size |
| AuditPipeline.Pipeline.Push | audit-export/src/pipeline.rs:209-248 | is the model's push step, with the byte count exact |
| AuditPipeline.Pipeline.Tick | audit-export/src/pipeline.rs:252-297 | is the model's tick step, with the byte count exact |
| AuditPipeline.Pipeline.OnSend | audit-export/src/pipeline.rs:300-340 | is the model's send step: the batch returns to the front in order on retry and halt |
| AuditPipeline.Pipeline.MaybeEmitOverflow | audit-export/src/pipeline.rs:356-370 | is the model's report step |
| ExportConfig.ValidIff | audit-export/src/config.rs:171-227 | settings pass exactly when every documented rule and range holds |
| ExportConfig.FirstComplaint | audit-export/src/config.rs:171-227 | the complaint is that of the first broken rule in the documented order |
| ExportConfig.SettingsGovern | audit-export/src/config.rs:229-241 | which records the pipeline takes, when it sends, how long it waits after a failure and how often it reports drops, in terms of the settings it was made from |
| ExportConfig.ValidatedRunsAreSafe | audit-export/src/config.rs:171-241 | for settings that pass validation, every run follows the capped doubling, sends batches of 1 to 10000 records, and its byte count plus any one record fits 64 bits |
| JsonRoundTrip.EscapeForm | container/src/json.rs:108-118 | the escaped form of every character: short for five of them, four hexadecimal digits for the other controls, and anything else as it is |
| JsonRoundTrip.EscapeReads | container/src/json.rs:108-318 | every character reads back from its escaped form, which never starts with a quote |
| JsonRoundTrip.StringReads | container/src/json.rs:121-351 | every string, followed by anything, reads back with that rest |
| Binary64.RoundIsBinary64 | container/src/json.rs:280-285 | rounding gives a finite value of the 64-bit format or an infinity |
| Binary64.RoundExact | container/src/json.rs:280-285 | rounding changes no value of the format |
| Binary64.RoundIsNearest | container/src/json.rs:280-285 | no value of the format is nearer to a number than the one it is rounded to |
| Binary64.RoundTiesToEven | container/src/json.rs:280-285 | when another value of the format is just as near, rounding gives an even and the other is an odd multiple of one power of two |
| Binary64.RoundOverflowsIff | container/src/json.rs:280-285 | rounding gives an infinity of the right sign exactly from halfway past the largest value of the format on |
| JsonNumeral.NumeralReads | container/src/json.rs:217-286 | every numeral, a sign, digits, a fraction and an exponent, followed by text that cannot extend it, is read as its exact value rounded to a float, with that rest |
| JsonNumeral.ReadIsNumeral | container/src/json.rs:217-286 | whatever is taken for a number is a numeral, taken at that numeral's rounded value |
| JsonNumeral.LiteralIff | container/src/json.rs:217-286 | for every text and float, the text is read whole as the float exactly when it is a numeral whose exact value rounds to it |
| JsonRoundTrip.WholeIsFaithful | container/src/json.rs:99-286 | whole floats below 2^63 in size print as a numeral of themselves |
| JsonRoundTrip.NumberTextIs | container/src/json.rs:99-105 | a number is printed as an integer exactly when it is whole and below 2^63 in size; any other goes to the formatter |
| JsonRoundTrip.TextIsWritten | container/src/json.rs:24-165 | the text of a value with faithfully printed numbers is a document of the grammar that means the value |
| JsonRoundTrip.TextReads | container/src/json.rs:155-422 | for every value with faithfully printed numbers, any nesting and any strings, reading its text followed by anything that cannot extend a number gives the value and that rest |
| JsonRoundTrip.ParseSerialize | container/src/json.rs:24-422 | parsing inverts serializing, with any white space around the document |
| JsonRoundTrip.WholeRoundTrip | container/src/json.rs:24-422 | the same for all values with whole floats as numbers, whatever prints the other numbers |
| JsonRoundTrip.TextInjective | container/src/json.rs:38-165 | two such values have the same text exactly when they are equal |
| JsonReturns.ReturnsIff | container/src/json.rs:24-422 | for every value of floats, if finite numbers are printed as numerals that round to them and the others by name, the value comes back from its text exactly when all its numbers are finite; otherwise the text is not accepted |
| JsonReturns.PrintingIsPossible | container/src/json.rs:99-105 | there is such a way to print: every float has a decimal numeral of exactly its value |
| JsonGrammar.SpaceIff | container/src/json.rs:24-36 | white space is exactly the twenty-five characters with that Unicode property |
| JsonGrammar.EscapedCodeReads | container/src/json.rs:288-312 | every code below 2^16 that is no surrogate is read from its four hexadecimal digits in either case, most significant first |
| JsonGrammar.SpelledReads | container/src/json.rs:291-349 | every spelling of a character, raw, short escape or four hexadecimal digits worth their positional value, is read as that character |
| JsonGrammar.ReadIsSpelled | container/src/json.rs:291-349 | nothing but such a spelling is read as a character |
| JsonLanguage.DocReads | container/src/json.rs:171-422 | every document of the grammar, with any white space and any spellings, followed by text that cannot extend a number, is read as its meaning with that rest |
| JsonLanguage.ReadIsDoc | container/src/json.rs:171-422 | whatever is read is white space, a document of the grammar with that meaning, and the rest |
| JsonLanguage.AcceptsExactly | container/src/json.rs:24-36 | for every text and value, parsing gives the value exactly when the text is a document of the grammar with that meaning between white space; spellings, numerals and their values are the grammar's own |
| JsonMachine.ConsumeDigits | container/src/json.rs:217-222 | the loop ends at the end of the run of digits |
| JsonMachine.ReadString | container/src/json.rs:320-351 | the cursor loop computes the recursive string reader, errors included |
| JsonMachine.ReadArray | container/src/json.rs:353-377 | the loop computes the recursive array reader, errors included |
| JsonMachine.ReadObject | container/src/json.rs:379-422 | the loop computes the recursive object reader, errors included |
| JsonMachine.ReadValue | container/src/json.rs:171-185 | dispatch on the first character computes the recursive reader |
| JsonMachine.WriteString | container/src/json.rs:121-127 | appends the quoted, escaped text |
| JsonMachine.WriteArray | container/src/json.rs:130-139 | appends the items between brackets, with commas only between them |
| JsonMachine.WriteObject | container/src/json.rs:142-153 | appends the entries between braces, with commas only between them |
| JsonMachine.WriteValue | container/src/json.rs:155-165 | appends the text of the value |
| AuditSidecar.EscapesAlike | audit-export/src/verbs.rs:126-142 | the sidecar's own escaping of a character, four hexadecimal digits for controls, is the JSON writer's |
| AuditSidecar.EscapeJson | audit-export/src/verbs.rs:126-142 | the loop over that escaping produces the JSON writer's escaped text |
| AuditSidecar.ExtraToJson | audit-export/src/verbs.rs:109-123 | writes the JSON text of the object with these string pairs in order |
| AuditSidecar.SidecarReadsBack | audit-export/src/verbs.rs:109-142 | the JSON reader gives back exactly the pairs, in order, for any keys and values |
| Base32.DecodeEncode | auth/src/shadow.rs:433-476 | decoding inverts encoding on every byte string |
| Base32.EncodeDecodeIff | auth/src/shadow.rs:433-476 | text that decodes is given back by encoding exactly when it is upper case, has no spare letter and only zeros in the bits that make no byte |
| Base32.PushBase32 | auth/src/shadow.rs:460-476 | the 32-bit shift register appends the bits five at a time, for every byte string |
| Base32.DecodeBase32 | auth/src/shadow.rs:433-458 | the 32-bit shift register yields the bits eight at a time, and fails exactly on a letter outside both alphabets |
| Decimal.TextValue | auth/src/shadow.rs:391-422 | decimal text reads as its number |
| Decimal.ValueTextIff | auth/src/shadow.rs:363-422 | digits come back from their number exactly when they have no needless leading zero |
| Decimal.ParseUnsigned | auth/src/shadow.rs:363-389 | the checked loop accepts exactly the non-empty digit strings within the limit |
| Decimal.PushDecimal | auth/src/shadow.rs:391-422 | filling a fixed buffer from its end never underflows it and appends the shortest decimal text |
| Decimal.Widths | auth/src/shadow.rs:391-422 | ten and twenty places are enough for 32 and 64 bits |
| ShadowMeaning.KindIff | auth/src/shadow.rs:198-362 | a segment is refused exactly when it has no equals sign or nothing before the first one, and belongs to a field exactly when it starts with its name and an equals sign |
| ShadowMeaning.ParsesTo | auth/src/shadow.rs:171-278 | for every line and entry: the line parses to the entry exactly when it has the user name and the hash, every further segment has a key, each field is told as often as it must be in a form that says the entry's value, and the other segments are the trailing ones |
| ShadowLaws.OrderDoesNotMatter | auth/src/shadow.rs:198-259 | fields that read successfully read the same in any order that keeps the unknown ones in sequence |
| ShadowMeaning.ParsesIff | auth/src/shadow.rs:171-278 | a line parses exactly when it has a valid user name and an Argon2id hash of six parts, every further segment has a key, no known field is told twice or illegibly, and the five mandatory fields are there |
| ShadowMeaning.FirstFault | auth/src/shadow.rs:198-259 | reading the fields fails exactly when one is faulty, with the fault of the first: no key, told before, or illegible |
| ShadowMeaning.ErrorIs | auth/src/shadow.rs:171-278 | which error a line gives: the user name, the hash, the first faulty field, then the first missing one |
| ShadowRoundTrip.RequirementWrittenIff | auth/src/shadow.rs:297-327 | the line of every entry a reader can produce has a TOTP requirement exactly when it is set, and always the five mandatory fields |
| ShadowRoundTrip.RecordReadsBack | auth/src/shadow.rs:171-327 | every entry a reader can produce reads back from its text, an empty secret becoming none |
| ShadowRoundTrip.ParsedIsShaped | auth/src/shadow.rs:171-361 | a parsed entry has a valid user name, a five-dollar Argon2id hash, and unknown fields with keys, none containing separators |
| ShadowRoundTrip.NormalForm | auth/src/shadow.rs:171-327 | for every line that parses, the rewritten line parses and rewrites to itself |
| ShadowRoundTrip.ReorderedLine | auth/src/shadow.rs:171-278 | a line with its fields in another order, unknown ones in sequence, parses to the same entry |
| ShadowFile.FileRoundTripIff | auth/src/shadow.rs:282-338 | a list of entries reads back unchanged from its file exactly when every entry is well formed |
| ShadowFile.RewriteIsIdentityIff | auth/src/shadow.rs:110-327 | a line that parses is rewritten letter for letter exactly when its fields are in canonical order with canonical values |
| ShadowFile.LeadingZeroIsRewritten | auth/src/shadow.rs:110-406 | a line with a leading zero parses and is rewritten to a different text |
| Shadow.CheckUsername | auth/src/shadow.rs:342-352 | rejects exactly the empty name and names with a colon, a NUL or a newline |
| Shadow.Reader.ReadKnown | auth/src/shadow.rs:198-250 | a known field is stored unless it was seen before or cannot be read, with the matching error |
| Shadow.ReadSegments | auth/src/shadow.rs:198-259 | the loop computes the fold, stopping at the first error |
| Shadow.ReadRecord | auth/src/shadow.rs:171-278 | computes the specified entry or error for every line |
| Shadow.ReadFile | auth/src/shadow.rs:282-291 | skips empty lines and returns the entries or the first error |
| Shadow.WriteRecord | auth/src/shadow.rs:297-327 | appends exactly the canonical fields, the TOTP requirement only when set, and the unknown fields |
| Shadow.WriteFile | auth/src/shadow.rs:331-338 | writes each record on its own line |
| Lockout.SourcesAreIndependent | auth/src/console_login.rs:168-521 | over every interleaving, what a source is told and the record kept on it depend on its own rounds alone |
| Lockout.FailuresAreThrottled | auth/src/console_login.rs:192-517 | in every run and however the clock jumps, the n-th failed verification since the last login, n at least 5, comes at least 60 (n - 5) seconds after the fifth, up to the end of the 64-bit clock |
| Lockout.LockedExactly | auth/src/console_login.rs:192-216 | after every run a source is locked exactly while it has five failures since its last login and the last is less than a minute old |
| Lockout.RoundIs | auth/src/console_login.rs:464-521 | what a round records follows from the history alone: refused while locked, and otherwise what the attempt deserves |
| ConsoleLogin.LockoutMap.IsLocked | auth/src/console_login.rs:192-199 | the scan answers for the source's own record |
| ConsoleLogin.LockoutMap.RecordFailure | auth/src/console_login.rs:203-216 | counts with saturation, locks for a minute from the fifth failure on, extends no running lock, touches no other source |
| ConsoleLogin.LockoutMap.RecordSuccess | auth/src/console_login.rs:219-223 | forgets the source and nothing else |
| ConsoleLogin.LookupUser | auth/src/console_login.rs:433-442 | the full scan finds the first entry with the name |
| ConsoleLogin.LookupIff | auth/src/console_login.rs:433-442 | the entry found is the first with the name, and none is found exactly when there is none |
| ConsoleLogin.JudgeIff | auth/src/console_login.rs:464-554 | an attempt is right exactly when both lines were read and the password verifies against the first entry of that name; interruptions are told apart |
| ConsoleLogin.RunLoginRound | auth/src/console_login.rs:464-554 | the lockout table moves by the throttle's step; a locked source is refused before anything is read; access is granted exactly on the named user's matching hash and a granted session; interrupted prompts and a full session table are told apart |
| AtomicWriteSpec.HoldsIff | auth/src/atomic_write.rs:166-229 | a path holds its last acknowledged contents over every run of writes, crashes and clean-ups, whole or cut short, exactly when it does not end in `.tmp` |
| AtomicWriteSpec.RecoveryIsClean | auth/src/atomic_write.rs:166-229 | after any run of writes, crashes and clean-ups, cleaning a directory, named with or without its slash, leaves exactly its acknowledged files and changes nothing outside it |
| AtomicWrite.TestWriter.WriteAtomic | auth/src/atomic_write.rs:167-197 | is the model's write with the fault the switches ask for, acknowledged exactly without error, and clears the switch it used |
| AtomicWrite.TestWriter.CleanupOrphanTmp | auth/src/atomic_write.rs:199-221 | the removal loop is the model's clean-up |
| AtomicWrite.KernelWriter.InstallBackend | auth/src/atomic_write.rs:297-304 | the first file system offered is kept and every later one refused |
| AtomicWrite.KernelWriter.WriteAtomic | auth/src/atomic_write.rs:318-333 | without a backend it is refused; otherwise it is the model's write with the fault the backend's answers amount to, acknowledged exactly without error; and at every moment, half-written staging file included, a path that is no staging file shows its old contents or, if it is the one written, the new ones |
| AtomicWrite.KernelWriter.CleanupOrphanTmp | auth/src/atomic_write.rs:335-339 | without a backend it is refused; otherwise it is the model's clean-up, or, when the backend fails, the model's cut clean-up that removed some staging files |
| Phc.PhcIsWellFormed | security/src/argon2id.rs:754-771 | for every salt, tag and parameters the hash string is one a shadow record accepts |
| Phc.Base64RoundTrip | security/src/argon2id.rs:885-957 | decoding inverts encoding on every byte string |
| Phc.Base64DecodesIff | security/src/argon2id.rs:910-957 | text decodes exactly when it is over the alphabet and its last group is not a single letter |
| Phc.Base64Examples | security/src/argon2id.rs:885-908 | two byte strings whose text uses letters of all five kinds, as in section 4 of RFC 4648 |
| Phc.PhcParsesIff | security/src/argon2id.rs:775-855 | a hash string is accepted exactly when it has the six parts, the variant, the version, readable costs in range, and a salt and a tag that decode to lengths in range |
| Phc.PhcFrontError | security/src/argon2id.rs:792-810 | which complaint about the front of a hash string comes first |
| Phc.CostIff | security/src/argon2id.rs:815-839 | a cost is read exactly from one of three letters, an equals sign and digits that fit 32 bits |
| Phc.PhcReadsBack | security/src/argon2id.rs:754-855 | a hash string reads back as its parameters, salt and tag exactly when these are in range |
| Phc.EnrolledVerifies | security/src/argon2id.rs:730-748 | a stored hash string accepts its own password, and another exactly when the two hash alike |
| FirstBoot.DecidesIff | auth/src/console_login.rs:601-616 | the machine is set up exactly when there is no file or nothing but blanks in it; any other file that cannot be read stops the boot with the reason |
| FirstBoot.RootLine | auth/src/console_login.rs:346-362 | the file that holds a new root account, part by part |
| FirstBoot.RootLogsIn | auth/src/console_login.rs:464-521 | after the first boot exactly the user name root with a password that hashes like the one typed is let in |
| FirstBoot.BootFindsAccounts | auth/src/console_login.rs:601-616 | booting from a stored list of well-formed accounts finds exactly those accounts |
| FirstBoot.AskTwice | auth/src/console_login.rs:303-345 | a password is chosen only when it is not empty and was typed twice in a row |
| FirstBoot.TryIs | auth/src/console_login.rs:303-345 | how a try goes and which lines it takes, for every script of lines |
| FirstBoot.ThreeTries | auth/src/console_login.rs:290-345 | the conversation is decided by the first of its three tries that is not to be repeated, and given up if there is none |
| FirstBoot.CreatedIff | auth/src/console_login.rs:346-383 | an account is created exactly when the salt is long enough, the path is named, a file system is there and the write goes through; and otherwise the first of these that fails |
| FirstBoot.ChoosePassword | auth/src/console_login.rs:290-345 | a password chosen is not empty and was typed twice in a row; with a working screen the answer is exactly that of the conversation of at most three tries |
| FirstBoot.FirstBootSetup | auth/src/console_login.rs:281-368 | with either writer, the in-memory one or the kernel's: success means the stored file is the root account for a password typed twice and a reboot finds exactly it, and that password verifies against the stored hash; on an error, a missing backend, a torn stage, a failed flush or a failed rename included, every readable path is unchanged, except that a failing screen can leave the account created; with a working screen the answer is exactly determined by the conversation and the writer's fault |
| FirstBoot.AccountSurvives | auth/src/console_login.rs:601-616 | the account is found after every later run of crashes, failed writes and clean-ups until another file is acknowledged |
| Checkpoint.SelectsBest | formal/kani/f2fs_fsync.rs:71-87 | a pack is selected exactly when one is valid; it is valid, none valid has a higher version and no earlier one the same |
| Checkpoint.SelectCheckpoint | formal/kani/f2fs_fsync.rs:71-87 | the loop picks that pack |
| Checkpoint.CutLeaves | formal/kani/f2fs_fsync.rs:92-123 | what a commit cut at each step leaves before a remount: the pack in use untouched, the other valid from its header and whole from its journal on, the slot switched at the very end |
| Checkpoint.FreshIsSound | formal/kani/f2fs_fsync.rs:128-145 | a fresh volume is sound and empty |
| Checkpoint.CommitWithCrash | formal/kani/f2fs_fsync.rs:92-123 | leaves exactly the state of a commit cut at that point |
| Checkpoint.CommitHoldsIff | formal/kani/f2fs_fsync.rs:71-123 | a remount finds a completed commit exactly while the 32-bit version has not run out |
| Checkpoint.MountedIsPersisted | formal/kani/f2fs_fsync.rs:71-123 | after every run of commits cut at any step, the mounted pack is that of the last one that wrote its header, with a whole journal exactly when it got that far |
| Checkpoint.AcknowledgedIsDurable | formal/kani/f2fs_fsync.rs:71-170 | over every run from a sound volume, such as a fresh one, a checkpoint is selectable, the other slot is strictly older, and the mounted size is that of the last acknowledged commit or of one attempted after it |
| Checkpoint.JournalIsNotChecked | formal/kani/f2fs_fsync.rs:71-117 | a commit cut between header and journal is mounted without its journal |
| LatencyStats.Isqrt | bench/src/lib.rs:175-186 | the exact floor square root for every 64-bit number |
| LatencyStats.Fits | bench/src/lib.rs:180-184 | no sum the iteration forms exceeds 64 bits |
| LatencyStats.PercentilesInOrder | bench/src/lib.rs:98-172 | min, p50, p99, p999 and max are samples in that order, and every sample lies between min and max |
| LatencyStats.PercentileShare | bench/src/lib.rs:98-172 | for samples in any order, at least 50, 99 and 99.9 percent of them are at or below p50, p99 and p999, and at least the remaining share at or above |
| LatencyStats.AnnouncedIff | bench/src/lib.rs:150-172 | the rank is the announced number of tenths of a percent for every number of samples exactly when the percentage is 0 or above 100 |
| LatencyStats.OrderDoesNotMatter | bench/src/lib.rs:98-140 | samples in any order give the same statistics |
| LatencyStats.JitterBounds | bench/src/lib.rs:143-147 | no sample is further from the mean than the jitter, even if the total wrapped |
| LatencyStats.JitterIsAttained | bench/src/lib.rs:143-147 | some sample is exactly that far from the mean |
| LatencyStats.MeanInRange | bench/src/lib.rs:104-111 | while the total fits 64 bits it is the sum of the samples, and the mean is its integer quotient by their number and lies between min and max |

## Left out

- LruCache.LruCache.Get: its counters are unbounded.
- LruCache.LruCache.Put: its counters are unbounded, and it does not require block-sized data as a debug build would.
- Delta.ApplyDelta: takes any 64-bit new size; running out of memory for a huge one is not modelled.
- SlotUpdate.ApplyDeltaToPartition: takes partitions shorter than 2^63 bytes, and leaves out 32-bit hosts and running out of memory for huge images.
- Base32.DecodeBase32: reserving room for the output is not modelled.
- LatencyStats.PercentilesInOrder: the product of the sample count and the percentile is unbounded, so lists of more than 2^54 samples are not covered as the source would treat them.
- Standard deviation: its narrowing to 64 bits needs a range assumption for little gain; the square root under it is here.
- Printing of numbers that are not whole: the formatter is a parameter. The sign of zero is not modelled.
- JSON error texts and the byte slices in them, and the accessors on JSON values.
- Reading the DOT graph: the gate starts from the list of `uses` edges.
- The write coalescer, the cache-budget validator and the overlay boot handlers: they would only add easy members.
- The UEFI mirror and the watchdog's timer and drivers beside the boot record; the write trail of a disk records whole blocks.
- Argon2id, ML-DSA-65, SHA-3, the squashfs, F2FS and GPT readers: parameters or assumed results.
- The session table, prompts and banners of the login round: the grant of a session is a parameter and what is printed is not recorded.
- File permissions of the shadow file, the mapping of gRPC status codes, the exporter's state file and TOML form.
- Timing behaviour, such as the constant-time user lookup.
- Container, kubelet, IPC, scheduler and device code.
