# PAF delta and patch pipeline, verified

A Dafny 4.11 model of the core of `libpaf`: the PAF archive writer and readers, the PAFD binary delta, the
difference of two archive indexes, patch creation and its atomic application, SHA-256 in its four forms, the
glob matcher, batch extraction with worker threads, and the virtual tree of the ProjFS provider. Check it with
`dafny verify dfyconfig.toml`.

## How it is organised

| module | what it models |
|---|---|
| `Bytes`, `Seqs`, `Codec` | bytes, little- and big-endian integers, file reads; slice facts; printing and parsing lists of records |
| `Probing`, `BlockTable`, `DeltaIndex` | linear probing, the block table of the binary delta, the difference of two listings |
| `GrowBuffer`, `BinaryDelta`, `BlockDiff` | the growing buffer, PAFD instructions and their replay, the greedy 4 KB block diff |
| `Hashing`, `Sha256Compression`, `Sha256Stream`, `Sha256Kernels` | padding and folding, the compression function, the streaming context, the other three paddings |
| `Sha256Constants`, `Sha256Laws`, `Sha256Example` | what the constants, the rotations and the bit operations are, and the digest of "abc", computed round by round |
| `Glob` | `fnmatch`, ignore rules, archive search |
| `ArchiveFormat`, `Generator`, `ArchiveReader`, `ArchiveRoundTrip` | the container, its batching writer, listing and extraction, and that reading undoes writing |
| `OnDisk` | the bytes of both formats: where each field stands and in which order its bytes are |
| `Directory`, `DeltaApply` | a directory as a flat map from path to bytes; the two direct appliers |
| `StagedApply`, `AtomicApply` | the atomic applier as a machine over file operations, and the C loop as steps of that machine |
| `SafePaths` | which paths it can ever change, in terms of their bytes |
| `PatchBuild`, `PatchEntries` | patch creation; what each entry of a created patch does |
| `StagedEffects`, `StageClashes`, `PatchOrders` | what a list of entries leaves, path by path; when a file called like a stage file is harmed; which directories every patch works for |
| `PatchTheorems` | end-to-end correctness, crash safety and recovery |
| `Collisions` | by counting, digests of 32 bytes do not tell all files apart |
| `Parallel`, `BatchExtract` | the thread partition under any schedule; batch extraction |
| `VirtualTree` | the directory tree built from the flat list |

Code that updates state in place is modelled by classes and arrays with loops: the block table, the growing
buffer, the SHA-256 context, the generator with its batch buffer, the target directory, the hash map of the
index delta, the flat buffer of an extraction batch, the tree. Each such method is proved against a
specification function or predicate, and the theorems are about those.

The machine of `StagedApply` has one step per file operation of `paf_patch_apply_atomic`: create the stage
file, append some more bytes, remove, rename. A run may be cut off after any step and the whole application
started again on the directory it left. Each operation of `AtomicApply.Target` can only be performed as a step of this
machine, so what is proved about runs holds between any two operations of the loop.

Several results hold under an exact condition, which is proved as such:

- Patch creation and both direct appliers compare files by digest only, so a path whose old and new contents have
  the same digest is left alone: the direct appliers reach the new directory if and only if the digest tells the
  contents of every common path apart, and for the atomic one this is one of the conditions. For no compression function
  does it do so for all contents. Recovery after a crash needs no such condition when it is stated in digests.
- A PAFD replay reads outside the old file if and only if the first instruction that does not fit is a COPY whose
  64-bit sum wraps back into it (`libpaf/src/paf_binary_delta.c:223`); a concrete delta does so. In C the outcome is
  then undefined, so a run of the replay in the model ends there; the machine may go on with any bytes, and crash
  safety is proved for that too. Deltas made by `BlockDiff.Create` never stray.
- The stage file of a path `q` is `q.paf_stage`, so a file of either directory with that name is overwritten and gone
  when `q` is written (`libpaf/src/libpaf_patch.c:184-235`), unless its own entry comes in time: a deletion before, an
  addition after, or an update after that needs nothing of the old contents. A patch works if and only if every such
  file has such an entry, besides the other conditions (`StageClashes.PatchExact`). Since a patch lists the old paths
  in walk order and then the new ones, this comes down to a condition on the two directories and that order, which
  holds if and only if every patch that can be built of them works (`PatchOrders.EveryPatchWorks`). A file whose
  digest does not change is lost if and only if its name is that of a stage file (`StageClashes.KeptIff`).
- A changed path that is unsafe or too long for the applier is skipped and counted, so the new directory is reached
  only if there is none; paths that do not change may have any name. When no stage file gets in the way the error count
  is the number of such paths (`StageClashes.RefusalsCounted`).
- Recovery ends with the new directory, in digests, if and only if every path lands, a condition on the patch that does
  not depend on the interruptions (`PatchTheorems.Recovery`).
- Batch extraction compares the entries of a batch whose sizes add up to zero with hashes that were never computed
  (`libpaf/src/paf_extractor_gpu.c:522-529`): the result is independent of them if and only if every batch is hashed or
  has no entry that was read whole.
- A batch leaves its flat buffer if and only if its sizes add up to 2^64 or more, unless the sum wraps to zero and the
  file holds not a byte of its entries (`libpaf/src/paf_extractor_gpu.c:498-529`). In C the outcome is then undefined,
  so a run of the model ends there.
- Which of several writes to one path remains does not depend on the interleaving of the writer threads if and only if
  all threads that write the path write the same to it last, in the last batch that writes it
  (`BatchExtract.InterleavingIrrelevant`).
- An archive is the layout of what was added if and only if no accepted stream ended before its announced size, or no
  data is stored (`libpaf/src/paf_generator.c:192`). Its index can be read if and only if no more bytes are missing
  than the paths take, and it is the one that was written if and only if none are (`ArchiveRoundTrip.WrittenReads`).
- In the tree of a prefix-free list a file is found under its own path if and only if every name of it shows no
  backslash among its first 255 units and has nothing but backslashes behind them, and none of the names of 256 units
  or more hides behind an earlier file (`VirtualTree.OwnPath`): lookups turn backslashes into slashes and insertion
  does not (`projfs/paf_mount.c:143-200`). With short names this means no backslash, and without a backslash it means
  short names.

What a definition means is stated apart from it where code and specification share it: the paths the applier and the
extractor accept (`SafePaths.AcceptedIff`, `BatchExtract.WritableIff`), the bytes of both formats (`OnDisk`), the
constants and operations of SHA-256 (`Sha256Constants`, `Sha256Laws`, `Sha256Example`), the star of a pattern
(`Glob.PatternMeans`), the comparison of names (`VirtualTree.SameKeysIff`).

Where code and documentation differ, the model follows the code: data offsets in index entries count from the
start of the data block, while the repository's format description calls them absolute; an index-only archive keeps the
real sizes.

All proofs are explicit: a lemma that Dafny would otherwise try by induction on its own carries
`{:induction false}`.

## Side conditions

- Directories: fewer than 2^30 files, paths without NUL and under 1024 bytes, files under 2^32 bytes
  (`libpaf/src/libpaf_core.c:148`), no path twice.
- The block table keeps a free slot; `paf_create_patch` ensures it by its 128 MiB limit
  (`libpaf/src/libpaf_core.c:536`).
- Archives, where an exact condition is stated: the announced sizes, the index and the paths add up to less than 2^64
  bytes, digests have 32 bytes, and paths are without NUL and under 1024 bytes.
- Case folding in the virtual tree is any function on code units; where backslashes matter, none but the backslash
  folds onto it.

## Model

| member | source | states |
|---|---|---|
| `PatchTheorems.EndToEnd` | libpaf/src/libpaf_core.c:446-613 | a patch built from two directories, read back and applied to the old one, gives exactly the new one without an error if and only if the digest tells common paths apart, the applier accepts every changed path, and every file called like a stage file the patch writes has an entry of its own that comes in time; none of its deltas ever reads outside an old file |
| `PatchTheorems.CollisionIsMissed` | libpaf/src/paf_delta.c:70 | two contents with one digest: the patch for changing a file from one to the other has no entry at all, and applying it changes nothing |
| `PatchTheorems.SomeChangeIsMissed` | libpaf/src/libpaf_core.c:463-475 | whatever the compression function, SHA-256 not excepted, there are two different 33-byte contents for which every patch is empty |
| `Collisions.CollisionExists` | libpaf/src/sha256.c:41-85 | by counting: digests of 32 bytes cannot tell all files of 33 bytes apart |
| `PatchTheorems.UpdateDirectory` | libpaf/src/libpaf_patch.c:136-243 | the two C entry points run one after the other return 0 with the new directory if and only if that condition holds; it always does for directories that `EveryPatchWorks` calls updatable; in terms of the bytes of the paths: it does when different contents of a path have different digests, every path that differs is relative, has ".." nowhere and fits the buffer of 1024, and no file is harmed by being called like a stage file or none has a name that ends in ".paf_stage" |
| `PatchOrders.EveryPatchWorks` | libpaf/src/libpaf_core.c:463-494 | every patch that can be built of two directories works if and only if the digest tells common paths apart, every path that differs is accepted, and every file called like the stage file of a path the patch writes is unharmed by the order in which the old paths are walked and the new ones follow |
| `StageClashes.PatchExact` | libpaf/src/libpaf_patch.c:158-242 | the same for the entries of one patch, in whatever order they stand |
| `StageClashes.KeptIff` | libpaf/src/libpaf_patch.c:184-235 | a path whose digest does not change keeps its contents if and only if the patch writes no path that has it as its stage file |
| `StageClashes.RefusalsCounted` | libpaf/src/libpaf_patch.c:165-176 | when no stage file gets in the way the error count is the number of changed paths that are unsafe or too long |
| `PatchTheorems.PatchCrashSafety` | libpaf/src/libpaf_patch.c:158-238 | at every moment of any interrupted and repeated application of a created patch, whatever the names of the files, a path that is no stage file holds its old contents, contents with its new digest, or nothing if it is to go |
| `PatchTheorems.Recovery` | libpaf/src/libpaf_patch.c:136-243 | after any number of interruptions one complete application leaves exactly the new paths, each with the digest of its new contents, if and only if every path lands, which depends on the patch but not on the interruptions; its error count is the number of entries that do not succeed on what the interruptions left, so it is not 0 once a deletion has been carried out |
| `PatchTheorems.PathRecovered` | libpaf/src/libpaf_patch.c:158-238 | the same for one path, in both directions: a delta replayed over a file that was already updated either fails, or ends with the new digest; a path that is also a stage file arrives exactly if its entry copes with finding it gone |
| `PatchTheorems.UpdatableLands` | libpaf/src/libpaf_patch.c:136-243 | directories for which every patch works are fit for recovery too: every path lands, even where the digest does not tell contents apart |
| `PatchEntries.PatchReadsBack` | libpaf/src/libpaf_core.c:494-576 | the index, paths and data of a created patch decode to one plan per change: delete, replay a delta, write a file, or skip a path the applier refuses |
| `PatchEntries.PatchStorable` | libpaf/src/libpaf_core.c:488-606 | all sizes and offsets of a patch fit their fields when files are under 2^32 bytes and each directory has fewer than 2^30 |
| `StagedEffects.PlansLeave` | libpaf/src/libpaf_patch.c:158-238 | what applying any list of entries leaves at any path: the effects of the entries that own it or stage in it, in order, and of no others |
| `StagedEffects.ErrorsCounted` | libpaf/src/libpaf_patch.c:158-242 | the error count of applying any list of entries is the number of entries that do not succeed on what the entries before them left at their paths |
| `StagedEffects.AstrayIff` | libpaf/src/libpaf_patch.c:198 | applying any list of entries reads outside an old file if and only if some entry's delta does on what the entries before it left at its path |
| `PatchEntries.ChangeEffect` | libpaf/src/libpaf_core.c:494-574 | each kind of entry succeeds on the old contents of its path and produces the new ones |
| `PatchEntries.ChangeOnNothing` | libpaf/src/libpaf_patch.c:179-235 | on a path where nothing is left an addition, and an update that does not need the old contents, write the new ones, and any other entry fails |
| `PatchEntries.ChangeRecovers` | libpaf/src/libpaf_patch.c:189-235 | each kind of entry, applied to whatever an interruption may have left at its path, ends with the new digest |
| `PatchEntries.ItemReadsBack` | libpaf/src/libpaf_patch.c:160-208 | the checks on path length, path safety, full path length and flags decode a written entry to the plan of its member |
| `PatchEntries.DeltaExplains` | libpaf/src/paf_delta.c:36-105 | the changes of a patch, in terms of file contents: exactly one for each path whose presence or digest differs |
| `PatchBuild.CreatePatch` | libpaf/src/libpaf_core.c:446-613 | the patch file is the archive layout of the members of an exact delta of the two directories |
| `PatchBuild.WritePatch` | libpaf/src/libpaf_core.c:488-612 | the loop over the delta and the final assembly write header, data, index and paths of all members in order |
| `PatchBuild.WriteChange` | libpaf/src/libpaf_core.c:494-574 | one member: nothing stored for DELETED, the new file for ADDED, a binary delta for UPDATED when the old file has at most 128 MiB, else the new file; its flags are 4, 0 and 8 |
| `PatchBuild.Survey` | libpaf/src/libpaf_core.c:463-475 | writing an index-only snapshot of a directory and listing it gives each path once with the digest of its contents |
| `PatchBuild.SnapshotDescribes` | libpaf/src/libpaf_core.c:214-261 | the same as a statement about the snapshot bytes |
| `StagedApply.CrashSafety` | libpaf/src/libpaf_patch.c:158-238 | for any index, valid or not: along every interrupted run each path but stage files is untouched, has the digest of an entry for it, or is absent because an entry deletes it |
| `StagedApply.EntryAllOrNothing` | libpaf/src/libpaf_patch.c:160-238 | an entry either adds one error and leaves every path but stage files as it was, or succeeds and changes only its own path, to verified bytes or to nothing |
| `StagedApply.EntryStepLocal` | libpaf/src/libpaf_patch.c:174-235 | a single file operation changes a path other than the stage file only by renaming verified bytes onto it or by deleting it, and then the entry does not fail |
| `StagedApply.CompleteRun` | libpaf/src/libpaf_patch.c:158-242 | every complete run, however its writes are split, ends with the directory and error count of applying the entries one after the other |
| `StagedApply.RunMatches` | libpaf/src/libpaf_patch.c:158-238 | every state of a run lies on the way from the outcome of the entries before to that of the entry at hand |
| `AtomicApply.PatchApplyAtomic` | libpaf/src/libpaf_patch.c:136-243 | for any bytes: return codes -2 and -3 before anything is touched; otherwise every operation on the directory is a step of the machine, the application reads outside an old file exactly if some entry strays on what the entries before it left, and if none does directory and error count are those of the entries in order; no path ever changes but non-empty ones that start with neither slash nor backslash, have ".." nowhere and fit the buffer, and those with ".paf_stage" behind them |
| `AtomicApply.PatchStaysInside` | libpaf/src/libpaf_patch.c:130-238 | the same along every interrupted and repeated application of any bytes; every entry that is not refused has such a path |
| `SafePaths.AcceptedIff` | libpaf/src/libpaf_patch.c:130-176 | the applier accepts a path if and only if it is not empty, starts with neither slash nor backslash, is not two strings with ".." between them, and fits the buffer of 1024 beside the target path |
| `SafePaths.ChangesReachable` | libpaf/src/libpaf_patch.c:130-238 | whatever the entries are, at no moment of an interrupted and repeated application has a path changed that is neither such a path nor one with ".paf_stage" behind it |
| `OnDisk.RecordKind` | libpaf/src/libpaf_patch.c:173-189 | byte 12 of an index record says what a patch entry asks for: bit 2 a deletion, else bit 3 the replay of a delta; its digest is in bytes 32 to 63 |
| `OnDisk.PatchPathIff` | libpaf/src/libpaf_patch.c:159-166 | the path of a patch entry: 1 to 1023 bytes, all of them in the file, up to the first NUL |
| `OnDisk.StagedBytes` | libpaf/src/libpaf_patch.c:190-216 | what an entry stages stands behind the 32 bytes of the header at its data offset, and it is complete exactly if the file holds all of it |
| `AtomicApply.Target.ApplyEntries` | libpaf/src/libpaf_patch.c:158-238 | the loop over the index takes machine steps only, from the start to the end of the index or to the first entry that strays |
| `AtomicApply.Target.ApplyEntry` | libpaf/src/libpaf_patch.c:160-238 | one entry takes the machine from its beginning to the beginning of the next and reports whether it failed, unless its delta strays on the file at its path |
| `AtomicApply.Target.FillStage` | libpaf/src/libpaf_patch.c:189-221 | filling the stage file from a delta or from data reaches verification exactly when nothing failed and nothing strayed |
| `AtomicApply.Target.WriteStage` | libpaf/src/libpaf_patch.c:205-219 | chunked writes leave the stage file with exactly the produced bytes and never touch another path |
| `AtomicApply.Target.VerifyStage` | libpaf/src/libpaf_patch.c:223-229 | commit is reached exactly when the SHA-256 of the stage file is the one in the index |
| `AtomicApply.Target.RenameStage` | libpaf/src/libpaf_patch.c:231-235 | the verified stage file replaces the target in one step |
| `BlockDiff.DeltaRoundTrip` | libpaf/src/paf_binary_delta.c:91-235 | replaying the delta of two byte strings over any file that starts with the old one succeeds and writes exactly the new one, for every block hash, and over no file does it read outside the old bytes |
| `BlockDiff.Create` | libpaf/src/paf_binary_delta.c:91-179 | the C scan with its table, growing buffers and counters produces exactly the bytes of the greedy diff |
| `BlockDiff.EmitScan` | libpaf/src/paf_binary_delta.c:118-154 | printed instructions and counter agree with the instructions of the scan at every position |
| `BlockDiff.ScanRound` | libpaf/src/paf_binary_delta.c:124-147 | one round emits the pending literal and one block copy at a match and only advances otherwise |
| `BlockDiff.FindMatch` | libpaf/src/paf_binary_delta.c:127-131 | lookup plus comparison succeeds exactly when the block occurs in the old file where the index says |
| `BlockDiff.ScanWrites` | libpaf/src/paf_binary_delta.c:118-154 | the instructions from any scan position write the pending literal and the rest of the new file |
| `BlockDiff.ScanGreedy` | libpaf/src/paf_binary_delta.c:118-147 | no byte sent in a literal starts a block the index would have matched, and copies are whole blocks at indexed offsets |
| `BlockDiff.NothingMissed` | libpaf/src/paf_binary_delta.c:116-159 | unless different blocks of the old file share a hash, the delta misses no block of it: at no byte sent in a literal does the new file hold 4096 bytes that are an aligned block of the old one; each copy is such a block and equal to the bytes it stands for |
| `BlockDiff.IndexIsLastBlock` | libpaf/src/paf_binary_delta.c:113-116 | the index maps a hash to the last aligned old block that has it and knows no other hash |
| `BlockDiff.DeltaSize` | libpaf/src/paf_binary_delta.c:74-177 | the delta has 16 bytes, 13 per instruction and the literal bytes, and the instruction count is bounded by 2 per block plus one per 65535 bytes plus one |
| `BlockDiff.ChunkCount` | libpaf/src/paf_binary_delta.c:74-139 | the ceiling division used for counting is the number of chunks the emitting loop writes; the ceiling of the length over 65535 |
| `BlockDiff.DeltaWithin` | libpaf/src/paf_binary_delta.c:91-179 | a delta is at most twice the new file plus 29 bytes |
| `BlockDiff.FewBlocks` | libpaf/src/libpaf_core.c:535-540 | an old file of 128 MiB has at most 32768 block hashes, so the table keeps a free slot |
| `BlockDiff.EmitLiteral` | libpaf/src/paf_binary_delta.c:74-87 | a literal run is appended as chunks of at most 65535 bytes |
| `BlockDiff.EmitMatch` | libpaf/src/paf_binary_delta.c:132-143 | the pending literal, then the copy, and how many instructions that is |
| `BlockDiff.BuildTable` | libpaf/src/paf_binary_delta.c:112-116 | inserting the aligned blocks in order leaves the table holding the index |
| `BinaryDelta.Apply` | libpaf/src/paf_binary_delta.c:183-235 | for any delta bytes and any old file: the replay reads outside the old bytes exactly if the first instruction that does not fit strays, and otherwise return code and output are those of the declarative replay; bytes that do not start 0x50 0x41 0x46 0x44 are refused |
| `BinaryDelta.RunInstructions` | libpaf/src/paf_binary_delta.c:210-230 | the replay loop terminates, stops at the first malformed, out-of-range or straying instruction, tells which, and has written what came before |
| `BinaryDelta.StraysIff` | libpaf/src/paf_binary_delta.c:223 | a COPY as the format can express it reads outside the old bytes if and only if there are some, offset plus size reaches 2^64, and the wrapped sum is within them |
| `BinaryDelta.StrayingDelta` | libpaf/src/paf_binary_delta.c:223 | a concrete 29-byte delta that does, over ten old bytes |
| `BinaryDelta.RefusedWrap` | libpaf/src/paf_binary_delta.c:223 | a concrete wrapping COPY that does not and is refused correctly |
| `BinaryDelta.AcceptanceIff` | libpaf/src/paf_binary_delta.c:183-235 | a replay succeeds with an output exactly when the delta starts with a header and as many printed in-range instructions as it announces, and the old file provides the prefix; the output is their concatenation |
| `BinaryDelta.ScriptIff` | libpaf/src/paf_binary_delta.c:185-218 | header and instruction bytes of a script and what the parser reads from them determine each other |
| `BinaryDelta.ParserInvertsPrinter` | libpaf/src/paf_binary_delta.c:67-87 | the instruction parser is sound and complete for the printed form, at every position of every byte string |
| `OnDisk.DeltaHeaderRead` | libpaf/src/paf_binary_delta.c:185-194 | a delta has a header exactly if these bytes stand there: 0x50 0x41 0x46 0x44, then the number of instructions and the size of the old file, 4 and 8 bytes, least significant first |
| `OnDisk.CopyRead` | libpaf/src/paf_binary_delta.c:214-223 | a COPY is read exactly from a byte 0, 8 bytes of offset and 4 of size, least significant first |
| `OnDisk.LiteralRead` | libpaf/src/paf_binary_delta.c:214-229 | a literal is read exactly from any other tag, two such fields and that many bytes |
| `OnDisk.DeltaStarts` | libpaf/src/paf_binary_delta.c:165-175 | every delta the writer makes starts 0x50 0x41 0x46 0x44, and its counts stand there least significant byte first |
| `GrowBuffer.Buffer.Push` | libpaf/src/paf_binary_delta.c:17-28 | appending keeps the earlier contents, whatever the reallocation |
| `BlockTable.Table.Insert` | libpaf/src/paf_binary_delta.c:47-54 | insertion updates the finite map the table represents, the last write winning, and ends while a slot is free |
| `BlockTable.Table.Find` | libpaf/src/paf_binary_delta.c:56-63 | lookup returns the latest offset of a hash or reports that it was never inserted, and ends while a slot is free |
| `Probing.StopMeansAbsent` | libpaf/src/paf_binary_delta.c:56-63 | a probe that stops at an empty slot has proved its key absent, across the wrap-around |
| `Probing.PutKeepsProbes` | libpaf/src/paf_binary_delta.c:47-54 | filling the slot where a probe stopped keeps every key reachable without a gap and adds exactly that key |
| `Probing.OneSlotPerKey` | libpaf/src/paf_binary_delta.c:47-54 | no key has two slots |
| `Probing.FreeSlotExists` | libpaf/src/paf_binary_delta.c:41-63 | fewer keys than slots leaves an empty slot, which bounds every probe |
| `DeltaIndex.Calculate` | libpaf/src/paf_delta.c:26-114 | the result is exactly the difference of two listings: old minus new DELETED, new minus old ADDED, common with different digest UPDATED, the last two with the new size, offset and digest, no path twice; the entries of old paths come first, in the order of the old listing |
| `DeltaIndex.OldFirstOrder` | libpaf/src/paf_delta.c:61-105 | before the entry of an old path there are only entries of paths that the old listing names sooner |
| `DeltaIndex.BuildMap` | libpaf/src/paf_delta.c:36-50 | the map holds every new path with its index, reachable by probing, all unmarked |
| `DeltaIndex.OldPaths` | libpaf/src/paf_delta.c:61-92 | after the second loop exactly the old paths are marked and the results are their expected entries in the order of the listing |
| `DeltaIndex.NewPaths` | libpaf/src/paf_delta.c:94-105 | the third loop adds exactly the unmarked paths, after all others |
| `DeltaIndex.Probe` | libpaf/src/paf_delta.c:63-82 | the probe finds a path exactly when the new list has it, and terminates |
| `DeltaIndex.ProbeFree` | libpaf/src/paf_delta.c:45-46 | the insertion probe ends at a free slot with no gap behind it |
| `DeltaApply.ApplyFromDir` | libpaf/src/libpaf_patch.c:50-81 | the directory and the negated error count are those of applying the entries in order from a directory |
| `DeltaApply.ApplyFromArchive` | libpaf/src/libpaf_patch.c:98-127 | the same from an archive, including the empty file a failed extraction leaves |
| `DeltaApply.OrderIrrelevant` | libpaf/src/paf_delta.c:132-135 | directory and error count are the same for every permutation of the entries, hence for every sort |
| `DeltaApply.ResultOfRun` | libpaf/src/libpaf_patch.c:55-80 | each changed path ends as its own entry leaves it, the others stay, and the errors are the failing entries |
| `DeltaApply.DeltaMeaning` | libpaf/src/libpaf_patch.c:50-127 | applying the delta of two directories to the old one reports no error, and gives the new one if and only if the digest tells common paths apart |
| `DeltaApply.SourcesAgree` | libpaf/src/libpaf_patch.c:98-127 | the archive and the directory it was made from lead to the same directory, in any order of the entries |
| `DeltaApply.ArchiveDelivers` | libpaf/src/libpaf_patch.c:115-121 | extracting any path of an archive delivers its bytes |
| `DeltaApply.ChangeLocates` | libpaf/src/paf_delta.c:62-104 | offset and size of an ADDED or UPDATED entry say where the bytes of the new file are in the archive the new listing was read from, counted from byte 32 |
| `Generator.Writer.AddFile` | libpaf/src/paf_generator.c:107-160 | adding by buffer or at once appends one member after everything added before, whatever streams came before; paths of 1024 bytes are refused |
| `Generator.Writer.AddFileStream` | libpaf/src/paf_generator.c:162-199 | for any stream, after any others: one member with the bytes that arrived, hashed chunk by chunk, under the announced size |
| `Generator.Writer.Flush` | libpaf/src/paf_generator.c:61-105 | a flush moves the buffered members to the files in order and changes nothing that was added |
| `Generator.Writer.Finalize` | libpaf/src/paf_generator.c:211-261 | the archive is assembled from everything added, in call order, data offsets following the announced sizes |
| `Generator.BuildArchive` | libpaf/src/paf_generator.c:107-261 | for every sequence of additions, streams with any announced size among them, and every mix of routes the archive depends only on the accepted members in call order, and it is their layout if and only if no accepted stream ends early or no data is stored |
| `Generator.CreateArchive` | libpaf/src/libpaf_core.c:191-210 | the archive of a directory walk, files read whole, streamed when empty or shorter than the walk saw them, left out when they cannot be opened: one member per file in walk order, and the layout of these if and only if no file shrank or no data is stored |
| `Generator.Spool.Put` | libpaf/src/paf_generator.c:133-143 | one member appended to the three temporary files keeps them the blocks of the archive, its data offset the sum of the sizes announced before it |
| `Generator.Spool.Assemble` | libpaf/src/paf_generator.c:217-260 | header and temporary files put together, index-only or not |
| `Generator.Batch.Push` | libpaf/src/paf_generator.c:149-157 | a buffered file stays readable in its slot; at most 4096 slots and 128 MiB are used |
| `ArchiveFormat.HeaderRoundTrip` | libpaf/include/paf.h:44-51 | a printed header reads back as itself |
| `OnDisk.HeaderRead` | libpaf/include/paf.h:44-51 | a file has a header exactly if these bytes stand there: 0x50 0x41 0x46 0x31, then five fields of 4, 4, 4, 8 and 8 bytes, each least significant byte first |
| `OnDisk.EntryRead` | libpaf/include/paf.h:66-74 | a record is an entry exactly if its fields stand at bytes 0, 8, 12, 16 and 24, least significant byte first, and the digest at 32 |
| `OnDisk.IndexFound` | libpaf/src/libpaf_list.c:22-27 | the index is read exactly if the file holds that many records of 128 bytes from the index offset on |
| `OnDisk.ArchiveStarts` | libpaf/src/paf_generator.c:192-260 | every archive the writer makes starts with the magic, 2 as the version, and 2 or 0 as the flags |
| `OnDisk.OneFileArchive` | libpaf/src/paf_generator.c:89-260 | the archive of one file of one byte, byte by byte |
| `Bytes.ByteOfLE` | libpaf/include/paf.h:44-51 | byte i of an integer on disk is the value over 256^i, modulo 256 |
| `Bytes.LittleIff` | libpaf/include/paf.h:44-51 | reading a field gives the one integer its bytes stand for, least significant first |
| `ArchiveFormat.EntryDecodes` | libpaf/include/paf.h:66-74 | a 128-byte record and the entry it encodes determine each other |
| `ArchiveFormat.Tiles` | libpaf/src/paf_generator.c:78-99 | data and path ranges of the entries follow one another from the start of their block to its end |
| `ArchiveFormat.Placed` | libpaf/src/paf_generator.c:87-96 | each entry points at its own data and path |
| `ArchiveFormat.LayoutReads` | libpaf/src/paf_generator.c:217-260 | reading the header and index of a layout gives back what was laid out |
| `ArchiveFormat.ArchiveMember` | libpaf/src/libpaf_list.c:30-41 | path and data of every member are found where its entry says, data counted from the data block |
| `ArchiveReader.List` | libpaf/src/libpaf_list.c:8-46 | status and entries of a listing for any bytes: -2 unless there are 32 bytes that start 0x50 0x41 0x46 0x31, -1 when the index is cut off, else as many entries as the bytes 12 to 15 say, least significant first |
| `OnDisk.EntryListed` | libpaf/src/libpaf_list.c:30-41 | what a listing says of an entry of any file: its path up to the first NUL, at most 1023 bytes and as far as the file goes, size and offset cut to 32 bits, and the digest |
| `ArchiveReader.FileExists` | libpaf/src/libpaf_exists.c:5-18 | a path exists exactly when the listing has it |
| `ArchiveReader.ExtractFile` | libpaf/src/libpaf_extract.c:20-69 | status and output of extracting a path from any bytes |
| `ArchiveReader.ListingOfArchive` | libpaf/src/libpaf_list.c:30-41 | a well-formed archive lists its members in order with path, size, offset and digest |
| `ArchiveReader.ListedBytes` | libpaf/src/libpaf_list.c:30-41 | while the data block is under 2^32 bytes, size and offset of a listed member say where its bytes are |
| `ArchiveReader.ExtractionOfArchive` | libpaf/src/libpaf_extract.c:20-69 | extracting a member gives its bytes, and a path no member has is refused with -4 |
| `ArchiveRoundTrip.ListingUndoesWriting` | libpaf/src/libpaf_list.c:8-46 | listing a finalized archive returns the added paths, sizes and SHA-256 digests in order |
| `ArchiveRoundTrip.ExtractionUndoesWriting` | libpaf/src/libpaf_extract.c:20-69 | extracting an added path returns the added bytes |
| `ArchiveRoundTrip.WriteThenExtract` | libpaf/src/libpaf_extract.c:20-69 | the C writer followed by the C reader returns status 0 and the file |
| `Generator.WrittenIff` | libpaf/src/paf_generator.c:192 | what is written is the layout of its members if and only if every announced byte is stored, or the archive is index-only |
| `Generator.AnnouncedIff` | libpaf/src/paf_generator.c:89-192 | the data counter is never behind the data file, and it is right if and only if every announced byte is stored, or the archive is index-only |
| `ArchiveRoundTrip.WrittenReads` | libpaf/src/paf_generator.c:192-260 | reading back any written archive: the index is found exactly when no more bytes are missing than the paths take, and it holds the written entries exactly when none are missing |
| `ArchiveRoundTrip.ShortStreamUnlisted` | libpaf/src/paf_generator.c:192 | an archive for which more bytes are missing than its paths take cannot be listed, and no path can be extracted from it |
| `Sha256Stream.Context.Update` | libpaf/src/sha256.c:47-58 | absorbing bytes keeps buffer, bit count and state in step with the message so far |
| `Sha256Stream.Context.Final` | libpaf/src/sha256.c:60-85 | the in-place padding finishes the fold of the compression function over the padded message of FIPS 180-4, sections 5.1.1 and 6.2.2 |
| `Sha256Stream.HashChunks` | libpaf/src/sha256.c:41-85 | any split of a message over updates gives the digest of the whole |
| `Sha256Stream.HashFileWith` | libpaf/src/libpaf_patch.c:84-96 | hashing a file in 65536-byte reads gives the digest of its contents |
| `Sha256Stream.HashFile` | libpaf/src/libpaf_patch.c:84-96 | with the compression function of the standard this is SHA-256; the file "abc" has the published digest, ba7816bf ... f20015ad |
| `Sha256Compression.Transform` | libpaf/src/sha256.c:24-39 | the in-place schedule, 64 rounds and additions compute the compression function of FIPS 180-4, section 6.2.2; constants, rotations and bit operations are pinned by the laws below, all together by the digest of "abc" |
| `Sha256Constants.RoundConstants` | libpaf/src/sha256.c:13-22 | each round constant is the first 32 bits of the fractional part of the cube root of its prime (FIPS 180-4, section 4.2.2) |
| `Sha256Constants.InitialHash` | libpaf/src/sha256.c:41-45 | the initial state is the first 32 bits of the fractional parts of the square roots of the first eight primes (FIPS 180-4, section 5.3.3) |
| `Sha256Constants.FirstPrimes` | libpaf/src/sha256.c:13-22 | the primes meant are the first 64, in order, none left out |
| `Sha256Example.AbcDigest` | libpaf/src/sha256.c:24-85 | the digest of "abc", computed through all 64 rounds |
| `Sha256Laws.RotrLower` | libpaf/src/sha256.c:5 | rotating right by n moves bit i + n to bit i |
| `Sha256Laws.RotrUpper` | libpaf/src/sha256.c:5 | and the n lowest bits to the top |
| `Sha256Laws.ChBits` | libpaf/src/sha256.c:6 | bit by bit, Ch takes the second or the third word as the first says |
| `Sha256Laws.MajBits` | libpaf/src/sha256.c:7 | bit by bit, Maj takes what at least two of the words have |
| `Sha256Laws.WordOfBytes` | libpaf/src/sha256.c:26-27 | reading four bytes as a big-endian word keeps them apart: printing the word, most significant byte first, gives them back |
| `Sha256Compression.ExpandSchedule` | libpaf/src/sha256.c:26-29 | the array of 64 words is the message schedule defined by the recurrence |
| `Sha256Compression.RunRounds` | libpaf/src/sha256.c:30-36 | the loop over eight variables computes the 64 rounds |
| `Hashing.ZeroCountIsLeast` | libpaf/src/sha256.c:61-70 | the number of padding zeros is the least that leaves room for the length |
| `Hashing.FinishFold` | libpaf/src/sha256.c:60-74 | after the whole blocks one or two tail blocks remain, and they are the ones the C code builds |
| `Hashing.BEModulo` | libpaf/src/sha256.c:71-73 | a 64-bit bit counter that wraps stores the same length field |
| `Sha256Kernels.PadBuffer` | libpaf/src/paf_sha256_hw.c:29-39 | the single padded buffer is the padded message of the standard |
| `Sha256Kernels.CudaKernel` | libpaf/src/win/paf_cuda_kernels.cu:46-86 | the block loop, rebuilt tail and stores of the CUDA kernel give the digest of the slice |
| `Sha256Kernels.CudaTail` | libpaf/src/win/paf_cuda_kernels.cu:67-77 | its tail blocks are those of the padded message |
| `Sha256Kernels.VulkanKernel` | libpaf/src/paf_sha256.comp:79-133 | the word-packed block loop and tail, over the in-place compression of the shader, store words that in little-endian memory are SHA-256 of the slice |
| `Sha256Kernels.ShaderCompress` | libpaf/src/paf_sha256.comp:62-77 | copying the words, the recurrence, the 64 rounds and the additions in place compute the word-level compression function |
| `Sha256Kernels.ShaderStep` | libpaf/src/paf_sha256.comp:62-77 | on the packed words of a block this is the byte-level compression function |
| `Sha256Kernels.VulkanTail` | libpaf/src/paf_sha256.comp:102-124 | its one or two word blocks are those of the padded message, for every length |
| `Sha256Kernels.PackRemaining` | libpaf/src/paf_sha256.comp:102-113 | or-ing single bytes into zeroed words packs the remaining bytes and the 1 bit |
| `Sha256Kernels.LoadBlock` | libpaf/src/paf_sha256.comp:95-97 | unaligned big-endian word reads from little-endian words give the words of the block |
| `Sha256Kernels.SwappedDigest` | libpaf/src/paf_sha256.comp:126-132 | the swapped words, stored little-endian, are the digest bytes |
| `Glob.Fnmatch` | libpaf/src/fnmatch.c:4-27 | returns 0 exactly when the pattern matches by the declarative relation and 1 otherwise, though only the latest star is retried, and terminates |
| `Glob.PatternMeans` | libpaf/src/fnmatch.c:4-27 | the relation itself: a pattern without a star (byte 42) matches itself only; with one, what begins with the bytes before it and goes on, after any bytes, with a match of what follows it |
| `Glob.MatchIgnore` | libpaf/src/libpaf_core.c:90-95 | a name is ignored exactly when some rule matches it |
| `Glob.NewStar` | libpaf/src/fnmatch.c:10-13 | forgetting an earlier star when a new one is reached loses no match |
| `Glob.Mismatch` | libpaf/src/fnmatch.c:17-19 | on a mismatch, retrying the latest star one byte later keeps the question the same |
| `Glob.SearchFiles` | libpaf/src/paf_gpu.c:129-151 | the first max matching indices, in order, none skipped |
| `Parallel.AnySchedule` | libpaf/src/paf_parallel.h:81-109 | every interleaving of the workers, whatever they write, has at most n steps, is finished exactly after n, and then every key on which the workers agree has the value of the sequential loop |
| `Parallel.ScheduleIrrelevant` | libpaf/src/paf_extractor_gpu.c:372-412 | the schedule does not matter at a key if and only if all workers that write it write the same to it last |
| `Parallel.ScheduleProgress` | libpaf/src/paf_parallel.h:25-29 | after k steps exactly k distinct items are done and every key holds the latest write of some worker, or its old value while none has written it |
| `Parallel.OneOwner` | libpaf/src/paf_parallel.h:98-103 | every index below n belongs to exactly one range |
| `Parallel.RangesFollow` | libpaf/src/libpaf_core.c:405-410 | each range starts where the one before ends, the first at 0, the last ends at n |
| `Parallel.NoIdleWorker` | libpaf/src/paf_parallel.h:84-87 | with at most as many workers as items no range is empty |
| `Parallel.RunWorkers` | libpaf/src/paf_parallel.h:81-109 | workers interleaved at will leave each result in its place; the loop is a schedule of the pool |
| `Parallel.ParallelHash` | libpaf/src/paf_parallel.h:81-109 | the hash array is that of the sequential loop over the slices |
| `Parallel.InOrderLast` | libpaf/src/paf_parallel.h:92-93 | the sequential loop leaves the last write of each key |
| `BatchExtract.Run` | libpaf/src/paf_extractor_gpu.c:433-564 | for any index, total sizes of 2^64 and more included, and any former contents of the hash arrays: a run leaves its buffer exactly if some batch does; otherwise its error count is exact, its files are what some interleaving of the writer threads leaves, and when every path is settled they are those of the batches written by one thread; when moreover every batch is hashed they are those of one sequential pass over all entries, whatever the video memory; whatever the file holds, no path changes but non-empty ones that start with neither slash nor backslash, have no ".." before a separator or at the end, and fit the buffer of 2048; a well-formed archive of members with such paths, all different, is extracted whole: 0, every member under its path, nothing else changed, if every batch is hashed or no member is empty |
| `BatchExtract.WritableIff` | libpaf/src/paf_extractor_gpu.c:27-35 | the extractor writes exactly such paths |
| `BatchExtract.ArchiveLands` | libpaf/src/paf_extractor_gpu.c:433-564 | however an archive of such members is cut into batches and the threads interleave, every member lands |
| `BatchExtract.StraysIff` | libpaf/src/paf_extractor_gpu.c:498-529 | a batch leaves its buffer if and only if its sizes add up to 2^64 or more, unless the sum wraps to zero and the file holds not a byte of its entries |
| `BatchExtract.InterleavingIrrelevant` | libpaf/src/paf_extractor_gpu.c:372-412 | over all batches, the interleaving of the writer threads does not matter for a path if and only if the threads agree on it in the last batch that writes it |
| `BatchExtract.DistinctSettled` | libpaf/src/paf_extractor_gpu.c:372-412 | when the verified entries have different paths and every batch is hashed, every path is settled |
| `BatchExtract.StaleIrrelevant` | libpaf/src/paf_extractor_gpu.c:522-541 | the result is independent of what the uninitialised hash arrays hold if and only if every batch is hashed or has no entry to compare |
| `BatchExtract.BatchesAgree` | libpaf/src/paf_extractor_gpu.c:479-557 | if every batch is hashed or has no entry to compare, processing in batches of any size is one sequential pass |
| `BatchExtract.ExtractAll` | libpaf/src/paf_extractor_gpu.c:479-557 | the batch loop covers each entry once, for every batch size, up to the first batch that leaves its buffer |
| `BatchExtract.ExtractBatch` | libpaf/src/paf_extractor_gpu.c:479-545 | one batch, with or without data: whether it leaves its buffer, how many entries do not pass, and files that some interleaving of the writers of exactly its verified entries leaves, equal paths not excluded |
| `BatchExtract.LoadAndHash` | libpaf/src/paf_extractor_gpu.c:497-541 | unless a read or a hash leaves the flat buffer, the flags say which entries verify, or, when the sizes add up to zero, which digests the hash array happened to hold, and every entry that passes lies in the buffer |
| `BatchExtract.LoadBatch` | libpaf/src/paf_extractor_gpu.c:65-88 | up to the first read that leaves the buffer: which entries were read whole, and, while the total fits 64 bits, each slice holds the data of its entry and no read disturbs another slice |
| `BatchExtract.LayOut` | libpaf/src/paf_extractor_gpu.c:498-506 | offsets are the prefix sums of the sizes in 64-bit arithmetic |
| `BatchExtract.SlicesApart` | libpaf/src/paf_extractor_gpu.c:498-506 | while the total fits 64 bits, slices at prefix-sum offsets never overlap and stay inside the buffer |
| `BatchExtract.CheckHashes` | libpaf/src/paf_extractor_gpu.c:531-541 | the verified flags and the number of entries that are not |
| `BatchExtract.WriteParallel` | libpaf/src/paf_extractor_gpu.c:372-412 | the writer threads, in any interleaving and with equal paths among the files, leave what a schedule of the pool leaves |
| `BatchExtract.ArchiveExtracts` | libpaf/src/paf_extractor_gpu.c:112-143 | extracting a well-formed archive puts every member under its path, reports no error and touches no other file, for members stored whole whose paths start with neither slash nor backslash, have no ".." before a separator or at the end, and fit the buffers |
| `BatchExtract.CalculateBatch` | libpaf/src/paf_gpu.c:63-84 | the number of files and bytes of a batch, 64- and 32-bit truncation included |
| `BatchExtract.BatchIsLargest` | libpaf/src/paf_gpu.c:66-82 | the batch has between 1 and all files, more than 1 only if that many fit beside 256 MiB of reserved memory, and no more would fit unless the quotient exceeds 32 bits |
| `BatchExtract.SearchFiles` | libpaf/src/paf_gpu.c:129-151 | the search over the readable paths of an index, -1 when no result is wanted |
| `VirtualTree.Resolve` | projfs/paf_mount.c:183-200 | in the tree of any list a path with a name of 256 units or more is missing and any other means what its key says; in a prefix-free list a file is found under its own path if and only if every name of it shows no backslash and loses nothing but backslashes to clipping, and none of the long ones hides behind an earlier file; with short names that means no backslash, without a backslash only short names; every other spelling of a path, with slashes and backslashes for each other and units equal up to case, gives the same result, so each such spelling of a file's path gives the file; with short names a path gives a file exactly if its names are those of the file's path up to case |
| `VirtualTree.SpellingIrrelevant` | projfs/paf_mount.c:118-200 | in any list, a path and another spelling of it resolve to the same: as many units, separators at the same places, equal up to case elsewhere |
| `VirtualTree.FoundIff` | projfs/paf_mount.c:118-200 | in a prefix-free list a path resolves to a file with short names if and only if it has as many names and each is equal up to case |
| `VirtualTree.DirectoryIff` | projfs/paf_mount.c:143-200 | in a prefix-free list of short names a path resolves to a directory if and only if it has no names or its names are, up to case, the first ones of a file |
| `VirtualTree.PrefixFreeIff` | projfs/paf_mount.c:143-180 | what prefix-free means for short names: every path has a name, and no file's names are, up to case, the first ones of another |
| `VirtualTree.SameKeysIff` | projfs/paf_mount.c:118-124 | short names lead to the same node if and only if they are equal up to case, one by one |
| `VirtualTree.TokensAre` | projfs/paf_mount.c:153-178 | the components of a path: those before a slash and those after it; what has no slash is one component |
| `VirtualTree.LookupSees` | projfs/paf_mount.c:186-193 | a lookup sees the first 1023 units of a path |
| `VirtualTree.OwnPath` | projfs/paf_mount.c:143-200 | the condition under which a file is found under its own path, in both directions |
| `VirtualTree.OwnKey` | projfs/paf_mount.c:183-200 | a path is looked up under the key it is stored with if and only if each of its names shows no backslash and loses nothing but backslashes to clipping |
| `VirtualTree.ClippedBackslash` | projfs/paf_mount.c:183-200 | a name of 255 units followed by a backslash is found, although its stored form is clipped |
| `VirtualTree.MeansFile` | projfs/paf_mount.c:143-180 | in a prefix-free list a key means a file if and only if it is the key of that file and no long name on the way hides |
| `VirtualTree.TreeAgrees` | projfs/paf_mount.c:143-180 | for any list and any key without handles: the tree has a node for it exactly when the list gives it a meaning, and the node is that file or directory |
| `VirtualTree.Tree.Insert` | projfs/paf_mount.c:143-180 | insertion adds exactly the components that are not found, long names clipped and never found again, and changes no existing node |
| `VirtualTree.Tree.Find` | projfs/paf_mount.c:183-200 | lookup, its path clipped, finds the node of a path exactly when the tree has it and all names are short |
| `VirtualTree.Tree.FindChild` | projfs/paf_mount.c:118-124 | the first child equal up to case is found exactly when there is one; a name of 256 units or more never is; its name has as many units, each equal up to case, and if none is found no child has |
| `VirtualTree.Tree.AddChild` | projfs/paf_mount.c:127-137 | a new child keeps all keys distinct and every node reachable from its parent, also when its clipped name hides behind an earlier one |
| `VirtualTree.BuildExact` | projfs/paf_mount.c:143-180 | for any list, the nodes a lookup can reach are the root and, for each prefix of a listed path that surfaces, the one its first owner makes |

## Left out

- BinaryDelta.Apply: says nothing about status and output once the replay has read outside the old bytes, which C leaves undefined.
- BatchExtract.Run: says nothing of files and status once a batch has left its buffer, which C leaves undefined; write errors, and the conversion of an error count of 2^31 and more to `int`.
- VirtualTree.Tree.Insert: paths of 1024 units and more do not occur, since a listing holds at most 1023 bytes of a path; nodes are handles into one sequence instead of separately allocated objects, and freeing them is not modelled.
- Generator.Spool.Put: the temporary files, offsets and counters of `paf_generator_t` and of `paf_create_patch` are one class; the batch arrays are another.
- FNV-1a and DJB2: any function stands for the block hash and for the path hash; the results hold for all of them.
- Collision resistance of SHA-256: appears only as the condition that contents of common paths are told apart.
- File system: a directory is a flat map; parent directories, file versus directory clashes, links, permissions and write failures do not occur.
- `rename` replaces an existing target, as POSIX has it; the `rename` of the Windows C runtime at `libpaf/src/libpaf_patch.c:232` fails on one, so there an update of an existing file never succeeds.
- Durability: a completed operation stays completed; buffered data lost by a power failure after a rename is not modelled.
- Files that change while a patch is built, files that cannot be opened then, and the temporary names used for the two snapshots.
- Directory walking: the walk is an enumeration of the files of a directory; the reading of `.pafignore` files is left out, the matching of a name against rules is not.
- `fseek` with positions beyond the range of `long`, and memory allocation failures.
- DELETED entries of an index delta have no digest here; in C that field is uninitialised.
- The bytes of a listed path after a short read, which are uninitialised in C, read as an empty or shorter path here.
- The sort of `paf_delta_optimize_io` is `qsort`; no particular algorithm is modelled, every permutation is covered.
- CUDA, Vulkan and DirectStorage host code, SHA intrinsics, and the Windows variants of the thread pools; the kernels are modelled for one file at a time.
- The interleaving of two writer threads inside one file write; each file is written in one step, so of two unequal writes to one path at the same time one remains whole.
- `paf_extract_folder`, `paf_export_index`, folder existence, the parallel extraction worker's own loop, progress callbacks: they would only add easy members.
- ProjFS callbacks, sessions and enumeration, the shell, WebAssembly and command-line front ends.
