# Posix-vs-mmap: a verified model

The repository measures file access through POSIX calls against access through memory mappings.
This project models its parts with real algorithmic content and proves what they promise:

* **The chunk index of `lib/fileops_noposix.c`** (the live branch). Every open file keeps a tree of
  1024-way tables from 2 MiB chunk numbers to mapping addresses. `CMemory` is the C heap: tables are
  arrays of words, found by address, and a word may be a table, a mapping or 0. `RadixIndex` says
  what it means for tables in memory to represent a chunk map and what the descent loop finds in
  them. `TableTree` and `TableFree` grow, fill and free the tree in place. `OpenFiles` is the state
  behind `fd_lookup` with the owner of every live table. `FileOps` has the classes `NVFile` and
  `FileLib` with the API calls. `FlatFile` is the disabled flat version and the lengths of short
  reads, `FileRuns` speaks about whole runs, and `Sessions` about what a descriptor's tree becomes
  between open and close.
* **Two synchronisation protocols**, as small-step systems for any number of threads: the doorbell of
  `pthread_test.c` and `pthread_test_noposix.c` (`Doorbell`), and the hand-written cyclic barrier of
  `Util/HarnessBarrier.hpp` (`Barrier`), which refines what POSIX promises of a barrier
  (`CyclicSpec`), over which the phased runner of `Util/NVTMWorkloadHarness.hpp` works
  (`PhasedRunner`).
* **Smaller pieces**: worker slices (`Slices`), the shift-register generators (`Lfsr`), the shuffled
  record order (`RandomOrder`), the integrity images and their checker (`FillImage`), the racing page
  markers (`PageMarkers`) and the blocked copy (`BlockCopy`).

## How the source is rendered

* C integers are unbounded here; every place where the source's width matters is written out:
  the `int index` of the descent (`TruncInt`), the 64-bit sum `offset + size`, the `ssize_t` length
  (`Signed64`), the capacity product, the file position, the 32-bit per-thread count, `char`.
  `hit_count` and `mmap_count` do not wrap.
* The kernel appears as parameters (descriptor, inode, size) and as the contract of
  `FileLib.Mmap`: it succeeds, with a nonzero range apart from the live ones that shows the file from
  the given byte. `malloc` succeeds, with an unused address and arbitrary contents.
* A negative `off_t` reaches the comparison with the file length as an unsigned number; positions are
  therefore numbers below 2^64.
* `WorldOk` is the invariant of the file library. Its ghost components (place of every table, chunk
  map, owner, leaked tables) are tied to the real fields and words by `Represents` and `Valid`.
* A descriptor whose table index would go below zero is outside the contracts (`InReach`); by
  `SmallFilesSafe` that never happens for files of at most 2^52 bytes.

## Results that are not what the code seems to say

* A lookup narrows the chunk number to an `int`. `WalkExact` says exactly which lookups this spoils,
  and `RunReadsExactly` that exactly those give a pointer to other bytes than were asked for;
  `MisreadAt2To53` reaches one by an open and two reads. A caller is safe exactly with files of at
  most 2^52 bytes (`SafeLengthExactly`).
* A read whose `offset + size` wraps returns nothing (`ShortReadExact`).
* `close1` frees the tables above the leaves only, and loses one table for each leaf left behind
  (`CloseLoses`). A session opened on a closed descriptor loses nothing exactly when it read nothing
  past the first 2^31 bytes; otherwise it loses a table for each region of 2^31 bytes it read, and
  one for the first region (`SessionLoses`, `SmallRegions`); `CloseLeaks` loses two with an open, two
  reads and the close. It unmaps nothing, so returned pointers stay good (`RunReads`).
* The barrier is safe for several threads only without spurious wakeups (`SafeExactly`).
* If operations do not report completions themselves, the runner can end exactly when no operation
  count was given or the per-thread share, narrowed to 32 bits, is nonzero (`EndsExactly`); one
  operation for two threads never ends (`OneForTwo`). With a nonzero share, and in timed mode once
  the alarm has gone off, every schedule ends (`EveryRunEnds`).
* In timed mode each thread counts its calls modulo 2^32; `WrappedTotal` is a run of 2^32 calls that
  are reported as none.
* `mmap_write.c` fills the file like its POSIX counterpart (`SameImage`) and then stores 40 bytes of
  'd' over its start; the file is still the image, and still passes the checker, exactly when the
  fill character started as 'd' and the store stays in the first record or there is no other
  (`StampedImage`).
* The blocked copy misses the last bytes for unaligned destinations (`CompleteExactly`).
* The record checker looks at two bytes per record, and is exact for records of at most two bytes
  (`CheckIsExact`).

## Model

| member | source | states |
|---|---|---|
| Capacity.CalculateCapacity | lib/fileops_noposix.c:223-233 | the capacity modulo 2^64, which is the true one exactly for heights up to 4 |
| Capacity.CalculateNewHeight | lib/fileops_noposix.c:235-246 | the least height whose tree covers the offset, at most 4 for 63-bit offsets |
| Capacity.HeightBound | lib/fileops_noposix.c:223-246 | no capacity computed for a 63-bit offset overflows 64 bits |
| Capacity.DescendStep | lib/fileops_noposix.c:262-272 | the slot chosen at a level is that base-1024 digit of the chunk number, and the remainder keeps the lower digits |
| Capacity.TruncCongruent | lib/fileops_noposix.c:262 | the int that a quotient becomes is congruent to it modulo 2^32 and in range |
| CMemory.CHeap.ZeroTable | lib/fileops_noposix.c:219-220 | the clearing loop leaves exactly that table zero |
| RadixIndex.WalkBelow | lib/fileops_noposix.c:261-273 | below the root the descent finds exactly what the chunk map says |
| RadixIndex.WalkTop | lib/fileops_noposix.c:252-273 | from the root it finds the chunk it is served from, or indexes below zero |
| RadixIndex.WalkExact | lib/fileops_noposix.c:252-273 | the lookup agrees with the chunk map if and only if truncation does not spoil it |
| RadixIndex.SmallOffsetsExact | lib/fileops_noposix.c:252-273 | no offset below 2^52 is spoiled or out of range |
| RadixIndex.TruncationWitness | lib/fileops_noposix.c:252-264 | tables in which byte 2^53 is answered from chunk 0 although its chunk is not mapped |
| FileRuns.MisreadAt2To53 | lib/fileops_noposix.c:252-273 | open1 on a new library and reads at 0 and at 2^53: the second pointer shows the bytes at 0 and not those asked for |
| RadixIndex.GrowStep | lib/fileops_noposix.c:295-302 | wrapping the root in slot 0 of a new table keeps the whole chunk map |
| RadixIndex.LinkStep | lib/fileops_noposix.c:312-321 | linking a cleared table below an empty slot keeps the chunk map and the tree |
| RadixIndex.PutStep | lib/fileops_noposix.c:322-324 | storing a mapping in a leaf sets exactly that chunk |
| TableTree.Descend | lib/fileops_noposix.c:261-276 | the in-place loop returns what Walk finds |
| TableTree.Grow | lib/fileops_noposix.c:291-306 | the growth loop covers the offset, raises the height only to the least one that does, keeps the chunk map and every other table |
| TableTree.Fill | lib/fileops_noposix.c:308-326 | the insertion loop sets exactly one chunk, allocates only new tables, touches no table outside the tree |
| TableFree.FreeBtree | lib/fileops_noposix.c:181-196 | frees each table above the leaves once while live, and nothing else |
| OpenFiles.FaultOk | lib/fileops_noposix.c:278-326 | a chunk fault keeps the invariant of all files and maps a pair of session and chunk that was never mapped |
| OpenFiles.OpenOk | lib/fileops_noposix.c:430-458 | an open keeps the invariant, whatever the descriptor held |
| OpenFiles.CloseOk | lib/fileops_noposix.c:460-471 | a close keeps the invariant of all other files, and accounts for lost leaves |
| OpenFiles.FreedIs | lib/fileops_noposix.c:181-210 | what free_file frees: the tables above the leaves, and a root that is a leaf |
| OpenFiles.CloseLoses | lib/fileops_noposix.c:181-210 | a close loses as many tables as there are leaves below the root, and none if and only if the height is 0 or no chunk is mapped |
| Sessions.SessionTree | lib/fileops_noposix.c:291-326 | between open and close the tree has a leaf for each region of 2^31 bytes read and for the first, and is a single table if and only if no other region was read |
| Sessions.SessionLoses | lib/fileops_noposix.c:181-210 | how many tables the close of a session opened on a closed descriptor loses, in terms of the regions read; none if and only if only the first was |
| Sessions.SmallRegions | lib/fileops_noposix.c:252-264 | for files up to 2^52 bytes the regions are those of the offsets asked for |
| Sessions.CloseLeaks | lib/fileops_noposix.c:181-210 | open1, pread1 at 0 and at 2^31 and close1 on a new library leave two tables behind |
| FileOps.InsertChunk | lib/fileops_noposix.c:291-326 | growth then insertion: one new chunk, least sufficient height |
| FileOps.InitFile | lib/fileops_noposix.c:212-221 | a cleared root, newly allocated only if there was none |
| FileOps.FreeFile | lib/fileops_noposix.c:198-210 | frees exactly the tables above the leaves and a leaf root, and resets root and height |
| FileOps.FileLib.constructor | lib/fileops_noposix.c:475-479 | the zeroed descriptor table satisfies the invariant with nothing open |
| FileOps.FileLib.MapChunk | lib/fileops_noposix.c:278-326 | a miss maps the aligned chunk and adds it, alone, to the chunk map |
| FileOps.FileLib.GetMmapAddress | lib/fileops_noposix.c:248-335 | hit or miss, the pointer into the served chunk, the clipped length, and which counter moves |
| FileOps.FileLib.DoPread | lib/fileops_noposix.c:337-374 | nothing, or bytes that show the file from the served chunk; those asked for unless spoiled; hits and misses go up by one if anything is returned, and misses follow the distinct pairs of session and chunk |
| FileOps.FileLib.Read1 | lib/fileops_noposix.c:376-386 | the read at the position, which moves by the returned length, and the counters |
| FileOps.FileLib.Pread1 | lib/fileops_noposix.c:393-402 | the read at a signed offset, with the position kept |
| FileOps.FileLib.Lseek1 | lib/fileops_noposix.c:409-428 | the new position modulo 2^64 and nothing else; the result is the position as a signed 64-bit number |
| FileOps.FileLib.Open1 | lib/fileops_noposix.c:430-458 | position 0 and an empty chunk map |
| FileOps.FileLib.Close1 | lib/fileops_noposix.c:460-471 | the tree is given up, mappings stay |
| FlatFile.PreadLength | lib/fileops_noposix.c:343-359 | a nonempty result stays in the file, the request and the chunk |
| FlatFile.ShortReadExact | lib/fileops_noposix.c:343-359 | the result is min(size, rest of file, rest of chunk) if and only if the sum does not wrap or nothing is left; if it wraps nothing is returned |
| FlatFile.SignedCongruent | lib/fileops_noposix.c:68-74 | a 64-bit size as a signed number: congruent modulo 2^64 and in range |
| FlatFile.FlatExact | lib/fileops_noposix.c:61-85 | the flat length for all inputs, wrapping or not |
| FlatFile.PrefixOfFlat | lib/fileops_noposix.c:328-334 | a prefix of the flat result, empty only with it, all of it exactly without chunk boundary |
| FileRuns.SmallRunReads | lib/fileops_noposix.c:337-402 | in every run a read of a file up to 2^52 bytes returns the short-read length, nothing if its sum wraps, and its pointer shows those bytes in every later state |
| FileRuns.ReadsJoin | lib/fileops_noposix.c:337-386 | in every run, consecutive unspoiled read1 calls on a descriptor: the bytes seen through the returned pointers, joined, are the file from the first position to the last |
| FileRuns.ReadsAdvance | lib/fileops_noposix.c:376-386 | each such call of positive size moves the position on, never past the length, until it is at the end |
| FileRuns.ReadToEnd | lib/fileops_noposix.c:337-386 | enough of them reach the end, and what they show is exactly the suffix of the file |
| FileRuns.SmallUnspoiled | lib/fileops_noposix.c:252-264 | in every run no read1 of a file up to 2^52 bytes is spoiled |
| FileRuns.RunReads | lib/fileops_noposix.c:337-402 | in every run over any descriptors, an unspoiled read's pointer shows exactly the requested bytes, at return and ever after |
| FileRuns.RunReadsExactly | lib/fileops_noposix.c:252-402 | in every run of the library a returned pointer shows the requested bytes, then and ever after, if and only if the lookup is not spoiled; only offsets from 2^53 on can be |
| FileRuns.SafeLengthExactly | lib/fileops_noposix.c:252-264 | in every state of the library all requests for a file of that length are in reach and unspoiled if and only if it is at most 2^52 bytes |
| FileRuns.RunRefinesFlat | lib/fileops_noposix.c:61-102 | in every run a read that neither wraps nor is spoiled returns a prefix of the flat version's bytes, empty only with it, readable ever after |
| FileRuns.FaultsAreDistinctPairs | lib/fileops_noposix.c:278-284 | in every run the calls that map are as many as the mappings made, and as many as the pairs of session and chunk that became available |
| FileRuns.MappedOnce | lib/fileops_noposix.c:275-284 | in every run no two calls map the same chunk for the same session |
| FileRuns.SmallFilesSafe | lib/fileops_noposix.c:252-264 | files up to 2^52 bytes are never spoiled or out of reach |
| FileRuns.DenotedBytes | lib/fileops_noposix.c:281-283 | the bytes behind a returned pointer are the file's, for contents of any moment |
| FileRuns.TablesPartitioned | lib/fileops_noposix.c:181-326 | no table is at two places of any trees, and every live table is in one tree or leaked |
| Doorbell.TransfersExcludeMain | pthread_test.c:75-97 | a transferring worker works on main's size between its ring and main's seeing it finish |
| Doorbell.PreparedBeforeRing | pthread_test.c:223-233 | when main rings a doorbell it has, in this round and with this size, filled every buffer if it fills them and then sought every file |
| Doorbell.RoundSoFar | pthread_test.c:223-240 | wherever main is in a round, it has taken every earlier step of that round for every worker |
| Doorbell.OnePass | pthread_test.c:43-53 | main leaves its scan only after one pass in which every look found a finished worker |
| Doorbell.NextInv | pthread_test.c:35-101 | every step of main or a worker keeps the phase invariant |
| Doorbell.EveryoneDidEverySize | pthread_test.c:223-251 | at the end each worker made one transfer per size: the first size, each the double of the one before, up to the last that fits |
| Doorbell.AlwaysProgress | pthread_test.c:66-101 | until the end some step lowers the work or moves the scan forward |
| Doorbell.WorkBounds | pthread_test_noposix.c:269-297 | no step adds work, so steps other than spinning and scanning are bounded in every run |
| Doorbell.FairRunEnds | pthread_test.c:66-101 | every run in which everybody keeps moving ends, after a number of rounds given by the workers and sizes, whatever the order within a round |
| Doorbell.SomeRunEnds | pthread_test.c:216-251 | for any number of workers and any sizes there is a run that ends |
| Barrier.StepInv | Util/HarnessBarrier.hpp:21-31 | every step keeps the round invariant; the last to count in starts the next round |
| Barrier.CyclicBarrierSafe | Util/HarnessBarrier.hpp:21-31 | without spurious wakeups nobody completes a join all have not entered, over all reuses |
| Barrier.NoDeadlock | Util/HarnessBarrier.hpp:21-31 | once all have called a k-th join, and until all have completed it, somebody already inside can move |
| Barrier.RoundEnds | Util/HarnessBarrier.hpp:21-31 | a bounded number of moves of those inside, and no further call, brings everybody through the k-th join |
| Barrier.RunRoundEnds | Util/HarnessBarrier.hpp:21-31 | in every run in which all have called a k-th join, at most 5n moves of those inside let all complete it |
| Barrier.EveryRunCompletes | Util/HarnessBarrier.hpp:21-31 | in every run of more than n(5k + 4) moves everybody has completed k joins, whatever the schedule |
| Barrier.SpuriousBreaks | Util/HarnessBarrier.hpp:28 | a run in which a spurious wakeup lets one thread through alone |
| Barrier.SafeExactly | Util/HarnessBarrier.hpp:21-31 | safe in every run if and only if no spurious wakeups or one participant |
| Barrier.RefinesSpec | Util/HarnessBarrier.hpp:21-31 | every step is an arrival, an allowed departure, or invisible |
| PhasedRunner.RunInv | Util/NVTMWorkloadHarness.hpp:294-319 | the phase and counting invariant holds throughout every run |
| PhasedRunner.Gates | Util/NVTMWorkloadHarness.hpp:294-318 | nobody passes the start barrier, and timing does not begin, before all have reached it; likewise for the run barrier; nobody returns before all have reported |
| PhasedRunner.ZeroTimes | Util/NVTMWorkloadHarness.hpp:299-301 | only thread 0 is in StartTiming, and timing has begun exactly when it is past it |
| PhasedRunner.JoinsFromOutside | Util/NVTMWorkloadHarness.hpp:294-318 | whoever joins a barrier is outside it, as the barrier demands |
| PhasedRunner.WhyLeft | Util/NVTMWorkloadHarness.hpp:239-313 | a thread past its loop has made exactly its share of calls, or without a share no count was given and the end was decided; a count given as zero allows no call |
| PhasedRunner.NoMoreCalls | Util/NVTMWorkloadHarness.hpp:305-309 | in timed mode no thread begins a call once the alarm has gone off |
| PhasedRunner.OpsAreTimed | Util/NVTMWorkloadHarness.hpp:297-313 | no operation before thread 0 has finished StartTiming |
| PhasedRunner.FinalCount | Util/NVTMWorkloadHarness.hpp:305-317 | past the final barrier the reported total is the number of calls if and only if the share is nonzero or no thread called 2^32 times; otherwise each thread counts modulo 2^32 |
| PhasedRunner.ShareFits | Util/NVTMWorkloadHarness.hpp:132 | what a thread reads is the share modulo 2^32; the total misses the count by less than the number of threads if and only if the share fits 32 bits |
| PhasedRunner.ZeroShareNeverEnds | Util/NVTMWorkloadHarness.hpp:239-309 | with a positive count and a zero share no thread ever leaves its loop |
| PhasedRunner.EndsExactly | Util/NVTMWorkloadHarness.hpp:239-317 | some run reaches the state where all threads have returned if and only if no count was given or the share is nonzero |
| PhasedRunner.OneForTwo | Util/NVTMWorkloadHarness.hpp:132 | one operation for two threads: no run ends |
| PhasedRunner.EveryRunEnds | Util/NVTMWorkloadHarness.hpp:294-319 | with a nonzero share, a count given as zero, or no count once the alarm has gone off: the thread steps left are bounded in every run, and until all have returned somebody can move |
| PhasedRunner.TimedRun | Util/NVTMWorkloadHarness.hpp:305-317 | in timed mode any number of calls can be made before the alarm, and is reported modulo 2^32 |
| PhasedRunner.WrappedTotal | Util/NVTMWorkloadHarness.hpp:305-317 | a run of 2^32 calls that are reported as none |
| Slices.SlicesApart | pthread_test_noposix.c:82-96 | slices of different workers are disjoint |
| Slices.StartsAre | pthread_test_noposix.c:82 | the first slice starts the file, each other one a share after the one before |
| Slices.SliceInFile | pthread_test_noposix.c:82-96 | every slice lies in the file |
| Slices.UntouchedSize | pthread_test_noposix.c:82-96 | the number of file bytes in no slice is FILE_SIZE mod (threads * size) |
| Slices.AlignedReadFull | pthread_test_noposix.c:97-103 | an aligned request inside the file never crosses a chunk |
| Slices.TransferSlice | pthread_test_noposix.c:93-120 | a worker's round of read1 has no short read, its pointers show the records of the slice one after the other, and the position ends at the slice's end |
| Slices.TransferSliceAt | pthread_test_noposix.c:93-120 | the same with pread1, the position unmoved |
| Lfsr.ShiftedBits | Util/FastRand.hpp:15-16 | the step bit by bit |
| Lfsr.StepBijective | Util/FastRand.hpp:15-16 | with the top tap the step has a two-sided inverse |
| Lfsr.NeverZero | Util/FastRand.hpp:11-16 | zero and nonzero words never mix |
| Lfsr.TopBitNeeded | Util/FastRand.hpp:15-16 | without the top tap the zero word has a second preimage |
| Lfsr.ReturnsToSeed | Util/FastRand.hpp:9-18 | every nonzero word returns to itself within 2^n - 1 steps |
| Lfsr.DeclaredMasks | Util/FastRand.hpp:20-23 | the four masks bit by bit; all have the top tap |
| Lfsr.Generator.RandLFSR | Util/FastRand.hpp:10-18 | the seed is replaced, from rand if it was zero |
| RandomOrder.Shuffle | random_perf_test.c:102-112 | for all draws the result is a permutation |
| RandomOrder.OneDraw | random_perf_test.c:105-112 | one draw exchanges two entries and keeps all others |
| RandomOrder.InOrder | random_perf_test.c:102-104 | before the draws the records are in order |
| RandomOrder.EveryOrder | random_perf_test.c:102-112 | every order of the records is the outcome of some draws |
| RandomOrder.VisitedOnce | iozone_test.c:549-552 | each record is visited by exactly one iteration |
| RandomOrder.RangesTile | iozone_test.c:549-606 | the byte ranges tile the file |
| RandomOrder.RandomWrite | random_perf_test.c:127-147 | the whole range becomes copies of the buffer, nothing else changes |
| FillImage.WriteRecords | integrity_test2_write.c:90-104 | the file holds the image, the rest of it is kept |
| FillImage.FillForm | integrity_test2_write.c:90-104 | the fill characters in closed form, for every start character |
| FillImage.MmapFill | mmap_write.c:187-205 | the mapping holds the image, the rest of it is kept |
| FillImage.SameImage | mmap_write.c:187-205 | the record-by-record loop and the in-place loop leave the same file, whatever it held |
| FillImage.MmapWrite | mmap_write.c:187-218 | the fill followed by the store of 40 bytes |
| FillImage.StampedImage | mmap_write.c:218 | after that store the image passes the checker, and is the image, if and only if it began with 'd' and the store stays in the first record or there is no other |
| FillImage.CounterFits | mmap_write.c:167-197 | counter and product fit an int if and only if it is not 2^31 records of one byte |
| FillImage.CheckRecords | integrity_test2_read.c:92-108 | no error message if and only if first and last byte of every record fit |
| FillImage.ImageAccepted | integrity_test2_read.c:97-108 | a written image passes |
| FillImage.CheckIsExact | integrity_test2_read.c:102-104 | passing decides the image if and only if records have at most two bytes |
| FillImage.ShiftDetected | integrity_test2_read.c:105-107 | for every start character a shift by whole records passes if and only if it is none, or the character is in A..z and the shift a multiple of 58 |
| PageMarkers.FillPageOffs | holetest.c:286-290 | the first offset is half a step, each other one a step after the one before; and in closed form |
| PageMarkers.SlotsFitExactly | holetest.c:286-290 | markers are in-page and apart if and only if the spacing and the last one fit |
| PageMarkers.SixteenIsEnough | holetest.c:286-290 | sixteen bytes per thread suffice |
| PageMarkers.NextMarked | holetest.c:128-153 | a store changes exactly one marker of one copy: the file, the parent's private mapping or a child's |
| PageMarkers.VerifyMapping | holetest.c:94-113 | returns the number of (page, thread) pairs whose marker is not the wanted one |
| PageMarkers.CountErrors | holetest.c:247-266 | the mismatches of the parent's mapping and, for private mappings, of the file |
| PageMarkers.SharedVerifies | holetest.c:247-252 | after any interleaving a shared mapping verifies |
| PageMarkers.UnfinishedFails | holetest.c:94-113 | a page not yet marked is reported in the copy its writer stores into |
| PageMarkers.TestThisClean | holetest.c:247-266 | no errors in the parent's mapping and in the file, in shared, private and forked private mode |
| PageMarkers.ChildVerifies | holetest.c:132-137 | a forked child finds its own marker and nobody else's, however far the others are |
| PageMarkers.SomeRunCompletes | holetest.c:128-156 | in every mode and from every file there are complete runs |
| BlockCopy.Mmx2Memcpy | memcpy.h:19-89 | the first Copied bytes arrive and nothing else changes |
| BlockCopy.CompleteExactly | memcpy.h:39-51 | it is memcpy if and only if the destination is aligned or the length below 64; otherwise as many bytes are missed as the destination is short of an 8-byte boundary |

## Left out

- FileOps.FileLib.Open1: does not model access modes and mapping permissions, which do not concern the index.
- FileOps.FileLib.Mmap: does not model failure, prefaulting or the `assert(0)` path.
- FileOps.FileLib.GetMmapAddress: is not defined where the narrowed index is negative, because the source then reads outside its table.
- Races on the counters and on one descriptor between threads: the library is modelled single-threaded.
- `write1` and `pwrite1` of `lib/fileops_noposix.c`, which only return their size.
- Doorbell.FairRunEnds: assumes a scheduler that lets main and every worker move again and again.
- The doorbell's transfers end in a single step; memory ordering is sequential consistency. The fill character that main advances each round is not modelled.
- PhasedRunner.FinalCount: covers one RunOps call with the configured number of threads; the completed counter does not wrap.
- PhasedRunner.EndsExactly: operations that report completions themselves (`CompletedOperation`, Util/NVTMWorkloadHarness.hpp:168) are not modelled; the same holds for PhasedRunner.FinalCount.
- FillImage.StampedImage: the store of 40 bytes is modelled for a mapping of at least 40 bytes, which it needs.
- Lfsr.ReturnsToSeed: bounds the period and does not claim it is maximal.
- PageMarkers.TestThisClean: does not model the exit status of forked children, which the parent's count overwrites; nor prefaulting.
- BlockCopy.Mmx2Memcpy: models the eight register moves as one 64-byte copy, and not the cache hints.
- RandomOrder.Shuffle: says nothing about the distribution of the shuffle; the fallback without recnum is not modelled.
- `pthread_test_mmap.c`, `test_rand.c`, `pthread_counter.c`, `pthread_test_create.c` and the latency, mprotect, msync and munmap benchmarks.
- Timing, bandwidth, printing, command lines, signals, scripts and the cache-line flush loops.
