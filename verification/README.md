# A verified model of the Grellnix kernel core

Grellnix is a small i386 kernel. This project models five of its parts in Dafny, each in the form its
source has, and proves what they keep over whole runs:

- **Kernel heap** (`memory`, `ordered_array`, `chunks`, `heap_*`, `heap`): boundary tags in byte-addressed
  memory, an index of holes ordered by size, best fit, page-aligned splitting, joining, growth, contraction.
  `heap_spec.dfy` says what each request does to the shape of the heap; `heap.dfy` is the allocator itself,
  writing bytes, and is proved to do just that.
- **Frames and page directories** (`frames`, `page_*`, `physical`, `page`): the frame bitmap, two-level
  translation, mapping, and the clone of a directory that shares the master's tables and copies the others.
- **Tasks** (`switching`, `switching_runs`, `ready_queue`, `task`): the context switch as instructions on registers and stack
  bytes, task creation, the circular ready queue and its round-robin order.
- **Initial ram disk** (`cstrings`, `initrd_image`, `initrd`): the image generator and the mounted reader.
- **Text console** (`paper`, `numerals`, `monitor`): the 80 by 25 screen as a window on an unbounded sheet,
  and the printing of numbers.

Specifications are functions and predicates on values; methods of classes do what the C and assembly code
does, in place, and are tied to those functions by their postconditions. `ghost` fields (`image`, `entries`,
`cs`, `sheet`) carry the abstract value of a mutable object.

## Code and comments

Where a line of the original does something else than its own comment says, the model follows the code.
Several functions take a `Build`: `AsWritten` is the code, `AsCommented` is what the comment on the line
asks for, and the theorems say which properties hold of which, usually with the exact condition.

| place | as written | as its comment says |
|---|---|---|
| `src/kheap.c:107` | only an odd length is rounded up (`new_size & 0xFFFFF000 != 0` is `new_size & 1`) | rounded up to the next page |
| `src/kheap.c:131-135` | a length with bit 12 set becomes 0x2000, then the minimum length | rounded up to the next page |
| `src/kheap.c:311-313` | the right neighbour's footer keeps naming the old header | it names the merged header |
| `src/kheap.c:348-361` | looks for `test_header` in the index, and may index a hole of size 0 | removes the hole itself and does not add it again |
| `src/page.c:134-135` | allocates and clears as many bytes as the bitmap has words | all frames are free |
| `src/page.c:121` | passes a frame number where an address is expected | the frame is free again |
| `src/page.c:277` | the new page table keeps what its memory held (`contents` of `GetPage`) | the clearing done by the older `src/deprecated/paging.c:279` |

The outcome of a heap request is `Done`, `Panic` (a failed `ASSERT`) or `Broken`: the next step of the code
would cut, join or contract chunks so that they no longer tile the heap. `Broken` is not assumed away:
`HeapExact` says for every request below 2^32 - 20 bytes exactly when it happens, from the heap before the call, and
`KernelHeap.Heap.Free` proves that after a `Broken` free no chunk list at all fits the memory, the bounds and
the index that are left. The other deviations met on the way are the growth of a hole that does not end the
heap (`src/kheap.c:192-201`, `GrowthTiles`), the 32-bit sums of `expand` (`src/kheap.c:105-113`, `AllocExactly`,
`WrappedEnd`), the unchecked front hole and remainder of an aligned cut
(`src/kheap.c:210-231`, `CutTiles`), the missing footer of the first hole (`src/kheap.c:91-96`, allowed by
`HeapTags.ChunkTags` for a hole that ends the heap), `end_task` leaving `ready_queue_end` behind
(`src/task.c:218-229`, `EndTaskExactly`), the 32-bit sum in `initrd_read` (`src/initrd.c:19`,
`ReadLengthExactly`, `ChunkedReads`), the signed accumulator of `monitor_write_dec` (`src/monitor.c:165`,
`DecimalReadBack`), and `clone_page_table`, which has no `return table` (`src/page.c:455-456`): the model
returns the table.

## Model

| member | source | states |
|---|---|---|
| OrderedArrays.OrderedArray.Insert | src/ordered_map.c:39-60 | the live entries become the old ones with the item before the first entry not less than it; nothing beyond the buffer is written |
| OrderedArrays.OrderedArray.Lookup | src/ordered_map.c:62-66 | entry i of the live entries |
| OrderedArrays.OrderedArray.Remove | src/ordered_map.c:68-76 | the live entries become the old ones without entry i, in the same order |
| OrderedArrays.InsertedSorted | src/ordered_map.c:39-60 | insertion keeps an ordered array ordered, for every strict weak order |
| OrderedArrays.InsertedMultiset | src/ordered_map.c:39-60 | insertion adds exactly the item |
| OrderedArrays.RemovedSorted | src/ordered_map.c:68-76 | removal keeps the order |
| OrderedArrays.RemovedMultiset | src/ordered_map.c:68-76 | removal takes out exactly one entry |
| Chunks.Canonical | src/kheap.c:288-323 | two coalesced tilings of a range with the same live blocks are equal: the holes are determined by the blocks |
| HeapSteps.CutTiles | src/kheap.c:205-267 | the pieces that alloc cuts tile the hole if and only if the request is unaligned or the hole is AlignSafe: at most 0xFE0 into its page, remainder 0 or at least 20 |
| HeapSteps.GrowthTiles | src/kheap.c:166-201 | enlarging the endmost hole by the growth gives a tiling if and only if the last chunk is a hole |
| HeapSteps.GrowKeeps | src/kheap.c:161-201 | growth keeps the invariant and the live blocks, and the last chunk is then a hole with room for the request |
| HeapSteps.CarveKeeps | src/kheap.c:205-271 | taking a hole keeps the invariant and adds exactly one block, inside the old hole, aligned if asked, with room for the request and less than 20 bytes more |
| HeapSteps.FreeKeeps | src/kheap.c:274-363 | a free that is Done keeps the invariant (tiling, no two adjacent holes, index exactly the holes) and drops exactly the freed block |
| HeapRuns.CreatedInv | src/kheap.c:48-100 | a created heap begins 0x80000 bytes above its index, ends where it was told to, is one hole, indexed, and satisfies the invariant |
| HeapRuns.AllocKeeps | src/kheap.c:150-272 | alloc, growth included, keeps the invariant; the live blocks are the old ones and one more, whose payload lies in the heap, holds size bytes and less than 20 more, and is page-aligned when asked |
| HeapRuns.RunKeeps | src/kheap.c:150-363 | over every run of requests the invariant holds and the live blocks are exactly the pointers handed out and not given back |
| HeapRuns.EverythingGivenBack | src/kheap.c:274-363 | from an empty heap, whatever the order of requests, once everything is given back the heap is one hole that spans it, alone in the index |
| HeapRuns.AllocThenFree | src/kheap.c:150-363 | freeing what was just allocated restores the chunks and the indexed set unless the end of the heap moved |
| HeapRuns.PayloadsDisjoint | src/kheap.c:205-271 | two chunks of a heap never overlap |
| HeapRuns.IndexCapacity | src/ordered_map.c:39-60 | a heap of length L has at most (L + 20) / 40 holes, so below 0x500014 bytes the unchecked insert stays inside the index |
| HeapRuns.IndexOverflows | src/ordered_map.c:39-60 | among the heaps of a given length there is one with more holes than the index has entries if and only if the length is 0x500014 or more: a comb of 20-byte holes and blocks attains the bound |
| HeapLimits.NoFit | src/kheap.c:12-41 | the search fails if and only if no hole of the heap fits |
| HeapOrder.BestFit | src/kheap.c:12-41 | on an index in size order the unaligned search returns a smallest hole among those large enough |
| HeapLimits.GrowsOnce | src/kheap.c:155-203 | an unaligned request recurses at most once |
| HeapLimits.AlignedGrowth | src/kheap.c:155-203 | served or not, an aligned request recurses at most k + 1 times, where k requests fill a page, while the heap stays below 2 GB for that long |
| HeapExact.ServedGrowth | src/kheap.c:155-203 | on every heap, for every size and both builds, an aligned request that is served recurses at most k + 1 times, where k requests fill a page |
| HeapOrder.ResizedSorted | src/ordered_map.c:39-60 | a size that changes in place leaves the index in order if and only if it fits between its neighbours |
| HeapOrder.CarveSorted | src/kheap.c:216-266 | taking a hole keeps the size order if and only if no front hole is left or the shrunk front hole (line 223) is no smaller than the entry before it |
| HeapOrder.GrowSorted | src/kheap.c:180-201 | growth keeps the size order if and only if the index was empty or the enlarged last hole (line 196) still fits before its successor |
| HeapOrder.FreeSorted | src/kheap.c:288-362 | every finished free keeps the size order if and only if the hole is inserted anew or is gone, or, after a left join (299) and a contraction (339), still stands in order between the neighbours of the entry it took over |
| HeapOrder.LeftJoinDisorders | src/kheap.c:291-301 | a heap and a pointer whose left join leaves the index out of order |
| HeapPages.GrowthBacked | src/kheap.c:102-124 | after growth every byte has a frame if and only if the last step reached the last page or that page was backed |
| HeapPages.AlignedGrowthBacked | src/kheap.c:115-123 | a heap whose end is page-aligned is always backed after growth |
| HeapPages.ContractionSafe | src/kheap.c:126-148 | a contracted end is page-aligned and leaves the minimum length, cuts no live block, and the heap is backed afterwards if and only if the end has not moved up or the pages up to it were backed |
| HeapPages.FreePages | src/kheap.c:126-148 | after every finished free: end and pages are as before unless the merged hole ends the heap; else a page is given back if and only if it ends by the old end and is stepped on above the new one, from a page-aligned end just the pages that begin above the new end |
| HeapPages.RunSettled | src/kheap.c:102-148 | with the comments followed, over every run from a backed heap with a page-aligned end at or above the minimum length, all three stay so |
| HeapTags.OneTiling | src/kheap.c:205-271 | the headers in memory determine the chunk list |
| HeapImage.CarveDescribes | src/kheap.c:216-267 | the tag writes of a cut describe the new chunk list and stay inside the old hole |
| HeapImage.GrowDescribes | src/kheap.c:181-201 | the tag writes of growth describe the grown chunk list |
| HeapExact.AllocExactly | src/kheap.c:150-272 | an unaligned request is served if and only if a hole is large enough, or the last chunk can grow and there is room; it panics if and only if no hole is large enough and an ASSERT of expand fails on its 32-bit sums; the end moves exactly when no hole fits |
| HeapExact.ExpandedExactly | src/kheap.c:107-111 | as written an even length stays and an odd one goes to the next page boundary; as commented the least whole number of pages |
| HeapExact.GrownEnd | src/kheap.c:102-124 | where an unaligned request ends up growing the heap to, from the length it asked for, for each of the two builds |
| HeapExact.GrowthsMoveEnd | src/kheap.c:155-203 | the end stays if and only if the request does not recurse, and moves by the request with its tags or more each time it does |
| HeapExact.WrappedEnd | src/kheap.c:102-124 | an end that wraps past both ASSERTs lies at or below the start of the heap, where no chunks tile it |
| HeapExact.HugeRequest | src/kheap.c:150-267 | from 2^32 - 20 bytes on new_size wraps below 20; the pieces cut from a hole tile it if and only if the request is unaligned and the hole is less than 20 bytes larger than the wrapped size, and the block then holds fewer than 20 bytes |
| HeapExact.GrownOnlyLast | src/kheap.c:155-203 | once grown the last chunk is a hole and no other hole fits: growth never fails for want of a last hole again |
| HeapExact.AlignedAllocExactly | src/kheap.c:150-272 | an aligned request is served by the first hole that fits if and only if that is AlignSafe; with none it grows to an end computed from the bounds alone, and is served if and only if the hole from where the last one begins to that end is AlignSafe; it panics if and only if an ASSERT of expand fails on the way, on 32-bit sums |
| HeapExact.OffsetToBoundary | src/kheap.c:24-26 | the padding that the search reserves ends at the next page boundary beyond the data; it is the size of the front hole cut if and only if the hole begins less than 0xFF4 into its page |
| HeapExact.AlignedFits | src/kheap.c:20-30 | below 2 GB an aligned request fits a hole if and only if the block at the next page boundary ends inside it, that is, front hole and block fit; and exactly what the signed comparison does from 2 GB on |
| HeapExact.AlignedInPlace | src/kheap.c:150-272 | an aligned request below 2 GB, with hole k the first with room for front and block, is served if and only if that hole is AlignSafe, then at its next page boundary, moving neither the end nor any page |
| HeapExact.FreeAsWrittenExactly | src/kheap.c:274-363 | the code breaks the heap if and only if it joins on the right without reaching the end, or the hole that ends the heap begins less than 20 bytes before, or beyond, the minimum length; it panics if and only if the last block is freed and a stale hole header follows the heap |
| HeapExact.FreeAsCommentedExactly | src/kheap.c:274-363 | with the comments followed it breaks if and only if contraction would leave 1 to 19 bytes |
| HeapExact.ContractedExactly | src/kheap.c:126-140 | as written a length with bit 12 set or below the minimum becomes the minimum and any other stays; as commented the least whole number of pages from the minimum on |
| HeapExact.RightJoinLosesFooter | src/kheap.c:310-313 | a heap on which the unwritten footer breaks a free, which the commented line repairs |
| HeapExact.ContractionCutsTooFar | src/kheap.c:131-146 | a heap on which the mask cuts below the block being freed, which the commented rounding repairs |
| HeapExact.AlignedCutOverlaps | src/kheap.c:216-231 | a heap and an aligned request whose search accepts a hole that the cut does not tile |
| HeapExact.GrowthMissesTheEnd | src/kheap.c:192-201 | a heap and a request whose growth goes to a hole that does not end the heap |
| HeapExact.RemainderTooSmall | src/kheap.c:334-343 | a heap on which contraction, with the comments followed, leaves 10 bytes |
| KernelHeap.Heap.constructor | src/kheap.c:48-100 | memory, index and bounds describe the created heap |
| KernelHeap.Heap.FindSmallestHole | src/kheap.c:12-41 | the position of the first entry that fits (AlignedFits says which those are), or -1 |
| KernelHeap.Heap.CutHole | src/kheap.c:205-271 | returns the address behind the block's header; memory gets exactly the tags of the pieces, the index its new entries |
| KernelHeap.Heap.TakeHole | src/kheap.c:205-271 | memory and index describe the shape with the hole cut; live blocks keep every byte |
| KernelHeap.Heap.Expand | src/kheap.c:102-124 | fails exactly when one of the two ASSERTs does, on 32-bit sums; else sets the end (ExpandedExactly) and backs exactly the pages stepped on |
| KernelHeap.Heap.Endmost | src/kheap.c:166-179 | the position of the largest address in the index, or -1 when it is empty |
| KernelHeap.Heap.GrowHeap | src/kheap.c:161-201 | fails exactly when expand does; else memory and index describe the grown heap and live blocks keep every byte |
| KernelHeap.Heap.Alloc | src/kheap.c:150-272 | the outcome is the specified one, memory and index describe it, and live blocks keep every byte |
| KernelHeap.Heap.JoinLeft | src/kheap.c:284-301 | memory, the merged header's address, and whether it still has to be indexed |
| KernelHeap.Heap.JoinRight | src/kheap.c:302-323 | memory, index and footer address after the right join; fails exactly on a hole header that is not indexed |
| KernelHeap.Heap.Contract | src/kheap.c:126-148 | the new end (ContractedExactly) and exactly which pages lose their frames (FreePages) |
| KernelHeap.Heap.Shrink | src/kheap.c:324-357 | end, pages, memory and index after contraction, including the vanished hole |
| KernelHeap.Heap.Free | src/kheap.c:274-363 | panics, finishes or breaks as specified; when done memory and index describe the new shape and the other live blocks keep every byte; when broken nothing fits what is left; end and pages change exactly when the merged hole ends the heap |
| Frames.FrameMap.constructor | src/page.c:132-135 | following the comment every frame is free; as written only the first quarter of the frames is, the others being free if their memory happens to be clear |
| Frames.FrameMap.SetFrame | src/page.c:40-46 | exactly the frame of the address is added to the set bits |
| Frames.FrameMap.ClearFrame | src/page.c:49-55 | exactly the frame of the address is removed |
| Frames.FrameMap.TestFrame | src/page.c:58-64 | whether the bit is set |
| Frames.FrameMap.FirstFrame | src/page.c:67-86 | the lowest frame whose bit is clear; all ones if and only if every bit is set |
| PageWorld.IndexesAgree | src/page.c:264-285 | dividing and shifting pick the same table and entry for every address |
| PageWorld.KeptReads | src/page.c:398-411 | what an operation keeps translates and reads as before |
| PageWorld.CloneMeansTheSame | src/page.c:323-350 | a clone maps the same addresses, reads the same word at each, and shares the master's tables |
| PageWorld.CloneKeepsFlags | src/page.c:445-451 | a cloned entry has its source's flags if and only if the source is present and open to user mode |
| PageIsolation.WithTableKeeps | src/page.c:264-285 | adding a cleared table keeps the invariant and every table's standing |
| PageIsolation.WithFrameKeeps | src/page.c:89-109 | giving an entry a free frame keeps the invariant |
| PageIsolation.MapTranslates | src/page.c:264-285 | after mapping an unmapped page, its addresses translate into the new frame at their offsets and all others as before; mapping a mapped page changes no translation |
| PageIsolation.MapAccess | src/page.c:89-109 | a newly mapped page is present, writeable if and only if asked, open to user mode if and only if not the kernel's; a mapped page keeps its access, and the other pages of a new table are not present |
| PageIsolation.StoreReads | src/page.c:398-411 | a stored word is read back through its directory at every address of the same physical word and nothing else there changes; a private page has no other address |
| PageIsolation.UnclearedTable | src/page.c:274-279 | in a table that is not cleared the page gets the frame if and only if the memory happened to hold no other frame there |
| PageIsolation.FreeUndoesAlloc | src/page.c:112-124 | free_frame restores the bitmap if and only if the comment is followed; as written the frame stays taken and the bit of frame / 0x1000 is cleared |
| PageIsolation.FreeAsWrittenLeaks | src/page.c:112-124 | as written, taking and freeing a frame leaves a set bit that no entry accounts for |
| PageIsolation.WithoutFrameKeeps | src/page.c:112-124 | freeing the frame of any page, of whatever table, keeps the invariant if and only if no other entry refers to it |
| PageIsolation.EveryUnmapHappens | src/page.c:112-124 | where frames are exclusive, the page of any table, the master's among them, may be freed at any moment of a run |
| PageIsolation.EventIsolates | src/page.c:323-350 | no store, mapping or unmapping through another directory and no clone disturbs a private page |
| PageIsolation.PrivatePagesIsolated | src/page.c:323-350 | over any run, with any number of clones, a private page keeps its frame and contents while its directory does nothing |
| PageIsolation.CopyIsPrivate | src/page.c:342-347 | the copy of a private page is a private page of the clone |
| PageIsolation.ClonesAreIndependent | src/page.c:323-350 | after a clone, over any run, a private page reads as before the clone through whichever of source and clone does nothing itself, whatever is done through the other |
| PageIsolation.StoreUnseen | src/page.c:323-350 | a store through a private page of one directory changes no read through any other directory, at any address |
| PageIsolation.RunUnseen | src/page.c:323-350 | over any run in which the others work on their private pages, a directory translates and reads the same at every address, shared or not |
| PageIsolation.CloneReadsIndependent | src/page.c:323-350 | after a clone, whichever of source and clone does nothing itself reads at every address what the source read before, while the others work on their private pages |
| PageIsolation.FramesAccounted | src/page.c:40-124 | over any run, frees in the master's tables among its events, no two entries of any tables share a frame, and the set bits are exactly frame 0 and the frames that entries refer to |
| PageClone.TableStep | src/page.c:438-454 | one copied page keeps the invariant and the progress of the clone |
| PageClone.SlotShared | src/page.c:337-341 | sharing a master table keeps the invariant and the progress of the clone |
| PageClone.TableFinished | src/page.c:342-347 | a finished table is a deep copy of the source table, new and referred to by nothing else |
| Physical.PhysicalMemory.CopyPagePhysical | src/process.s:16-24 | the target frame holds the source frame's 1024 words, every other frame its own |
| Paging.Mmu.KmallocAp | src/kheap.c:388-407 | the next page boundary, or null exactly when the block would pass the end of the address space |
| Paging.Mmu.AllocFrame | src/page.c:89-109 | an entry without a frame gets the lowest free one, present, with the access asked for; an entry with a frame and every other entry stay; stops exactly when it needs a frame and all are taken |
| Paging.Mmu.FreeFrame | src/page.c:112-124 | the entry loses its frame and nothing else, every other entry stays, and the bitmap loses the bit that the build clears |
| Paging.Mmu.GetPage | src/page.c:264-285 | the entry of the address; a new table exactly when there was none and `make` is set; memory is missing exactly when that table does not fit |
| Paging.Mmu.CloneEntry | src/page.c:444-451 | the entry gets a free frame and the flags of its source, present and user set |
| Paging.Mmu.ClonePage | src/page.c:444-454 | the next entry of the new table is a deep copy |
| Paging.Mmu.ClonePageTable | src/page.c:431-456 | all 1024 entries of the new table are empty or deep copies in frames of their own; memory is missing exactly when the table does not fit |
| Paging.Mmu.CloneSlot | src/page.c:333-348 | the next slot is empty, shared with the master or a deep copy, and only a copied table takes memory |
| Paging.Mmu.CloneDirectory | src/page.c:323-350 | the result is a clone in the sense of CloneMeansTheSame; a frame is missing only when every frame is taken, memory only when the directory and one table for each copied one do not fit |
| Switching.PushPop | src/task_switch.s:24-54 | the pushes stay in the sixteen bytes below the stack pointer and the pops undo them, return address included |
| Switching.SwitchParks | src/task_switch.s:24-30 | the caller is suspended as a plain return would leave it |
| Switching.SwitchResumes | src/task_switch.s:34-54 | the task switched to resumes as it was suspended, any other stays suspended as it is, also when no task was current |
| Switching.SwitchWrites | src/task_switch.s:24-40 | the switch changes the sixteen bytes below the stack pointer and the saved stack pointer of the caller, at address 4 when there is none; the task asked for becomes current |
| Switching.SwitchToSelf | src/task_switch.s:14-54 | switching to oneself is a plain return |
| Switching.CreateParks | src/task.c:199-215 | a new stack suspends the task before its entry point with the four registers zero |
| Switching.NewStackWords | src/task.c:199-215 | from the top: entry point, flags 0x202, code selector, return address and four zeros, and nothing else is written |
| SwitchingRuns.ResumesAsSuspended | src/task_switch.s:14-54 | over every run a suspended task resumes with exactly the ebx, esi, edi, ebp, esp and return address it was suspended with |
| SwitchingRuns.FirstResumes | src/task.c:199-215 | over every run a created task first resumes at its entry point with those four registers zero |
| ReadyQueue.LinkedRing | src/task.c:173-192 | creation extends the ring by one at its end, with end linked to start |
| ReadyQueue.RoundRobin | src/task.c:291-311 | n links from any task of a ring of n lead back and meet every task exactly once |
| ReadyQueue.EveryTaskRuns | src/task.c:291-311 | a scheduled run with n switches on a ring of n runs every task and ends where it began |
| ReadyQueue.UnlinkedCycle | src/task.c:218-226 | with at least two tasks the links go around the others in their old order |
| ReadyQueue.EndTaskExactly | src/task.c:218-226 | the queue is well formed afterwards if and only if another task exists and the ended one was not the last; a ring of one is unchanged |
| ReadyQueue.CreatedAfterEndOfLast | src/task.c:186-191 | after the last task of the ring was ended, a new one is reached from no task of the ring |
| ReadyQueue.NullBlockSkipped | src/task.c:186-191 | after a creation whose block is null the old ring is scheduled as before, and a task created then never gets a turn |
| ReadyQueue.QueueKept | src/task.c:173-226 | over every run of computations, switches, creations and end_task calls that spare the last task the queue stays one ring, in order of creation |
| Tasks.CalledIsCalling | src/task.c:310-311 | the C call puts the argument where switch_to_task reads it |
| Tasks.Tasking.SwitchToTask | src/task_switch.s:14-54 | the instructions do what Switched says |
| Tasks.Tasking.Schedule | src/task.c:291-312 | nothing without tasks, else a switch to the next of the ring, or to its start when no task is current or the link is null |
| Tasks.Tasking.LinkBlock | src/task.c:174-192 | the block joins the circle at its end |
| Tasks.Tasking.PrepareStack | src/task.c:199-215 | the eight words, and the saved stack pointer below them |
| Tasks.Tasking.CreateKernelTask | src/task.c:173-216 | links and prepares the task; a null block is left alone the first time, and later linked and filled at address 0 |
| Tasks.Tasking.CreateUserTask | src/task.c:256-289 | the same with a user code selector, a null block always being filled; without a directory the block is linked all the same, its stack pointer unset |
| Tasks.Tasking.EndTask | src/task.c:218-226 | the search ends, and exactly the link before the task is redirected |
| CStrings.MemCpy | src/common.c:25-30 | nothing else changes, and the target holds the source bytes, or, where it begins inside the source, the bytes between the two beginnings over and over |
| CStrings.StrLen | src/common.c:38-46 | the length of the text |
| CStrings.StrCmp | src/common.c:48-56 | zero if and only if the texts are equal, else the difference of the first bytes that differ, terminators included |
| CStrings.StrCpy | src/common.c:58-67 | the text without its terminator, which this strcpy does not copy |
| InitrdImage.GenerateImage | initrd/generateImage.c:13-57 | the image holds the count, a correct header for every file, and every file's bytes at its offset |
| InitrdImage.ImageLoaded | src/main.c:37-65 | an image means the same wherever it is loaded |
| Initrd.ReadLengthExactly | src/initrd.c:17-20 | a read copies what the file has there if and only if offset + size does not wrap or the offset is past the end |
| Initrd.ChunkedReads | src/initrd.c:14-23 | reading on in chunks until nothing comes, from any offset, every read stays in the file if and only if length + chunk is below 2^32; then the reads make up the rest of the file and end with nothing |
| Initrd.LastReadOverruns | src/initrd.c:19-21 | a file of one byte whose second read copies 2^32 - 1 bytes from its end on |
| Initrd.MountedImage | src/initrd.c:118-125 | rebasing turns every offset into the address of its file's bytes |
| Initrd.ReadGivesSlice | src/initrd.c:14-23 | a read of a mounted file addresses exactly the requested slice of its bytes |
| Initrd.ImageRoundTrip | src/initrd.c:53-78 | pack, load, mount, find, read: the packed bytes of the named file, for distinct names other than dev |
| Initrd.Disk.constructor | src/initrd.c:80-144 | only offset fields change, by the location in 32 bits; a packed image becomes a disk that holds its files |
| Initrd.Disk.Read | src/initrd.c:14-23 | copies exactly ReadLength bytes from the file's address, as memcpy does where the buffer overlaps them, and touches nothing else |
| Initrd.Disk.ReadDir | src/initrd.c:26-50 | dev first in the root, then the files in order, then nothing; the entry is terminated |
| Initrd.Disk.FillDirent | src/initrd.c:45-48 | the name with a terminator, and the inode |
| Initrd.Disk.FindDir | src/initrd.c:53-78 | in the root the name dev gives the dev node; any other name, and any name elsewhere, gives the first file that has it, or none if and only if no file has it |
| Paper.WriteKeepsRowsAbove | src/monitor.c:21-98 | rows above the cursor are final, whatever is written |
| Paper.TextRunsOn | src/monitor.c:79-92 | printable text is laid out along the rows and nothing before it changes |
| Paper.ControlMoves | src/monitor.c:56-77 | newline: column 0 of the next row; return: column 0; backspace: one column back, never off the row; tab: the next multiple of 8; any other control character nothing; none of them changes a cell |
| Paper.LinesRunOn | src/monitor.c:49-98 | after any text and a newline, printable text begins at the start of the next row and every cell before it is as the text left it |
| Paper.ReturnOverwrites | src/monitor.c:68-71 | after a carriage return printable text is written over the row from its start |
| Paper.BackspaceTypesOver | src/monitor.c:56-60 | a character, a backspace and another character are the other character alone if and only if the first did not end its row |
| Paper.ShowsScrolled | src/monitor.c:28-46 | scrolling is what growing the sheet by a blank row looks like through the screen |
| Monitor.Console.Scroll | src/monitor.c:21-47 | the screen shows the grown sheet |
| Monitor.Console.Put | src/monitor.c:49-98 | after every character the cursor is inside 80 by 25 and the screen shows the last rows of the sheet written on |
| Monitor.Console.ClearScreen | src/monitor.c:104-119 | a screen of spaces in the current colours |
| Monitor.Console.WriteHex | src/monitor.c:121-156 | writes 0x and the hexadecimal numeral |
| Monitor.Console.WriteDec | src/monitor.c:158-184 | writes the decimal numeral, or nothing from 2^31 on |
| Monitor.LowDigits | src/monitor.c:165-174 | the digits from the lowest, within the buffer |
| Monitor.Reverse | src/monitor.c:176-182 | the digits backwards and a terminator |
| Numerals.NumeralRoundTrip | src/monitor.c:121-184 | a numeral reads back as its number, has only digits of its base, and starts with 0 only if it is 0 |
| Numerals.HexReadBack | src/monitor.c:121-156 | the hexadecimal print is 0x and digits that read back, for every 32-bit number |
| Numerals.DecimalReadBack | src/monitor.c:158-184 | the decimal print reads back if and only if the number is below 2^31 |

## Left out

- KernelHeap.Heap.Alloc: says nothing of a request whose outcome is Broken; AllocExactly and AlignedAllocExactly give the condition. A served page-aligned request assumes that the index it leaves fits its memory, since the insertion does not look; IndexOverflows says from which length of the heap on that may fail.
- KernelHeap.Heap.Free: assumes a pointer that alloc returned and that is still live, or null, and an index that is not full when the hole needs an entry of its own (AddsEntry).
- HeapSpec.Alloc: requests of 2^32 - 20 bytes or more are Broken without following the wrapped size through the search; HugeRequest says what is cut for them.
- HeapLimits.AlignedGrowth: assumes that the heap stays below 2 GB for the k + 1 growths, since the search compares sizes as signed numbers; for a request that is served ServedGrowth needs no such assumption.
- HeapTags.Tagged: the words just below the heap are assumed not to carry the magic number (they are the end of the index); a hole header just past the end is modelled as the stale case of free.
- PageIsolation.Event: new tables are cleared and frames freed as the comments say, and a frame is freed only when no other entry refers to it, which WithoutFrameKeeps shows to be needed and Exclusive to be always so; what the code does instead is UnclearedTable and FreeUndoesAlloc.
- SwitchingRuns.Event: whoever runs writes no other task's stack, and end_task changes links only: its two calls of kfree, one of them on the top of the stack rather than on its block, are not followed.
- Tasks.Tasking.CreateKernelTask: the block at address 0 that a failed allocation makes the original fill is kept apart from the other bytes, like every block; Valid is not promised after it. The same holds of CreateUserTask.
- Tasks.Tasking.EndTask: assumes a task of the ring; for any other the original loops for ever.
- CStrings.StrCpy: excludes a target that begins inside the source, for which the original overwrites the terminator and does not end.
- Frames.FrameMap.constructor: the words of the bitmap beyond the allocated bytes are taken to stay what they were; later allocations that overlap them are not followed.
- Initrd.Disk.ReadDir: kmalloc is one block given by the caller, apart from the image; the entries that finddir never frees are not counted.
- InitrdImage.GenerateImage: opening and reading the files, and names of 64 characters or more, which overflow the header.
- Monitor.Console.Put: the cursor port writes. A char is signed, so bytes from 0x80 on print nothing.
- Paging.Mmu.GetPage: the physical addresses of the tables and their access bits (tablesPhysical, physicalAddr), which only the processor reads.
- The heap's index is kept apart from the byte-addressed memory it is placed in, task control blocks apart from the stacks, and page tables and directories in maps by address; a bitmap word is its 32 bits; heap memory is a whole number of pages.
- Frame 0 is both a frame and the sign of an unmapped entry; the paging model starts from a state in which its bit is set, with an empty master directory. initialise_paging, whose identity tables do not mark bits, is not modelled.
- get_page allocating from the heap while the heap grows through get_page: pages backed by frames are a set in the heap model, and the page tables of the paging model come from the bump allocator.
- kmalloc and kfree over the heap, alloc_new_page_directory, create_new_page_directory, free_page_directory, free_page_table: wrappers, or no conservation law.
- physical_address_to_virtual, which indexes outside its table from frame 1024 on.
- CR3 and CR0 loads, the task state segment, interrupts, privilege changes, the first switch, descriptor tables, system calls, boot code, monitor_printf, src/deprecated.
