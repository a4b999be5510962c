# Verified model of the microkernel's memory stack, scheduler, message passing, lists and printers

The system is an x86 microkernel made of modules. This project models four of its parts and proves what they keep, in
Dafny 4.11. `dafny verify dfyconfig.toml` checks all of it.

**Memory.** A bitmap allocator hands out physical frames (`FrameBitmap`, over the word arithmetic of `WordBits`). The
pager keeps two-level page maps in those frames (`Pager`): a class whose methods read and write physical memory through
the pages that the current directory maps, as the code does, with the directory visible in its own last slot.
`AddressSpace` says who owns each frame; `AddressSpaceLaws` proves that page allocation, switching and user writes keep
one owner for each frame, and that a copy of an address space does exactly when it is clean. `AddressSpaceRuns` proves what
follows over whole runs, with every outcome of an operation: isolation of address spaces. `TableClone` and `Translation`
carry the proof that copying through two temporarily remapped pages is a copy, `KernelGrowth` that it commutes with the
kernel pages that `kalloc_a` maps on the way; `CopyLaws` says what that is from the call to its end, and `PageAccounting`
counts the frames that pages take. `CopyChoice` quantifies over the frames that the allocator may pick, and `SmallMachine`
has the memories on which copies and allocations go wrong.
The kernel heap (`Heap`) keeps its bin headers in one growing region linked by slot number, in a live list and a recycled
list; `HeapSpec` says what a call does to the bins in address order, `HeapLaws` what every run keeps, `HeapBacking` which of
its bytes lie in pages it has asked for, and `HeapPages` which of them the page map has entries for. `PageUnits` is the
page size and its rounding, shared by all.

**Scheduler and messages.** `Ipc` is a transition system with one step for each section that runs with interrupts off;
`IpcLaws` proves its run properties. `Tasking` is the code over task objects, the ring of tasks and the table of user
tasks; every method is proved to take the objects through the step of the transition system. `MessageQueue` is the
bounded buffer, as a function on values and as a class over an array.

**Lists.** `List` is the pointer-linked list and its round variant, which the ring of tasks is built on.

**Printers.** `Printers` has the two number printers, one working from the highest power of the base downwards in a loop
and one recursing from the lowest digit, and a reader that inverts both.

## Where the code departs from what it seems meant to do

Each of these is kept as it is in the code; the member named proves when the code does meet the promise or shows an input.

- `bm_freepg` counts without looking at the bit: `FrameBitmap.FrameAllocator.FreePage` keeps the counters right exactly
  when the frame was taken.
- The bitmap scan's bound counts bytes where words are meant, and the search hint can equal the number of pages:
  `FrameBitmap.FrameAllocator.GetFree` and `GetPage` answer a frame of the machine, with the counters in order, exactly
  when the hint is in range or the bit behind the last page reads as set. `FrameBitmap.HintBehindTheMachine` is a run of
  three calls that ends with a frame that does not exist.
- Block operations keep the page index in 16 bits: `FrameBitmap.BlockIsRequested` says exactly which blocks come out right.
- `freepg` tests the old entry the wrong way around: `Pager.PageManager.FreePg`.
- `clonetbl` never zeroes the new table, and nothing zeroes a frame on the way. A copy keeps one owner for each frame, and
  the child's unmapped pages unmapped, if and only if the words it leaves alone were zero: `AddressSpaceLaws.CloneLaw` and
  `UnmappedStaysIff`. What can be looked at before the call is whether a free frame holds a nonzero word where a table to
  be copied maps nothing; exactly then some choice of frames goes wrong: `CopyChoice.AnyCopyOwnedIff`.
  `SmallMachine.StaleCopySharesAPage` is a copy after which a store by the child changes its parent's page.
- The pager uses the null pointer of a failed `getpg` as a frame. With no free frame, `remappg` makes frame 0 a table
  (`Pager.PageManager.NewTable`, `Remap`) and `clonetbl` copies pages over it (`ClonePage`); with one, `allocpg` of a page
  without a table does (`AllocPage`, `SmallMachine.LastFrameIsNotEnough`). `CloneDirectory` makes a copy, and the pages it
  works through are mapped, if and only if as many frames are free as both take, for which it does not look:
  `SmallMachine.CopyNeedsTwoFrames`.
- `clonedir` copies the kernel's slots first and lets `kalloc_a` map kernel pages after that, so a kernel table made on the
  way is missing in the copy: `AddressSpaceLaws.KernelWriteSeenByCopy` says when a kernel page is seen through it.
- Growth of a free last bin by `kalloc` asks the pager for too little at an unaligned address:
  `HeapBacking.TailGrowthLeavesAPageUnbacked`. The bytes stay mapped if and only if the bin ends within the request, or in
  a page that is mapped already: `HeapBacking.GrowthBackedIff`.
- `message_pop` never wraps `head` forwards, so the pop that follows as many pops as there are slots reads past the
  buffer, and a push to a full buffer hides the oldest message: `MessageQueue.PopTakesOldestIff`,
  `MessageQueue.PushAppendsIff`, `MessageQueue.FullPushAndSecondPop`. So a receive that was woken can read past the
  buffer: `IpcLaws.NoLostWakeup` says exactly when, `IpcLaws.WokenReaderPastTheBuffer` is a run.
- A sender blocked on a full buffer is not woken when the receiver makes room: `IpcLaws.SleepsUntilAddressed`,
  `IpcLaws.SenderAndReceiverBothBlock`.
- `list_insert` before the head of a ring of two or more nodes leaves the ring open: `List.List.Insert`.
- `list_insert` answers the old number of elements where root/usr/include/module/datatype/list.h:51-57 says the index of
  the new node: `List.List.Insert` answers that exactly where the index is past the end.
- `__printi_loop` does not count the digits it writes: `Printers.Stream.PrintILoop`.

## Model

| member | source | states |
|---|---|---|
| WordBits.WriteWordBit | module/bmpmm/main.c:16-18 | setting or clearing one bit of a 32-bit word changes that bit and no other |
| WordBits.BitIsDigit | module/bmpmm/main.c:16-18 | bit `j` of a word is its binary digit for 2^j: the word is odd after `j` halvings |
| WordBits.FullWord | module/bmpmm/main.c:22 | the all-ones test skips exactly the words without a clear bit |
| FrameBitmap.WriteThenTest | module/bmpmm/main.c:16-18 | the bitmap macros are a map from pages to booleans: a write is read back at its page and nowhere else |
| FrameBitmap.FrameAllocator.TakenInWords | module/bmpmm/main.c:16-18 | frame `i` is taken if and only if the digit for 2^(i % 32) of bitmap word `i / 32` is 1 |
| FrameBitmap.FrameAllocator.SeekFree | module/bmpmm/main.c:20-29 | finds the first clear bit, inside the bitmap although the loop bound is in bytes: in the words, the digit of the answered frame is 0 and all below are 1 |
| FrameBitmap.FrameAllocator.GetFree | module/bmpmm/main.c:31-40 | answers a free frame, the hint's or else the first; a frame of the machine if and only if the hint is in range or the guard bit is set |
| FrameBitmap.FrameAllocator.GetPage | module/bmpmm/main.c:42-56 | fails exactly when every frame is taken; otherwise it takes a free frame of the machine, and the counters stay the sizes of the two sets, if and only if the hint is in range or the guard bit is set; the digit of the frame in its word goes from 0 to 1 |
| FrameBitmap.HintBehindTheMachine | module/bmpmm/main.c:31-74 | on a machine of two pages a frame is given out, freed, and then one that does not exist is given out |
| FrameBitmap.FrameAllocator.ReservePage | module/bmpmm/main.c:58-66 | adds one frame to the taken ones, whether or not it was there |
| FrameBitmap.FrameAllocator.FreePage | module/bmpmm/main.c:68-74 | removes the frame; the counters stay right if and only if it was taken |
| FrameBitmap.FrameAllocator.AddBlock | module/bmpmm/main.c:76-86 | takes the frames of the block as its 16-bit index reaches them |
| FrameBitmap.FrameAllocator.RemoveBlock | module/bmpmm/main.c:88-98 | releases the same frames |
| FrameBitmap.BlockIsRequested | module/bmpmm/main.c:77-84 | those are the frames asked for if and only if the block ends by page 65536 |
| FrameBitmap.InBlock | module/bmpmm/main.c:76-98 | a frame is in the block if and only if it is below 65536 and less than the length behind the first, counted modulo 65536 |
| FrameBitmap.FrameAllocator.CountPages | module/bmpmm/main.c:140-150 | the counting loop makes the two counters the numbers of taken and free frames |
| Translation.TranslateIsWalk | module/paging/main.c:22-49 | the page map is read as the processor walks it: upper ten bits, lower ten bits, bit 0 for presence and the upper 20 bits for the frame |
| AddressSpace.EntryLayout | module/paging/main.c:36-44 | an entry is the frame times 4096 plus 12 bits of flags, and it is present if bit 0 of the flags is set |
| AddressSpaceLaws.AddTableLaw | module/paging/main.c:31-42 | with the tables owned, a new zeroed table changes no page of any directory, whoever owns the pages; one owner for each frame stays |
| AddressSpaceLaws.WriteEntryLaw | module/paging/main.c:44 | with the tables owned, a write to one entry changes that page in the directories that share the table, and no other page anywhere |
| Pager.PageManager.constructor | module/paging/main.c:223-224 | the boot directory is taken over without its identity mapping |
| Pager.PageManager.GetFrame | module/paging/main.c:32 | the frame that the pager takes from `getpg`: a free one, or frame 0 exactly when none is free |
| Pager.PageManager.NewTable | module/paging/main.c:31-42 | a slot without a table gets a free frame, or frame 0 exactly when none is free, entered and zeroed through the window of the directory |
| Translation.NewTableReachableIff | module/paging/main.c:36-42 | the new table can be cleared through the window if and only if the flags have the present bit |
| Pager.PageManager.Remap | module/paging/main.c:22-49 | answers the old entry of the page, writes the new one, and changes no other page of any directory; the directories stay in order if and only if a table or a free frame was there |
| Pager.PageManager.Map | module/paging/main.c:51-65 | a page with a nonzero entry stays as it is, and the answer is nonzero exactly then; otherwise that page and no other is written |
| Pager.PageManager.AllocPage | module/paging/main.c:67-79 | fails exactly when no frame is free; otherwise it is a page allocation that keeps directories and tables in order, and one owner for each frame where that held, if and only if the table was there or more than one frame was free; if not it makes frame 0 the table |
| AddressSpaceLaws.AllocLaw | module/paging/main.c:67-79 | one page allocation keeps the ownership invariant and every entry of every directory that was there; a page without an entry gets one with the flags asked for on a frame that was free, and a slot without a table likewise on another frame; all other slots stay |
| Pager.PageManager.AllocPages | module/paging/main.c:81-94 | succeeds with every frame in order if and only if the frames it has to find are free; then every page in range is mapped and the frames taken are one for each unmapped page and one for each missing table; earlier mappings stay, pages out of range read as before, and nothing changes where all was mapped; every entry and every slot that comes to be there has the flags asked for and a frame that was free |
| PageUnits.PageCount | module/paging/main.c:82-84 | the least number of pages that hold the bytes |
| PageAccounting.NeedOfStep | module/paging/main.c:67-79 | for any set of pages, frames taken and frames still needed stay the same in sum when one of them is mapped |
| PageAccounting.NeedStep | module/paging/main.c:85-92 | what one page of a range takes is what the rest of the range needs less |
| PageAccounting.DemandStep | module/paging/main.c:69-92 | after a page, the frames left are enough for the rest if and only if they were for the whole, counting the frame that a mapped last page costs for a moment |
| Pager.PageManager.FreePg | module/paging/main.c:96-102 | the invariant stays if and only if the page was mapped, and then its frame stays taken; otherwise frame 0 is given back |
| Pager.PageManager.SwapDirectory | module/paging/main.c:113-120 | only the current directory changes |
| Pager.PageManager.ClonePage | module/paging/main.c:137-146 | one page is copied to a free frame, or over frame 0 exactly when none is free, through a scratch page that then maps what it did before |
| Pager.PageManager.CloneTable | module/paging/main.c:122-156 | with a free frame for each mapped entry, each gets one of its own with the same flags and contents; with fewer, some mapped entry has frame 0 in the copy; the scratch mappings and all owned frames are as before |
| Pager.PageManager.CloneSlots | module/paging/main.c:170-177 | the loop over the private tables leaves all of them copied from the space as the kernel has grown meanwhile, or one of them, or a page of one, in frame 0, by the frames that were free; it breaks off only where there were too few |
| Pager.PageManager.CloneDirectory | module/paging/main.c:158-182 | with the kernel pages that `kalloc_a` maps on the way, the new directory is a copy of the grown space, and all those pages are mapped, if and only if as many frames are free as both take; its kernel slots are those before; one owner for each frame holds again if and only if the copy is one and clean; otherwise some table or page of it is frame 0; the frames owned before are not changed by the copy; where that many are free, exactly that many are taken, and the pointers to tables are those of the copied slots |
| CopyLaws.PageCopiedFromStart | module/paging/main.c:122-182 | from the call to the end, whatever kernel pages are mapped in between, each private page of the parent is in the child with the same flags and contents on a frame that was free at the call, and is in the parent what it was |
| CopyLaws.CopiedSlot | module/paging/main.c:162-180 | a private slot of the new directory is empty or has the flags of the old one and a table in a free frame; the kernel slots are those of the old one or empty; the last slot maps the directory itself, present and writable |
| CopyLaws.GrownLaw | module/paging/main.c:125-126 | all the kernel growth of a copy keeps one owner for each frame, every entry, and all private pages with their contents; what it adds is present and writable and on frames that were free |
| CopyLaws.CloneNeedCounts | module/paging/main.c:138-174 | what a copy needs is one frame for each private table and one for each private page |
| KernelGrowth.GrowthUnderCopy | module/paging/main.c:125-126 | a kernel page mapped in the course of a copy could have been mapped before it: what is copied so far is a copy of the grown space |
| KernelGrowth.ServedInSlot | module/paging/main.c:125-126 | the same between the frame for a new table and its contents, with the accounts of frames needed and free |
| KernelGrowth.CopyingEnd | module/paging/main.c:158-182 | over all slots, there were frames enough for copy and kernel pages if and only if there are enough for the copy after the growth and all pages asked for are mapped |
| TableClone.CloneRestored | module/paging/main.c:150-152 | giving the scratch page its old entry back leaves the copy and nothing else |
| SmallMachine.CopyCanStart | module/paging/main.c:158-182 | memories in which all that the copy needs of directory, tables and scratch pages holds |
| SmallMachine.StaleCopySharesAPage | module/paging/main.c:133-136 | a copy from such a memory, one free frame of which was written before, maps the page of the parent into the child; a store by the child changes it |
| SmallMachine.CopyNeedsTwoFrames | module/paging/main.c:138 | a memory whose copy takes two frames, so that one free frame is not enough |
| SmallMachine.LastFrameIsNotEnough | module/paging/main.c:32 | a memory with one free frame in which no allocation in a slot without a table comes out right |
| AddressSpaceLaws.CopiedPage | module/paging/main.c:131-148 | after a copy each mapped user page of the parent has the same flags and contents in the child, on a fresh frame; the parent's entry and contents are unchanged |
| AddressSpaceLaws.UnmappedStaysIff | module/paging/main.c:133-136 | what the parent does not map is unmapped in the child, for all pages of the user range, if and only if the words left alone in the new tables were zero |
| AddressSpaceLaws.CloneLaw | module/paging/main.c:158-182 | a copy keeps directories and tables in order, and one owner for every page if and only if the words left alone in the new tables were zero |
| AddressSpaceLaws.CleanFramesCopyClean | module/paging/main.c:133-136 | no copy leaves a nonzero word where no free frame has one at an entry that is not mapped, in particular where free frames are zero, which a copy keeps |
| CopyChoice.AnyCopyOwnedIff | module/paging/main.c:122-182 | with frames enough, every choice of free frames gives a copy with one owner for each frame if and only if no free frame has a nonzero word at an unmapped entry of a table to be copied |
| AddressSpaceLaws.KernelWriteSeenByCopy | module/paging/main.c:163-167 | a write into a kernel table is read through the new directory if and only if that has got the slot of the table |
| AddressSpaceLaws.KernelPageSharedIff | module/paging/main.c:163-167 | a new kernel page is seen through both directories if and only if its table existed before |
| AddressSpaceLaws.OneOwner | module/paging/main.c:67-94 | no frame is mapped by two pages, except that directories share kernel tables |
| AddressSpaceLaws.StoreLaw | module/paging/main.c:158-182 | a write through one directory's user range changes the contents of no other page |
| AddressSpaceRuns.StepKeepsInv | module/paging/main.c:67-182 | an operation, with all its outcomes, keeps one owner for each frame if and only if it does not run out of frames half-way and, if it copies, copies cleanly |
| AddressSpaceRuns.RunKeepsInv | module/paging/main.c:67-182 | over every run of allocations, copies, switches and writes one owner for each frame holds up to a state if and only if all operations before it find their frames and all copies are clean |
| AddressSpaceRuns.ZeroFramesRunClean | module/paging/main.c:67-182 | from free frames that are zero every copy of every run that finds its frames is clean, and free frames stay zero |
| AddressSpaceRuns.RunIsolation | module/paging/main.c:67-182 | over every run a user page keeps frame and contents for as long as its own directory does not write it, up to and through the first operation that runs out of frames or copies uncleanly |
| Heap.KernelHeap.constructor | module/heap/main.c:225-241 | the first heap: one free bin of a page, mapped |
| Heap.KernelHeap.FindFreeBin | module/heap/main.c:20-30 | takes the first recycled header or a new one, and only that |
| Heap.KernelHeap.AddBin | module/heap/main.c:32-61 | a new free bin stands behind its parent, or nothing changes for an address below the heap or an empty size |
| Heap.KernelHeap.RemoveBin | module/heap/main.c:63-88 | the header goes from the live list to the end of the recycled one, unless it is the only one |
| Heap.HeadersConserved | module/heap/main.c:20-88 | the two lists, acyclic and disjoint, hold every header of the region |
| Heap.KernelHeap.AppendBin | module/heap/main.c:90-93 | one more bin where the last one ends |
| Heap.KernelHeap.MergeBin | module/heap/main.c:95-116 | the bin absorbs the whole run of free bins around it, and the loop ends |
| Heap.KernelHeap.SplitBin | module/heap/main.c:118-126 | the bin is cut, and the rest follows as a free bin |
| Heap.KernelHeap.FindBestFit | module/heap/main.c:128-143 | the first of the smallest free bins that are large enough, or none exactly when no bin is |
| Heap.KernelHeap.FindAlignedFit | module/heap/main.c:155-168 | the same among the aligned bins, although the signed 32-bit values of the differences from the unrounded request are compared |
| Heap.KernelHeap.Alloc | module/heap/main.c:190-210 | takes the heap through the specified allocation and asks the pager for the specified pages |
| Heap.KernelHeap.AllocAligned | module/heap/main.c:145-188 | the same for an aligned request, with padding in front of the new bin |
| Heap.KernelHeap.PadTail | module/heap/main.c:170-178 | the tail is padded, in place or by what is still to be appended, by as much as the specified allocation says; `HeapLaws.GrownAddress` says where that leads |
| Heap.KernelHeap.Free | module/heap/main.c:212-223 | takes the heap through the specified free; an address that no bin has changes nothing |
| HeapLaws.AllocationLaw | module/heap/main.c:145-210 | an allocation keeps the bins tiling the heap and coalesced, and adds one live bin of the rounded size, 16-byte aligned and aligned as asked, apart from all others |
| HeapLaws.GrownAddress | module/heap/main.c:145-210 | where no free bin has the room at an aligned address, the new bin stands at the end of the taken ones, or at the next multiple of the alignment, with no multiple in between; behind a free last bin, which becomes the padding, its own address does not count |
| HeapLaws.FittedAddress | module/heap/main.c:118-210 | where one has, the answer is the first of the smallest, cut to the request, and all other bins stay |
| HeapLaws.GrownRequests | module/heap/main.c:59-202 | the pages that growth asks for: those of the bin and of its padding, with a page of slack where a bin is added |
| HeapLaws.FreeLaw | module/heap/main.c:212-223 | a free keeps tiling and coalescing, and removes the live bin at that address and no other; the heap ends where it did |
| HeapLaws.StepLaw | module/heap/main.c:145-223 | a request is refused, with the null pointer and no change, if and only if its size is 0 or its alignment no multiple of 16; otherwise one live bin is added, and no call touches another live bin than the one it frees |
| HeapLaws.DoubleFree | module/heap/main.c:212-223 | a second free of the same pointer changes nothing |
| HeapLaws.AllocateFreeRoundTrip | module/heap/main.c:118-223 | a request served from an existing bin and freed again restores exactly the same bins |
| HeapLaws.RunKeepsHeapInv | module/heap/main.c:145-223 | in every state of every run the bins tile the heap and no two neighbours are free |
| HeapLaws.LiveBlockSafety | module/heap/main.c:145-223 | over every run a block is neither moved nor resized until it is freed, and is apart from all other live blocks |
| HeapBacking.RequestCovers | module/paging/main.c:81-94 | a request for mapped pages covers given bytes if and only if they end by the last page it counts |
| HeapBacking.SlackCovers | module/heap/main.c:59 | the page of slack covers every byte of a new bin at any page offset |
| HeapBacking.PadAndBinCovered | module/heap/main.c:176-183 | padding stays mapped without slack for every alignment, because the request of the bin behind it starts where that of the padding ends |
| HeapBacking.GrowthBackedIff | module/heap/main.c:200-202 | growth of a free last bin leaves every byte of the heap mapped if and only if the bin ends by the last page asked for, or in a page that was mapped |
| HeapBacking.StepBackedIff | module/heap/main.c:145-223 | a call on a mapped heap leaves every byte of every bin mapped if and only if it is not such a growth, or meets that condition |
| HeapBacking.RunBackedIff | module/heap/main.c:145-223 | over every run every byte of every bin stays mapped if and only if each growth of a free last bin meets that condition where it happens |
| HeapBacking.TailGrowthLeavesAPageUnbacked | module/heap/main.c:200-202 | on a fresh heap requests of 4080 and 8176 bytes leave a byte unmapped |
| HeapPages.AllocPagesServes | module/paging/main.c:81-94 | the pages that the heap asks for come to have entries, and no other page changes |
| HeapPages.PaddedGrowthServed | module/heap/main.c:170-183 | the two requests of a padded allocation are together what it asks for |
| HeapPages.RunMappedIff | module/heap/main.c:145-223 | over every run of calls served by the pager every byte of every bin lies on a page with an entry after every call, if and only if each growth of a free last bin meets the condition on the page map it finds |
| List.List.Push | module/dthelper/list.c:39-71 | appends, for linear and round lists, and keeps both directions of links, head, tail and count |
| List.List.SeekNode | module/dthelper/list.c:73-83 | the node at the index, around the ring for a round list, or null past the end |
| List.List.Insert | module/dthelper/list.c:85-109 | inserts in front of the index, or at the end; for a linear list the answer is the new index exactly at the end; a ring stays closed if and only if it was empty, the place is not its head, or it has one node |
| List.List.At | module/dthelper/list.c:111-122 | the element at the index, or null |
| List.List.Find | module/dthelper/list.c:137-147 | the first index of the data, or -1 if and only if it is not there |
| MessageQueue.PushAppendsIff | module/message/main.c:10-17 | a push appends to the queue if and only if it is not full |
| MessageQueue.FullPushLosesTheOldest | module/message/main.c:10-17 | on a full queue the push overwrites the oldest message, and the newest is read next |
| MessageQueue.PopTakesOldestIff | module/message/main.c:19-30 | a pop takes the oldest message while fewer pops than slots went before, and reads past the buffer after that |
| MessageQueue.RunIsFifo | module/message/main.c:10-30 | over every run without pushes to a full queue the messages popped are a prefix of those pushed, across wraps of `tail`, unless there are more pops than slots |
| MessageQueue.FullPushAndSecondPop | module/message/main.c:10-30 | a buffer of one slot where both limits are passed |
| MessageQueue.MessageBuffer.Push | module/message/main.c:10-17 | the array, tail and count become those of the push on values |
| MessageQueue.MessageBuffer.Pop | module/message/main.c:19-30 | head and count become those of the pop on values, and the answer is what it reads |
| Ipc.StepTasks | module/message/main.c:40-91 | a step changes the current task, the task sent to and a new one at most, pids being unique |
| Ipc.StepKeepsInv | module/message/main.c:40-91 | every step keeps pids unique, the current task unblocked, and each receiver blocked exactly while its buffer is empty |
| IpcLaws.SendOutcome | module/message/main.c:40-60 | a send answers that there is no such task, or writes the message at the tail and wakes the task it is for, or blocks the sender with its message and goes to the next unblocked task |
| IpcLaws.ReceiveOutcome | module/message/main.c:62-91 | a receive or poll takes the message at the head out of the buffer; on an empty one the receive blocks and the poll changes nothing |
| IpcLaws.ResumeOutcome | module/message/main.c:53-78 | a woken receiver takes the message at the head; a woken sender pushes its message, full or not, and wakes the task it is for |
| IpcLaws.TickAndSpawnOutcome | module/tasking/main.c:28-112 | a tick goes to the next unblocked task in the table, or to the bootstrap task, and changes nothing else; a new task comes last, unblocked, with the next pid and an empty buffer |
| IpcLaws.RunKeepsInv | module/message/main.c:40-91 | and so does every run |
| IpcLaws.NoLostWakeup | module/message/main.c:62-79 | in every state of every run a task that waits in receive is blocked exactly while its buffer is empty; one that resumes reads a message if and only if its head is still inside the buffer, and what lies behind it if not |
| IpcLaws.WokenReaderPastTheBuffer | module/message/main.c:19-79 | a run from the first state, with buffers of one message, in which a woken receiver reads past its buffer |
| IpcLaws.SpawnedPidIsNewIff | module/user/main.c:92 | a pid is new if and only if fewer than 2^32 tasks were spawned |
| IpcLaws.WokenIff | module/message/main.c:48-56 | a step unblocks a task if and only if a message is sent to it: one that finds room, or that of a blocked sender that goes on |
| IpcLaws.SleepsUntilAddressed | module/message/main.c:48-55 | a blocked task sleeps on through every run in which nobody sends to it, whatever its receiver does |
| IpcLaws.AllBlockedForever | module/tasking/main.c:28-34 | once every user task is blocked nothing but a new task changes the system |
| IpcLaws.SenderAndReceiverBothBlock | module/message/main.c:40-79 | a run that ends so, with the receiver's buffer empty |
| IpcLaws.NextReadyIsFirst | module/tasking/main.c:28-34 | the task switched to is the first unblocked one in ring order |
| IpcLaws.BoundedFairness | module/tasking/main.c:28-112 | a task that stays unblocked is dispatched within as many switches as the ring is long, and one for each task created meanwhile; switches are ticks and steps in which the running task comes to be blocked |
| IpcLaws.DeliveredInOrder | module/message/main.c:40-91 | over every run of the whole system in which no message is sent to a task when its buffer is full, and it is answered no more messages than there are slots, what its receives and polls answer are the messages sent to it in order, each once, and its buffer holds the rest |
| Tasking.Kernel.constructor | module/tasking/main.c:125-142 | the ring of the bootstrap task and the empty table are the first state |
| Tasking.Kernel.TaskSwitch | module/tasking/main.c:28-34 | the walk over the ring ends, at the task that the transition system dispatches |
| Tasking.Kernel.Tick | module/tasking/main.c:83-112 | a tick switches exactly while tasking is enabled |
| Tasking.Kernel.Find | module/user/main.c:197-203 | the first user task with the pid, or null |
| Tasking.Kernel.SetBlocked | module/user/main.c:167-185 | blocks or wakes that task and no other |
| Tasking.Kernel.IsBlocked | module/user/main.c:187-195 | whether that task is blocked; not if there is none |
| Tasking.Kernel.Spawn | module/user/main.c:59-105 | a new unblocked task with the next pid at the end of ring and table |
| Tasking.Kernel.AsyncSend | module/message/main.c:40-60 | takes the objects through the send step, blocking or not |
| Tasking.Kernel.SendResumed | module/message/main.c:53-59 | the rest of a send that had blocked |
| Tasking.Kernel.AsyncRecv | module/message/main.c:62-79 | takes the objects through the receive step and answers as it does; it blocks exactly when the buffer is empty |
| Tasking.Kernel.RecvResumed | module/message/main.c:72-78 | the rest of a receive that had blocked: the buffer has a message, and it is the answer if and only if the head is inside the buffer |
| Tasking.Kernel.AsyncRecvPoll | module/message/main.c:81-91 | takes the objects through the poll step, in which the message leaves the buffer, and answers that message, or null exactly when the buffer is empty |
| Printers.ValueOfDigits | lib/libc/stdio/print.c:61-72 | the digits of a number have its value and no leading zero |
| Printers.DigitsOfValue | lib/libc/stdio/print.c:61-72 | they are the only digits that do |
| Printers.FromTopIsDigits | module/logger/print.c:15-26 | dividing by powers from the highest down gives the same digits as the recursion from the lowest |
| Printers.ParseOfText | module/logger/print.c:8-29 | every 32-bit integer is read back from its text, the smallest one too, in every base from 2 to 36 |
| Printers.TextSpelled | module/logger/print.c:8-29 | the text is a minus sign for a negative number and one character for each power of the base up to the highest in the number, each the digit of that place, as a decimal digit or a letter in the case asked for |
| Printers.TextLetters | module/logger/print.c:23 | apart from the sign every character is a decimal digit, or an upper case letter if those are asked for and a lower case one if not |
| Printers.TextIsInjective | module/logger/print.c:8-29 | different integers have different texts |
| Printers.HighestPower | module/logger/print.c:15-17 | the first loop ends at the highest power of the base in the number, without overflow |
| Printers.WriteDigits | module/logger/print.c:18-26 | the second loop writes the digits of the number and nothing else |
| Printers.LItoa | module/logger/print.c:8-29 | the buffer holds the text and a zero byte, and is otherwise unchanged; every character but the sign is a decimal digit or a letter in the case asked for |
| Printers.Stream.PrintILoop | lib/libc/stdio/print.c:61-72 | prints the digits, and answers 0 |
| Printers.Stream.PrintI | lib/libc/stdio/print.c:74-83 | prints the same text as the other printer, and answers the number of signs, letters in upper case |

## Left out

- FrameBitmap.FrameAllocator.SeekFree: bitmaps without a clear bit, which only wrong counters lead to; the scan then runs
  over the end of the bitmap.
- FrameBitmap.FrameAllocator.FreePage: like the other operations on the bitmap, frames of the machine only.
- FrameBitmap.FrameAllocator.CountPages: the part of `_pmm_init` before its counting loop, which copies the memory map.
- Pager.PageManager.Remap: pages below the window only (directory slot under 1023). Where a table is missing the flags
  have the present bit; without it the code faults on the new table (`Translation.NewTableReachableIff`). Frame numbers
  stand for page addresses.
- Pager.PageManager.AllocPages: how many pages a run that is short of frames has mapped when it stops.
- Pager.PageManager.FreePg: a slot without a table, for which the code enters one without the present bit and faults.
- Pager.PageManager.CloneDirectory: the page that `kalloc_a` gives for the new directory, the scratch pages, and the kernel
  pages asked for on the way to them are parameters, so the heap and the pager are not one state; what the code goes on to
  do with a kernel table in frame 0; `dir` is the current directory, as at its only call.
- Pager.PageManager.CloneSlots: the same.
- Pager.PageManager.CloneTable: the copies are of the entries present when the loop starts.
- Heap.KernelHeap.Alloc: requests after which the heap would reach the page-table window, where 32-bit addresses would
  wrap, and what a failing pager would do; the pages asked for are recorded in a ghost set, and `HeapPages` says what they
  are on the page map of one directory.
- Heap.KernelHeap.AllocAligned: alignment 0, by which the code divides.
- List.List.Push: allocation failure and null list pointers; the same holds for the other list operations.
- List.List.Insert: round lists are covered as far as the ring being closed; `tail` and `prev` of the head are not kept.
- List.List.Find: in a ring the data is there; the code does not stop otherwise.
- list_delete, list_remove, delete_list: they leave `head`, `tail` and `elements` stale.
- MessageQueue.RunIsFifo: what a pop finds past the buffer. The capacity, 128 in the code, is any number up to 32767.
- Ipc.StepKeepsInv: at most 2^32 tasks; `IpcLaws.SpawnedPidIsNewIff` says why.
- Tasking.Kernel.AsyncSend: the acknowledgement flag, which nothing sets, and the list of blocked senders, which nothing
  reads.
- Tasking.Kernel.Spawn: the program, its stack, its permissions and its copied address space. The saved instruction
  pointer of a task is the ghost field `status`, and the two halves of a call that blocks are two methods.
- Tasking.Kernel.TaskSwitch: the jump and the processor state that a dispatch loads.
- Locks, TLB flushes, accessed and dirty bits, interrupt depth, logging and panic output.
- Printers.LItoa: the format strings around the two printers, and bases outside 2..36.
- The C library's heap, the process server, the timers, the ELF loader, the drivers and the system call wrappers.
