# r9 kernel: five components, modelled and proved in Dafny

This project models the logic of five components of the r9 kernel and proves what they
promise, over every input, every run or every reachable state:

- **Recursive page tables** (`aarch64/src/vm.rs`, with `port/src/mem.rs`): physical memory as
  frames of 512 descriptors, the four-level walk of the Arm Architecture Reference Manual, and
  `map_to` and `map_phys_range` editing the tables through virtual addresses that pass through
  slot 511 of the root. Files `Bits`, `Mem`, `Descriptor`, `DescriptorBits`, `PageTable`,
  `PageTableShape`, `VirtualAddress`, `Vm`.
- **MCS queue lock** (`port/src/mcslock.rs`): a step system in which any number of threads
  interleave the atomic operations of `lock` and `unlock`, with spurious failures of the weak
  compare-exchange. File `McsLock`.
- **Bitmap page allocator** (`port/src/bitmapalloc.rs`): the class with its bitmaps, specified
  by what each operation does to the set of free pages. Files `Repeated`, `BitmapGeometry`,
  `BitmapScan`, `BitmapAlloc`, `BitmapRuns`.
- **QuickFit heap and bump allocator** (`port/src/allocator.rs`): the lock-free cursor under
  every interleaving, and the quick lists kept in the heap's own memory. Files `BumpAlloc`,
  `QuickFit`, `QuickFitHeap`, `QuickFitRuns`.
- **Flattened devicetree reader** (`port/src/fdt.rs`): trees, their flattening by sections
  5.4.1 and 5.4.2 of the Devicetree Specification, the linear scans that recover the tree, and
  the `reg` and `ranges` readers of sections 2.3.5, 2.3.6 and 2.3.8. Files `FdtTokens`,
  `FdtTree`, `FdtScan`, `FdtRoundTrip`, `FdtChildren`, `FdtParent`, `FdtReg`, `FdtTranslate`,
  `FdtCells`, `FdtWritten`.

`dafny verify dfyconfig.toml` checks the whole project.

How the models stand to the code:

- State that the source updates in place is a class whose methods reassign its fields; pure
  code is functions. Each loop of the source is a loop whose method is proved equal to a
  function or to a statement about the state, and the laws are proved of those.
- Integers are unbounded. Where the source works with bits (masks, shifts, bit fields), the
  model has the same operations on naturals and lemmas that tie them to arithmetic.
- `Repeated` writes products and quotients by a symbolic size as repeated addition;
  `BitmapGeometry.PhysAddrAsIndicesArithmetic`, `BitmapGeometry.IndicesAsPhysAddrArithmetic`
  and `BitmapGeometry.MaxBytesProduct` say that these are the source's `*`, `/` and `%`.
- `FdtTokens.Lex` lists the token that starts at each byte of a block, so that the scans are
  functions of tokens; the iterators parse bytes where the source does.

Where the code does something other than its documentation or its name says, the model follows
the code and the exact condition is proved:

- `map_to` says it must put slot 511 of the kernel root back on exit; on an error it returns
  before doing so (`aarch64/src/vm.rs:391`). `Vm.Kernel.MapTo` says exactly when it fails, and
  that slot 511 then still leads to `self`; `Vm.MapToLeavesSlot` gives a state in which it does
  so for every address and page size.
- `deallocate` tests one bit and clears another (`port/src/bitmapalloc.rs:166` and `:169`).
  `BitmapAlloc.ClearedIsAsked` says when they are the same, `BitmapAlloc.DeallocateDiverges`
  gives an input for which they are not and `BitmapAlloc.DeallocateFreesAnother` an allocator.
- Everything from `end` up is to stay allocated (`port/src/bitmapalloc.rs:54`), but the guard of
  `deallocate` lets `end` itself through (`port/src/bitmapalloc.rs:159`).
  `BitmapAlloc.BitmapPageAlloc.Deallocate` keeps the allocator's invariant if and only if the
  address is not `end`, or `end` is not in the first byte of its bitmap: then the wrong bit
  cleared belongs to a page below `end`. `BitmapAlloc.DeallocateAtEnd` brings an allocator to
  the page at `end` being free.
- `usage_bytes` subtracts the free pages' bytes from `end` without a sign. With an end inside a
  page the difference is negative if and only if every page that starts below it is free:
  `BitmapAlloc.UsageUnderflows`; `BitmapAlloc.UsageGoesNegative` brings an allocator there.
- The byte scan is said to go only over bytes that cover pages below `end`
  (`port/src/bitmapalloc.rs:249`). It goes on to the end of a bitmap, and its running address
  lags: `BitmapScan.ScanStaysBelowIff` says when the promise holds and `BitmapScan.ScanGoesPast`
  gives a case in which it does not.
- `mark_range` rounds outward, so `free_unused_ranges` can free a page that a used range is
  using. For any list of non-empty used ranges sorted by start this happens if and only if a gap
  between them that starts in available memory has an unaligned start, or an unaligned end inside
  it: `BitmapAlloc.LosesPageIff`. For a single range the condition is that the range is not
  page-aligned: `BitmapAlloc.UnalignedRangeLosesPage`. One caller passes such a range
  (`aarch64/src/main.rs:119`).
- The compare-exchange of `unlock` is the weak one, and a lone releaser for which it fails spins
  until another thread arrives: `McsLock.NoLostWakeup` (an if and only if) and
  `McsLock.LoneSpinnerReachable`.
- `children` does not stop at its node's end token: `FdtChildren.ChildrenRoundTrip` says what it
  yields, `FdtChildren.ChildrenAreKidsIff` when that is the node's children, and
  `FdtChildren.ChildrenOverrun` gives a tree for which it is not.
- A missing `ranges` property is taken for the identity, unlike section 2.3.8 of the Devicetree
  Specification: `FdtTranslate.RangesRead`.
- `realloc` is said to return the same block when the new size still fits it
  (`port/src/allocator.rs:307-313`), but compares the new layout, adjusted, with the old one as
  given (`port/src/allocator.rs:339`). `QuickFitHeap.StaysIff` says when the block is kept,
  `QuickFitHeap.FitsButMoves` gives sizes that fit and do not keep it, and
  `QuickFitHeap.ReallocRefuses` an allocator that then returns null.
- `alloc_tail` passes its size and alignment in the wrong order (`port/src/allocator.rs:266`);
  for quick layouts the two are equal, `QuickFit.AdjustQuick`.

## Model

| member | source | states |
|---|---|---|
| `Mem.RoundsDown` | port/src/mem.rs:64-67 | masking gives the largest multiple of a power-of-two step that is not above the address |
| `Mem.RoundsUp` | port/src/mem.rs:59-62 | the smallest multiple of the step not below the address, when the sum does not overflow |
| `Mem.StepsRounded` | port/src/mem.rs:144-148 | the steps are exactly the multiples between the rounded bounds, in order, and the last one ends at the rounded end |
| `Mem.StepsMeetRange` | port/src/mem.rs:144-148 | for a non-empty range, an aligned block is stepped on if and only if it meets the range |
| `DescriptorBits.DecodeEncode` | aarch64/src/vm.rs:92-105 | reading the bit fields of a descriptor word gives back the fields it was packed from |
| `DescriptorBits.EncodeDecode` | aarch64/src/vm.rs:92-105 | packing the fields of any 64-bit word, with its unnamed bits, gives back the word |
| `DescriptorBits.FieldBits` | aarch64/src/vm.rs:94-104 | each field of an entry stands in the bits of the word that the source declares for it |
| `DescriptorBits.TableWord` | aarch64/src/vm.rs:112-120 | the 64-bit word that `next_mut` writes for a new table |
| `Descriptor.WithPhysAddr` | aarch64/src/vm.rs:155-157 | the address field keeps exactly bits 12 to 47 of the address, and no other field changes |
| `Descriptor.TableEntry` | aarch64/src/vm.rs:315-317 | the entry `next_mut` writes is valid, is a table entry, and points to the new table's frame |
| `VirtualAddress.VaIndexBits` | aarch64/src/vm.rs:239-246 | shift and mask give the base-512 digit of the address at the level |
| `VirtualAddress.RecursiveTableAddr` | aarch64/src/vm.rs:261-277 | the four indices of the recursive address are 511s followed by the indices of `va` down to the level |
| `VirtualAddress.RecursiveTableAddrBits` | aarch64/src/vm.rs:261-277 | the source's masks, shifts and ors compute that address, for every address and level |
| `VirtualAddress.SameBlock` | aarch64/src/vm.rs:239-246 | two addresses lie in the same block of a level if and only if their indices agree down to it |
| `VirtualAddress.HighAlias` | aarch64/src/vm.rs:239-246 | an address and its copy in the upper half have the same four indices |
| `PageTable.RecursiveLanding` | aarch64/src/vm.rs:259-277 | from a root whose slot 511 leads to a self-referencing table, indices shifted behind 511s lead to the table they used to lead through |
| `PageTable.WriteRecursiveSlot` | aarch64/src/vm.rs:360-369 | changing slot 511 of the kernel root keeps the tree and every walk outside that slot |
| `PageTable.LinkKeepsWalks` | aarch64/src/vm.rs:312-321 | hanging an empty table into an invalid entry changes no translation |
| `PageTable.LinkKeepsTree` | aarch64/src/vm.rs:312-321 | and the tables still form a tree with no shared frame |
| `PageTable.LeafWalks` | aarch64/src/vm.rs:386-391 | writing a leaf changes the walks through its position to that leaf and no other walk |
| `PageTable.LeafKeepsTree` | aarch64/src/vm.rs:386-391 | writing a leaf over anything keeps the tree |
| `PageTableShape.LackingIsMissing` | aarch64/src/vm.rs:309-321 | the number of frames that a list of paths takes is the number of positions on them that have no table, each counted once |
| `PageTableShape.ObstacleNext` | aarch64/src/vm.rs:308-330 | after edits along some paths, the next path can be made if and only if all of them together fit the old tables and frames, and is blocked if and only if it was |
| `PageTableShape.SpentNext` | aarch64/src/vm.rs:312-321 | one more edit leaves the tables of all paths made, the blocks where they stood, and one frame spent on each missing table |
| `Vm.RecursiveResolve` | aarch64/src/vm.rs:327-329 | an access at the recursive address, translated through the kernel root, reaches exactly the frame of `va`'s table at that level |
| `Vm.BeginMap` | aarch64/src/vm.rs:355-369 | redirecting slot 511 lets the kernel root reach `self`, and changes no translation, no table and no block |
| `Vm.FinishMap` | aarch64/src/vm.rs:386-396 | writing the leaf and restoring slot 511 leaves a tree whose walks are the old ones with one block replaced |
| `Vm.AbandonMap` | aarch64/src/vm.rs:391-391 | an edit given up before the leaf is written has changed no translation, and no frame outside the tables but for slot 511 of the kernel root |
| `Vm.MapToFails` | aarch64/src/vm.rs:371-391 | tables and an empty free set with which `map_to` runs out of frames for every address and page size |
| `Vm.MapToLeavesSlot` | aarch64/src/vm.rs:346-399 | in that state `map_to` fails with slot 511 of the kernel root other than it was, against its comment |
| `Vm.ClearKeepsRef` | aarch64/src/vm.rs:312-317 | clearing the new frame leaves the recursive reference resolving to the same table, so the write behind it lands where the read did |
| `Vm.MapsBlockTranslates` | aarch64/src/vm.rs:346-354 | after a block is mapped, each of its addresses translates to the block that holds the entry's address, at the same offset, or to nothing if the entry is invalid; every other address outside slot 511 as before |
| `Vm.MapsBlockAs` | aarch64/src/vm.rs:386-391 | after a block is mapped, the walk of each of its addresses ends at the depth of the page size, with the address and every attribute of the caller's entry, and nowhere if that is not valid |
| `Vm.MapsRangeTranslates` | aarch64/src/vm.rs:401-423 | after a range is mapped, each physical address of it is reached at itself plus KZERO, every other address outside slot 511 as before |
| `Vm.MapsRangeAs` | aarch64/src/vm.rs:408-423 | after a range is mapped, the walk of each of its addresses ends with the attributes of the caller's entry |
| `Vm.Kernel.AllocPagetable` | aarch64/src/vm.rs:332-336 | takes a free frame and clears it, or fails exactly when none is free |
| `Vm.Kernel.EntryOrNewTable` | aarch64/src/vm.rs:309-321 | an invalid entry gets a new empty table, written through the reference as it resolves after the clearing; a valid one is left alone; no translation changes |
| `Vm.Kernel.EnsureTable` | aarch64/src/vm.rs:309-325 | after it the entry leads to a table and at most one frame is spent; an error leaves everything as it was and is the obstacle of that position |
| `Vm.Kernel.NextMut` | aarch64/src/vm.rs:308-330 | the reference returned resolves to the next table of `va`; the error is exactly what stands in the way |
| `Vm.Kernel.ReachTable` | aarch64/src/vm.rs:371-384 | the chain of calls reaches the table for the page size, or fails exactly when the obstacle computed from the old tables says so |
| `Vm.Kernel.WriteDest` | aarch64/src/vm.rs:386-396 | the write through the recursive reference lands in the right table with the caller's address and attributes, and slot 511 is back |
| `Vm.Kernel.MapTo` | aarch64/src/vm.rs:349-399 | fails exactly when an old entry on the path is a block or the missing tables outnumber the free frames, with the error that says which; on success the address map is the old one with the block of `va` replaced, every address of the block ends with the caller's address and attributes, the tables form a tree with one frame spent on each missing table, other frames are unchanged and slot 511 is restored; on an error no translation and no other frame changed and slot 511 leads to `self` |
| `Vm.Kernel.MapLinear` | aarch64/src/vm.rs:417-418 | the same for the block at a physical address, at its KZERO address |
| `Vm.Kernel.MapNext` | aarch64/src/vm.rs:416-421 | one round extends the mapped range by one block if and only if all blocks up to it fit the tables and frames at the start; otherwise the error says whether an old block stands in its way |
| `Vm.Kernel.MapSteps` | aarch64/src/vm.rs:416-421 | the loop maps all blocks, or stops at one that does not fit with those before it mapped |
| `Vm.Kernel.MapPhysRange` | aarch64/src/vm.rs:408-423 | succeeds if and only if the rounded range has a block, no old entry on the way to any of its blocks is itself a block, and the missing tables over the range are at most the free frames; then exactly the blocks of the rounded range are mapped at KZERO, for a non-empty range those that meet it, with the caller's attributes, and the result is the first address and the end of the last block; `PhysRangeIsZero` exactly when there is no block; any other error names the first block that does not fit, why, and leaves exactly the blocks before it mapped |
| `McsLock.ExecInv` | port/src/mcslock.rs:48-82 | every atomic step of every thread, spurious failures included, keeps the queue invariant |
| `McsLock.RunInv` | port/src/mcslock.rs:48-82 | so does every run |
| `McsLock.MutualExclusion` | port/src/mcslock.rs:48-82 | in every run at most one thread is between its return from `lock` and the releasing step of `unlock` |
| `McsLock.EntryOrderIsSwapOrder` | port/src/mcslock.rs:52-61 | threads enter in the order of their swaps: the entries before a thread's own are those released plus those queued when it swapped |
| `McsLock.WritesLiveNodesOnly` | port/src/mcslock.rs:53-80 | each step writes no node but the one named; a thread that writes another's node writes one that is still queued, and none is written while its owner is outside the lock |
| `McsLock.NoLostWakeup` | port/src/mcslock.rs:57-80 | in every reachable state some queued thread can move if and only if the queue is not empty and not just a lone releaser after a spurious failure |
| `McsLock.LoneSpinnerReachable` | port/src/mcslock.rs:67-76 | that state can be reached |
| `McsLock.CasReleases` | port/src/mcslock.rs:67-73 | the compare-exchange releases the lock if and only if it does not fail spuriously and nobody else is queued; the lock is then free and the thread has returned |
| `McsLock.LoneUnlock` | port/src/mcslock.rs:65-73 | three moves of a holder that nobody waits behind leave the lock free |
| `McsLock.LoneLock` | port/src/mcslock.rs:48-55 | four moves take a free lock |
| `McsLock.LinkedUnlock` | port/src/mcslock.rs:65-82 | four moves of a holder with a linked waiter release, and the waiter enters at its next move |
| `McsLock.LockQueues` | port/src/mcslock.rs:48-61 | six moves put a thread behind the last in the queue, linked and waiting |
| `McsLock.FirstTwoCanMove` | port/src/mcslock.rs:53-80 | with two or more queued, one of the first two has a step that is not a failed spin |
| `McsLock.ReleaseWakesNext` | port/src/mcslock.rs:78-80 | a release with a successor is the head's own step and lets the successor in |
| `McsLock.ReleaseApproaches` | port/src/mcslock.rs:53-80 | until the release, each move of the first two brings it closer and no other thread's move delays it |
| `McsLock.ReleaseComes` | port/src/mcslock.rs:53-80 | over any run without a release, the moves of the first two that change the state and the distance left are together at most the distance at its start |
| `McsLock.HandOversCome` | port/src/mcslock.rs:53-80 | over any run in which two or more stay queued, the state-changing moves of those then at the front, plus the distance left, are at most the first distance and nine for each release |
| `McsLock.HandOverBound` | port/src/mcslock.rs:53-80 | so there are fewer than nine for each release and nine more |
| `McsLock.PlaceInQueue` | port/src/mcslock.rs:52-61 | over any run a queued thread moves up one place with each release |
| `McsLock.TurnComes` | port/src/mcslock.rs:53-80 | from any reachable state, the thread with `i` others before it has come to the front once those at the front have made `9 * i` state-changing moves, in every run |
| `BitmapGeometry.PhysAddrAsIndicesArithmetic` | port/src/bitmapalloc.rs:190-207 | the indices of an aligned address are the source's quotients and remainders |
| `BitmapGeometry.IndicesAsPhysAddrArithmetic` | port/src/bitmapalloc.rs:211-217 | the address of indices is the source's sum of products |
| `BitmapGeometry.MaxBytesProduct` | port/src/bitmapalloc.rs:77-89 | the capacity is the source's product |
| `BitmapGeometry.IndicesRoundTrip` | port/src/bitmapalloc.rs:190-217 | from an aligned address to indices and back; the bitmap exists exactly when the address is below the capacity |
| `BitmapGeometry.AddrRoundTrip` | port/src/bitmapalloc.rs:190-217 | from indices to an address and back |
| `BitmapGeometry.SetBitFree` | port/src/bitmapalloc.rs:24-40 | setting or clearing a bit takes exactly that page from, or adds it to, the free pages; testing it tells whether the page is free |
| `BitmapScan.StopCovers` | port/src/bitmapalloc.rs:262-284 | although the running address moves one page per bitmap, the scan does not wrap before it passed every byte below `end` |
| `BitmapScan.StopIsFirst` | port/src/bitmapalloc.rs:262-284 | the scan wraps at the first bitmap at which the running address, one page further for each, is not below `end` |
| `BitmapScan.ScanOrderComplete` | port/src/bitmapalloc.rs:252-287 | from any start the order repeats no byte, stays in the bitmaps and has every byte that covers an address below `end` |
| `BitmapScan.ScanStaysBelowIff` | port/src/bitmapalloc.rs:248-287 | the scan visits only bytes that cover an address below `end` if and only if the end is not 0 and either it is the start or the last byte before the wrap is such a byte |
| `BitmapScan.ScanGoesPast` | port/src/bitmapalloc.rs:248-287 | a bitmap of two bytes and an end of one page, for which it visits a byte past the end |
| `BitmapScan.ByteScan.constructor` | port/src/bitmapalloc.rs:257-260 | a fresh scan from any byte that starts at or below the end has the whole order before it |
| `BitmapScan.ByteScan.Next` | port/src/bitmapalloc.rs:262-286 | each call yields the next byte of that order, and ends exactly when none is left |
| `BitmapAlloc.BitmapPageAlloc.constructor` | port/src/bitmapalloc.rs:66-74 | no page is free and the end is the capacity |
| `BitmapAlloc.BitmapPageAlloc.MarkPage` | port/src/bitmapalloc.rs:230-236 | one round of the loop marks one more page, or finds it out of bounds |
| `BitmapAlloc.BitmapPageAlloc.MarkSteps` | port/src/bitmapalloc.rs:229-238 | the loop over page addresses changes exactly the pages it steps on, and is out of bounds exactly when they pass the capacity |
| `BitmapAlloc.BitmapPageAlloc.MarkRange` | port/src/bitmapalloc.rs:219-239 | exactly the pages between the rounded bounds change, and which error is returned when |
| `BitmapAlloc.BitmapPageAlloc.MarkAllocated` | port/src/bitmapalloc.rs:93-95 | the pages that meet the range are no longer free; fails exactly past the end; every page from the end up stays allocated |
| `BitmapAlloc.BitmapPageAlloc.MarkFree` | port/src/bitmapalloc.rs:99-101 | the pages that meet the range are free; fails exactly past the end; every page from the end up stays allocated |
| `BitmapAlloc.BitmapPageAlloc.FindByte` | port/src/bitmapalloc.rs:137-141 | the first byte in scan order that is not all ones, which is the first with a free page going round from the byte of the last page handed out or given back; none when all are |
| `BitmapAlloc.BitmapPageAlloc.Allocate` | port/src/bitmapalloc.rs:136-155 | `OutOfSpace` exactly when no page is free; otherwise takes, going round from the byte of the last page handed out or given back, the lowest free page of the first byte that has one, and nothing else; usage rises by one page |
| `BitmapAlloc.FirstFreePage` | port/src/bitmapalloc.rs:145-149 | the trailing ones of a byte name its lowest free page |
| `BitmapAlloc.FirstInTurn` | port/src/bitmapalloc.rs:137-141 | the first byte in scan order that is not all ones comes before every other byte with a free page, going round from the start |
| `BitmapAlloc.NoPageFree` | port/src/bitmapalloc.rs:152-153 | when every scanned byte is all ones no page is free anywhere |
| `BitmapAlloc.BitmapPageAlloc.Deallocate` | port/src/bitmapalloc.rs:158-174 | which error when; otherwise exactly the page named by the wrong bit number becomes free; the invariant is kept if and only if the address is not `end` or not in the first byte of its bitmap |
| `BitmapAlloc.ClearedIsAsked` | port/src/bitmapalloc.rs:163-169 | that page is the one asked for if and only if it is in the first byte of its bitmap |
| `BitmapAlloc.ClearedIndices` | port/src/bitmapalloc.rs:163-169 | the page cleared has the asked page's bit number, in the first byte of the same bitmap |
| `BitmapAlloc.ClearedAtEnd` | port/src/bitmapalloc.rs:159-169 | the page whose bit is cleared lies below the end except for that one address |
| `BitmapAlloc.DeallocateAtEnd` | port/src/bitmapalloc.rs:158-174 | after `free_unused_ranges` has put the end at page 8, deallocating that page leaves it free, at the end, with the invariant broken |
| `BitmapAlloc.DeallocateDiverges` | port/src/bitmapalloc.rs:163-169 | an address for which another page is freed |
| `BitmapAlloc.DeallocateFreesAnother` | port/src/bitmapalloc.rs:158-174 | on a new allocator, deallocating page 8 leaves page 0 free and nothing else |
| `BitmapAlloc.BitmapPageAlloc.UsageBytes` | port/src/bitmapalloc.rs:177-186 | used bytes plus the free pages' bytes are the end |
| `BitmapAlloc.FreeFits` | port/src/bitmapalloc.rs:184-185 | the free pages fit below a page-aligned end |
| `BitmapAlloc.UsageUnderflows` | port/src/bitmapalloc.rs:184-185 | the free pages take more than the end, so that the unsigned subtraction fails, if and only if the end is inside a page and every page that starts below it is free |
| `BitmapAlloc.UsageGoesNegative` | port/src/bitmapalloc.rs:177-186 | after `free_unused_ranges` with an end inside page 0, and freeing that page, the used bytes come out negative |
| `BitmapAlloc.TakingRaisesUsage` | port/src/bitmapalloc.rs:143-151 | taking a page out of the free ones raises the bytes in use by one page |
| `BitmapAlloc.GapsAreUnused` | port/src/bitmapalloc.rs:111-122 | for ranges sorted by start, however they overlap, the gaps hold exactly the addresses no range covers |
| `BitmapAlloc.GapsMeetUnusedPages` | port/src/bitmapalloc.rs:111-122 | with aligned bounds the gaps meet exactly the pages of available memory in no used range |
| `BitmapAlloc.BitmapPageAlloc.FreeGaps` | port/src/bitmapalloc.rs:111-122 | frees every page that meets a gap, or fails exactly when a gap reaches past the end, with exactly the gaps before the first such one freed |
| `BitmapAlloc.BitmapPageAlloc.SealAt` | port/src/bitmapalloc.rs:124-130 | every page from the new end up is allocated, all others keep their state; the invariant holds if and only if the new end is within the capacity |
| `BitmapAlloc.BitmapPageAlloc.FreeUnusedRanges` | port/src/bitmapalloc.rs:106-133 | fails exactly when a gap passes the old end, with the end unmoved and exactly the gaps before the first such one freed; otherwise the pages that meet a gap become free, those from the new end up allocated, and all others keep their state; the invariant breaks exactly on success with an end above the capacity |
| `BitmapAlloc.FreesExactlyUnused` | port/src/bitmapalloc.rs:103-133 | for aligned sorted ranges: exactly the pages of available memory in no used range become free |
| `BitmapAlloc.LosesPageIff` | port/src/bitmapalloc.rs:106-133 | for every sorted list of non-empty used ranges and page-aligned available memory: a page that a used range meets is freed if and only if a gap that starts below the end has an unaligned start, or an unaligned end below it |
| `BitmapAlloc.UnalignedRangeLosesPage` | port/src/bitmapalloc.rs:229-237 | for a single used range inside available memory: one of its pages is freed if and only if the range is not page-aligned |
| `BitmapRuns.Perform` | port/src/bitmapalloc.rs:93-174 | what each operation has to do to the free pages, errors included, and that it keeps the allocator's invariant |
| `BitmapRuns.GivesAsked` | port/src/bitmapalloc.rs:158-174 | in a run, a deallocation gives back the page asked for if and only if it is in the first byte of its bitmap |
| `BitmapRuns.NotTakenTwice` | port/src/bitmapalloc.rs:136-174 | between two allocations of a page some event gave it back |
| `BitmapRuns.PerformAll` | port/src/bitmapalloc.rs:93-174 | every sequence of operations is such a history, and hands out no page twice without it being freed in between |
| `BumpAlloc.AlignOffset` | port/src/allocator.rs:92-93 | the least number of bytes to the next multiple of the alignment |
| `BumpAlloc.AttemptIff` | port/src/allocator.rs:86-97 | an attempt succeeds if and only if some aligned address from the cursor on has room for the size, and takes the first aligned one |
| `BumpAlloc.StepInv` | port/src/allocator.rs:86-103 | every load and every exchange, failed or not, keeps the tiling and never lowers the cursor |
| `BumpAlloc.GrantsTile` | port/src/allocator.rs:86-103 | under every interleaving the granted pairs, in the order of their exchanges, tile the arena up to the cursor with no gap or overlap, blocks are aligned, and the cursor stays within the arena |
| `BumpAlloc.GrantIsAsked` | port/src/allocator.rs:87-99 | each grant starts at the cursor and has the alignment and size its caller asked for |
| `BumpAlloc.FailureIsJustified` | port/src/allocator.rs:92-97 | a call gives up only when no aligned address from the cursor of that moment on has room for its request, however old the value it loaded |
| `BumpAlloc.ExchangeEnds` | port/src/allocator.rs:90-99 | an exchange that finds the cursor as loaded ends the call, with the first aligned block from the cursor on or, without room, with none |
| `BumpAlloc.ExchangeRetries` | port/src/allocator.rs:90-99 | a call goes on only after a spurious failure or another call's grant, with the cursor loaded anew |
| `BumpAlloc.CallAlone` | port/src/allocator.rs:86-103 | a call that nobody disturbs ends at its first exchange, with the block asked for if there is room |
| `QuickFit.AdjustQuick` | port/src/allocator.rs:219-228 | a quick layout is adjusted to the size, and equal alignment, of the smallest class that fits it |
| `QuickFit.ClassLayout` | port/src/allocator.rs:295-298 | the layout under which a piece of a prefix is freed belongs to the piece's class |
| `QuickFit.PushListed` | port/src/allocator.rs:362-369 | writing a header into a block outside all lists puts it in front of its list and leaves the others intact |
| `QuickFit.PopListed` | port/src/allocator.rs:463-465 | taking the head of a list leaves its tail and the other lists intact |
| `QuickFit.TilesDisjoint` | port/src/allocator.rs:265-303 | two different blocks cut from the arena share no byte |
| `QuickFit.TilesConserve` | port/src/allocator.rs:265-303 | the sizes of the blocks add up to the memory between the first block and the cursor |
| `QuickFitHeap.FreeLive` | port/src/allocator.rs:356-369 | freeing a live block keeps the heap invariant and the bytes of every other live block |
| `QuickFitHeap.AllocateListed` | port/src/allocator.rs:235-239 | taking a listed block keeps the heap invariant |
| `QuickFitHeap.EveryByteOwned` | port/src/allocator.rs:209-303 | every byte between the first block and the cursor belongs to exactly one block, aligned to its power-of-two size and either live or in the list of its class; fewer than 64 bytes lie before |
| `QuickFitHeap.Allocator.constructor` | port/src/allocator.rs:199-204 | the empty heap satisfies the invariant |
| `QuickFitHeap.Allocator.Free` | port/src/allocator.rs:356-373 | the block is no longer live and is first in the list of its class, every other list is as it was, every other live block keeps its bytes, and null is ignored |
| `QuickFitHeap.Allocator.TryFreePrefix` | port/src/allocator.rs:289-303 | cuts off the largest class-sized piece that fits the prefix and is aligned at its front, frees it and returns the rest; nothing is lost |
| `QuickFitHeap.Allocator.FreePrefix` | port/src/allocator.rs:273-287 | the whole prefix from its first multiple of 64 becomes free blocks |
| `QuickFitHeap.Allocator.TryAlloc` | port/src/allocator.rs:86-103 | none exactly when no aligned address from the cursor on has room; else the block at the first aligned one, with the prefix before it, and the cursor at its end |
| `QuickFitHeap.Allocator.AllocTail` | port/src/allocator.rs:265-269 | the block at the first aligned address from the cursor on is live, its prefix is free and the cursor is at its end; or nothing changed because it does not fit |
| `QuickFitHeap.Allocator.AllocQuick` | port/src/allocator.rs:234-239 | the head of the class's list becomes live and leaves it; none exactly when the list is empty |
| `QuickFitHeap.Allocator.Malloc` | port/src/allocator.rs:209-213 | null exactly when the list is empty and no aligned address from the cursor on has room for the class, and then nothing changed; the head of the list if there is one, with the tail untouched, else the block at the first aligned address from the cursor on; every live block's bytes kept |
| `QuickFitHeap.FreeThenMalloc` | port/src/allocator.rs:209-373 | a block given back is the next one handed out for its class |
| `QuickFitHeap.Allocator.Realloc` | port/src/allocator.rs:333-350 | null exactly when the block is not kept and the new class has no block to give, and then everything is as it was; the same block exactly when it is kept, and then nothing changed; otherwise another block of the new class with the first min(old, new) bytes, every other live block's bytes kept; a null block is a plain allocation of the old layout |
| `QuickFitHeap.StaysIff` | port/src/allocator.rs:336-340 | `realloc` keeps the block if and only if the new size is of its class and the old layout was the size and alignment of the whole class |
| `QuickFitHeap.FitsButMoves` | port/src/allocator.rs:336-340 | 100 and 120 bytes belong to the same class, and the block is not kept |
| `QuickFitHeap.ReallocRefuses` | port/src/allocator.rs:333-350 | an allocator that returns null for it, although the block held is large enough |
| `QuickFitRuns.Perform` | port/src/allocator.rs:209-373 | what each call does to the blocks that clients hold and to their bytes, and that it answers null exactly when it needs a block of a class that has none to give |
| `QuickFitRuns.BlockKept` | port/src/allocator.rs:209-373 | over any stretch of a run, a block that nobody frees, resizes or stores into stays live with its class and bytes |
| `QuickFitRuns.NotGotTwice` | port/src/allocator.rs:209-373 | an address handed out twice was given back in between |
| `QuickFitRuns.PerformAll` | port/src/allocator.rs:209-373 | every run in which clients free only what they hold keeps the heap invariant and is a history of those effects |
| `FdtTokens.Align4Multiple` | port/src/fdt.rs:46-48 | the least multiple of four that is not below the argument |
| `FdtTokens.Align4Bits` | port/src/fdt.rs:46-48 | the wrapping negation and mask compute it |
| `FdtTokens.LexBegin` | port/src/fdt.rs:549-567 | a begin token with its name parses back, whatever follows |
| `FdtTokens.LexProp` | port/src/fdt.rs:569-579 | a property token parses back to its name offset and length, and its value stands behind it |
| `FdtTokens.LexEnd` | port/src/fdt.rs:568-568 | an end token parses back |
| `FdtTokens.SpecBytes` | port/src/fdt.rs:549-584 | the tokens byte by byte, with the numbers the source reads |
| `FdtTree.FlatBlockIn` | port/src/fdt.rs:549-584 | every flattened block tokenises as the tree it was made from |
| `FdtScan.NodeFromIndex` | port/src/fdt.rs:407-453 | the loop with its begin context and depth computes `FindNode` on every block, malformed ones included |
| `FdtScan.NodeIter.Next` | port/src/fdt.rs:466-514 | the iterator of `nodes` yields the next of the remaining nodes, or none exactly when none is left |
| `FdtScan.ChildIter.Next` | port/src/fdt.rs:110-120 | the same for `children` |
| `FdtScan.PropIter.Next` | port/src/fdt.rs:518-547 | the same for `properties` |
| `FdtScan.FindParentBelow` | port/src/fdt.rs:126-141 | the recursion over the children iterator computes `FindParent` |
| `FdtRoundTrip.NodesRoundTrip` | port/src/fdt.rs:455-515 | for every tree, with NOPs anywhere, `nodes` yields each node once, in preorder, with its start, name, extent and depth |
| `FdtRoundTrip.PropertiesRoundTrip` | port/src/fdt.rs:517-547 | for every node of every tree, `properties` yields its own properties in order, with their name offsets and values |
| `FdtRoundTrip.ClosedRecord` | port/src/fdt.rs:429-439 | the end token found for a begin token is its own, across everything inside |
| `FdtChildren.ChildrenRoundTrip` | port/src/fdt.rs:110-120 | `children` yields, in document order, exactly the later nodes one level below the node |
| `FdtChildren.EnclosedChildren` | port/src/fdt.rs:677-682 | of these the node encloses exactly its own children |
| `FdtParent.EnclosedChildrenRoundTrip` | port/src/fdt.rs:110-120 | the same for every node of every flattened tree |
| `FdtChildren.ChildrenAreKidsIff` | port/src/fdt.rs:110-120 | `children` yields exactly the children if and only if no node after the end of the parent has their depth |
| `FdtChildren.ChildrenOverrun` | port/src/fdt.rs:110-120 | a tree in which a childless node is given another node's child |
| `FdtParent.ParentRoundTrip` | port/src/fdt.rs:122-145 | for every child of every node, `parent` returns that node, although the children it searches run over |
| `FdtParent.OnlyRootHasNoParent` | port/src/fdt.rs:143-144 | `parent` returns nothing if and only if the node is the root |
| `FdtParent.ParentBetween` | port/src/fdt.rs:126-141 | on any block a parent found lies strictly above the child and not above the root, so walks up end |
| `FdtParent.ParentFound` | port/src/fdt.rs:126-141 | on any block the search from a node finds a parent if and only if the node encloses the child and is above it, and what it finds encloses the child, is above it and has no enclosing child to go down to |
| `FdtReg.RegIter.Next` | port/src/fdt.rs:215-237 | yields the next of the remaining blocks of `reg`, or none exactly when none is left |
| `FdtReg.RangeIter.Next` | port/src/fdt.rs:258-295 | the same for `ranges`, identity included |
| `FdtReg.TranslateAt` | port/src/fdt.rs:320-328 | the inner loop finds the first range that translates the block |
| `FdtReg.TranslateReg` | port/src/fdt.rs:311-338 | the loop up the parents computes `Ascend` and ends on every block |
| `FdtReg.TranslatedRegIter.Next` | port/src/fdt.rs:307-339 | yields the translation of each block in turn |
| `FdtTranslate.TranslateShifts` | port/src/fdt.rs:748-757 | a window translates a block if and only if it starts in it, moves its address by parent less child, and keeps its length |
| `FdtTranslate.FirstCoverChosen` | port/src/fdt.rs:320-328 | a node translates a block by its first window that covers the address, and has no translation if and only if none does |
| `FdtTranslate.RegsRead` | port/src/fdt.rs:204-238 | the blocks read for a node are those its tree's `reg` holds, in its parent's cells, with the defaults 2 and 1 |
| `FdtTranslate.RangesRead` | port/src/fdt.rs:242-296 | the windows read for a node are those its tree's `ranges` holds; none or an empty one is the identity |
| `FdtTranslate.TranslationRoundTrip` | port/src/fdt.rs:298-340 | for every node of every tree, the translated blocks are those of its `reg`, each folded over the ancestors from the parent up to but not including the root; the root has none |
| `FdtTranslate.TranslationShifts` | port/src/fdt.rs:311-338 | up a path, a block is translated if and only if each node has a window to choose, and its address is then its own plus the sum of parent less child over the windows chosen |
| `FdtTranslate.TranslatedAddress` | port/src/fdt.rs:298-340 | the same for each block of each node of a flattened tree, as the iterator returns it |
| `FdtTranslate.UnreachableIff` | port/src/fdt.rs:330-332 | unreachable if and only if some ancestor has no window for the block as it comes to it; otherwise the block as it comes to the root |
| `FdtTranslate.PathTo` | port/src/fdt.rs:122-145 | every node of the tree ends a path of children from the root |
| `FdtCells.RegsRoundTrip` | port/src/fdt.rs:195-238 | a `reg` value written in one or two cells, or with no length, reads back as its blocks, whatever too few bytes follow |
| `FdtCells.WindowsRoundTrip` | port/src/fdt.rs:267-294 | a `ranges` value written in any cells the reader supports reads back as its windows, whatever too few bytes follow |
| `FdtCells.UnsupportedCells` | port/src/fdt.rs:215-283 | in cells that the readers do not support nothing is read |
| `FdtWritten.InlineStrIff` | port/src/fdt.rs:400-405 | a name is read at an offset if and only if its bytes stand there with a zero byte behind them |
| `FdtWritten.NodeNameWritten` | port/src/fdt.rs:147-149 | the name read for a node of a flattened tree is the one it was written with |
| `FdtWritten.AttrHas` | port/src/fdt.rs:151-157 | a property is found as the first of the node with that name, and not found when there is none |
| `FdtWritten.CellsOf` | port/src/fdt.rs:183-193 | a cell count is the word its property holds, or the default without the property or the node |
| `FdtWritten.WrittenRegs` | port/src/fdt.rs:204-238 | for every node of a flattened tree, a `reg` written in the cells its parent prescribes, 2 and 1 by default, reads back as its blocks |
| `FdtWritten.NoRegs` | port/src/fdt.rs:204-238 | a node without `reg` has no blocks |
| `FdtWritten.WrittenRanges` | port/src/fdt.rs:242-296 | for every node of a flattened tree, a `ranges` written in its own cells and its parent's reads back as its windows |
| `FdtWritten.NoRanges` | port/src/fdt.rs:242-296 | an empty `ranges`, or none, reads as the identity |

## Left out

- Misc list, large and over-aligned layouts of QuickFit (`port/src/allocator.rs:247-258`, `389-458`): the documented behaviour does not hold there.
- `find_by_path` and `find_compatible` (`port/src/fdt.rs:350-398`): the first shares one path iterator among siblings, the second is a filter of `nodes`.
- Weak memory orderings, TLB invalidation, barriers and inline assembly: steps are sequentially consistent and the walk always sees the current tables.
- The KZERO linear map: accesses through it are direct accesses to the frame; recursive addresses are translated by the walk.
- The allocator under the page tables: `Vm.Kernel` takes frames from a set of free ones, so that the live frames are among the used ranges is an assumption of `Tree`.
- Vm.Kernel.MapTo: the level-0 index of `va` is not 511, `self` refers to itself in slot 511, and a valid entry with the table bit is for a 4 KiB page, as every caller passes it; with that bit a large page would be read as a table.
- Vm.Kernel.MapPhysRange: the range ends low enough that its linear addresses stay below slot 511, and a valid entry is as for `map_to`.
- BitmapScan.ByteScan.constructor: the scan starts at a byte whose address is at or below the end; the allocator's invariant keeps every later start out.
- BitmapAlloc.BitmapPageAlloc.Deallocate: misaligned addresses and addresses past the last bitmap, at which the source panics.
- BitmapAlloc.BitmapPageAlloc.UsageBytes: the difference is an integer; where it is negative the source panics or wraps, see `BitmapAlloc.UsageUnderflows`.
- BitmapRuns.PerformAll: runs hold no `free_unused_ranges`, and not the deallocation at `end` that breaks the invariant.
- McsLock.MutualExclusion: each thread has one node; a thread that queues two nodes on one lock is not represented.
- The overflow panics of `try_alloc` (`port/src/allocator.rs:94-95`).
- 64-bit overflow of addresses in the devicetree reader and of sums in `mem.rs`; unsigned underflow of a depth on a block with unmatched end tokens.
- UTF-8 validation of devicetree names, uninitialised bytes, the devicetree header and the slicing of the blocks.
- `consume_cells` with more than two cells reads the first two; the readers never ask for that.
- Device drivers, traps, boot code, linker scripts, printing and `xtask`: no behaviour of the kind modelled here.
