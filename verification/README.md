# NAPALM_OS: a verified model

NAPALM_OS is a small 32-bit kernel and a C# tool that builds the RAM disk it boots from. This project restates the
parts of it that carry state or arithmetic in Dafny and proves what they keep. `dafny verify dfyconfig.toml` checks
everything.

Each module follows one source file. A class or method with loops is the source's own loop over the source's own
table; a function beside it says what the loop computes; the lemmas say what that means.

| files | source | subject |
|---|---|---|
| `HeapTable`, `HeapProofs`, `HeapCoalesce`, `HeapClear`, `HeapRuns`, `HeapAccounts`, `HeapEveryRun`, `HeapWitness`, `Heap` | `core/memory/heap.c` | the block table of the kernel heap: split, free, dead-owner sweep, coalescing, whole runs |
| `RoundRobin`, `SchedulerProofs`, `Scheduler`, `PtrList` | `core/threading/scheduler.c`, `lib/ptrlist.c` | round-robin scheduling over a list that shrinks while it is walked, critical sections, fairness |
| `MemMap`, `MemBoot`, `MemMgr`, `MemWitness` | `core/memory/memmgr.c` | the firmware memory map, boot modules, the physical allocator |
| `RamImage`, `RamLayout`, `RamWriter`, `RamReader`, `CStrings` | `RAMFS/RAMFS.cs`, `core/fs/ramfs.c`, `core/fs/virtfs.c` | one binary format, written in C# and read in C |
| `Terminal`, `Ansi`, `Console` | `hal/devices/vga.c`, `lib/ansi.c` | the scrolling text screen as the end of an unbounded transcript, colour sequences |
| `Numbers`, `NumberLoops` | `lib/stdlib.c` | number printers and parsers |
| `StrSplit`, `MemOps`, `Powers` | `lib/string.c`, `lib/math.c` | splitting, dword-wise copy and fill, powers by halving |
| `Words` | | 32-bit words, linear search, sums over a table |

## How the system is read

* A 32-bit quantity is an integer in range, and every place where the source can wrap is written with an explicit
  reduction (`U32`). `debug_exception` stops the machine (`Kernel/Source/core/debug.c:35`), so it is an outcome
  (`Halted`, or a `halted` result), not a return.
* The context switch is its effect on `THIS_THREAD`. Port output, interrupt masking and debug output are left out.
* The firmware map is the memory map of the Multiboot Specification 0.6.96, section 3.3; colour sequences are SGR of
  ECMA-48, section 8.3.117.
* What a source file keeps in static variables is the field list of one class.

## Where the code and its intent part

The code is modelled as it stands. Where it misses what it is for, the exact condition under which it succeeds is
proved. For the heap, the memory map and the disk image a lemma also gives a run or an input on which it fails; for the
library functions the condition says which inputs those are.

* `heap.c:168` compares `blk->addr - blk->sz` with another block's start, which is adjacency only between blocks of the
  same size. A pass keeps the tiling all the way through if and only if every merge it makes is of touching blocks
  (`PassTilesIff`, and `RunTilesIff` for whole runs); the second comparison finds a touching block only between two
  halves of 2 GiB (`SecondComparisonIsWrong`). A caller can see beforehand that a pass is safe: on a table where
  no FREE block starts at the mirror address of a stretch of FREE memory it does not touch, all merges touch
  (`ClearTouches`), and every run that collects on such tables keeps the tiling (`RunTiles`, `BootRunTiles`).
  `BreakingRun` is a run of allocations and frees from the initial heap after which `heap_collect` leaves overlapping
  descriptors, and `WrongMergesCanCancel` one where two wrong merges cancel. What needs no condition at all: after every run from
  boot, whatever was merged, used and free amounts add up to the region, no block leaves it or is empty, and blocks are
  whole pages if and only if the region is (`EveryRunAddsUp`, `EveryRunPagedIff`).
* `heap.c:96-97` merges into slot 0 without asking whether it is FREE. On a clear table USED blocks survive a pass if
  and only if slot 0 is not a USED block with FREE memory right below it, or above it for a block of 2 GiB
  (`CollectKeeps`). A block that moves is lost: its owner's own call of free stops the machine
  (`MovedBlockCannotBeFreed`, `StolenBlockRun`).
* `memmgr.c:49-50` moves the free block to the end of the last module but shrinks it only by the modules' sizes. Gaps
  between modules are added to its far end, and without any module it moves past its own end (`CarvedOverhang`). Bytes
  are conserved all the same, and the blocks stay disjoint if and only if the new range meets no other block
  (`ScanModsContract`); `OverhangRun` is a firmware map on which it meets one.
* `memmgr.c:161-163` drops the block counter for an unused descriptor as well; the counter stays right if and only if
  the block was mapped (`UnmapCountsIff`). Unmapping an unused descriptor always succeeds and changes nothing else
  (`UnmapUnusedMiscounts`).
* `RAMFS.cs:133` allocates no room for the 28 header bytes. A file is stored if and only if its data ends at least 28 bytes
  before the advertised end of the data area; otherwise the copy throws after the entry is written (`AddFile`), which leaves an
  entry in the table that the header does not count (`FullSizeFileThrows`).
* `stdlib.c:96` takes the absolute value of the most negative number, which is itself: the number printed for it does
  not read back, and every other one does (`ItoaRoundTripIff`, `ItoaMostNegativeIs`).
* `string.c:47-48` copies forwards in dwords: it equals a copy at once for every content if and only if it moves down, or
  the ranges are disjoint, or it is exactly one dword (`MemCpyMovesIff`). `string.c:58-59` fills with a dword and then
  with its low byte: a byte fill needs a dword that repeats one byte (`MemSetFillsIff`), and `memset16` of an even
  length needs whole dwords or a pattern of one byte (`MemSet16FillsIff`). The console's calls satisfy these.
* `vga.c:87-96` blanks with the current colours, so deleting takes a character back if and only if it covered a
  blank in those colours and did not scroll (`DeleteUndoesIff`).

## Model

| member | source | states |
|---|---|---|
| HeapProofs.AlignedSize | Kernel/Source/lib/string.c:4-10 | rounding up gives a page multiple at most a page above the size, unless the sum leaves 32 bits, where it gives 0 |
| Heap.KernelHeap.constructor | Kernel/Source/core/memory/heap.c:9-23 | the heap starts as one FREE block over its whole region in an otherwise unused table, and that tiles the region |
| HeapRuns.InitialInv | Kernel/Source/core/memory/heap.c:18-20 | the initial table satisfies the run invariant, with every byte of the region FREE: live descriptors disjoint, inside the region, leaving no byte out |
| Heap.KernelHeap.HeapNext | Kernel/Source/core/memory/heap.c:151-158 | finds the first unused descriptor, or the end of the table |
| Heap.KernelHeap.HeapNearest | Kernel/Source/core/memory/heap.c:160-171 | finds the first FREE descriptor that either of the two comparisons accepts, in 32-bit arithmetic |
| Heap.KernelHeap.HeapMerge | Kernel/Source/core/memory/heap.c:113-120 | the first descriptor takes the lower address and the wrapped sum of sizes, the second becomes unused, nothing else changes |
| Heap.KernelHeap.HeapRequest | Kernel/Source/core/memory/heap.c:122-149 | the two search loops and the split leave the table the request function gives; it halts, or stores through a null descriptor, exactly when that function says so, and has changed nothing until then |
| HeapProofs.RequestGrants | Kernel/Source/core/memory/heap.c:122-149 | a granted block has exactly the size asked for and leaves every USED block as it was, tiled or not; on a tiled heap it overlaps none of them and the tiling holds |
| HeapProofs.RequestPlacement | Kernel/Source/core/memory/heap.c:126-145 | any exact fit beats any split and the earliest wins; a split takes the front of the earliest larger FREE block |
| HeapProofs.RequestFailsIff | Kernel/Source/core/memory/heap.c:122-149 | the request halts if and only if the size is 0 or no FREE block is large enough; it lacks a descriptor if and only if it must split and the table is full |
| HeapProofs.SplitKeeps | Kernel/Source/core/memory/heap.c:136-145 | cutting a block in two through a spare descriptor keeps the tiling |
| Heap.KernelHeap.HeapAlloc | Kernel/Source/core/memory/heap.c:57-64 | on any table: returns the address of the block that the allocation function picks for the rounded size, owned by the running thread, with the same two failures; keeps the tiling where there is one, and the accounts |
| HeapProofs.AllocContract | Kernel/Source/core/memory/heap.c:57-64 | the block is the smallest page multiple that holds the size and no USED block changes, tiled or not; on a tiled heap it is disjoint from all of those |
| HeapProofs.AllocFreeRestores | Kernel/Source/core/memory/heap.c:57-82 | allocating and freeing again gives back exactly the same FREE bytes, byte by byte |
| Heap.KernelHeap.HeapFree | Kernel/Source/core/memory/heap.c:66-82 | on any table: frees the first USED block at the address and counts it, or halts with nothing changed; keeps the tiling where there is one, and the accounts |
| HeapProofs.FreeContract | Kernel/Source/core/memory/heap.c:66-82 | freeing succeeds if and only if a USED block starts at the address, tiled or not, and then changes only its state |
| HeapProofs.FreeIsExact | Kernel/Source/core/memory/heap.c:71-80 | since blocks are disjoint, an address names one block: freeing by address frees the very slot it was read from |
| Heap.KernelHeap.HeapCollectDead | Kernel/Source/core/memory/heap.c:101-111 | on any table: leaves the table the sweep function gives, or halts when it does; on every table a run from boot can reach it gets to the end |
| HeapEveryRun.SweepAccounted | Kernel/Source/core/memory/heap.c:101-111 | where no block leaves the region the sweep never halts, overlapping blocks or not |
| HeapProofs.SweepIsExact | Kernel/Source/core/memory/heap.c:101-111 | the sweep changes exactly the blocks whose owner is gone, each in its own slot |
| HeapProofs.SweepContract | Kernel/Source/core/memory/heap.c:101-111 | afterwards every USED block has a listed owner, and blocks of listed owners are untouched |
| Heap.KernelHeap.HeapCollect | Kernel/Source/core/memory/heap.c:84-99 | the loop and the extra slot-0 merge leave the table and the count of the pass function; the tiling holds after it on a clear table, the accounts always |
| HeapProofs.TouchingMergeKeeps | Kernel/Source/core/memory/heap.c:113-120 | merging two blocks that touch keeps the tiling, and the state and owner of the first |
| HeapProofs.GapMergeBreaks | Kernel/Source/core/memory/heap.c:113-120 | merging two blocks that do not touch always breaks it |
| HeapCoalesce.MergeStepTilesIff | Kernel/Source/core/memory/heap.c:92-93 | the merge the pass makes for a live slot keeps the tiling if and only if the block found touches it |
| HeapCoalesce.SecondComparisonIsWrong | Kernel/Source/core/memory/heap.c:167-168 | a found block touches if and only if the first comparison holds, or both are halves of 2 GiB |
| HeapCoalesce.PassTilesIff | Kernel/Source/core/memory/heap.c:84-99 | the descriptors tile the region before a pass, after each of its merges and at its end if and only if all its merges are of touching blocks |
| HeapClear.ClearTouches | Kernel/Source/core/memory/heap.c:84-99 | a condition on the table at the call: when no FREE block starts at the mirror address of a stretch of FREE bytes it does not touch, nor of a USED slot 0, all merges of the pass touch |
| HeapClear.CollectKeeps | Kernel/Source/core/memory/heap.c:84-99 | on such a table the pass keeps the tiling, and it moves a USED block if and only if slot 0 is USED with FREE memory right below it, or above it for a 2 GiB block |
| HeapCoalesce.CollectCounts | Kernel/Source/core/memory/heap.c:84-99 | the result is exactly the drop in live descriptors; 0 means nothing changed and no FREE block ends where another starts |
| HeapCoalesce.MovedBlockCannotBeFreed | Kernel/Source/core/memory/heap.c:66-97 | a slot 0 that was moved to a lower address is still USED and owned by the same thread, but lost to it: freeing the old address halts |
| HeapCoalesce.Settle | Kernel/Source/core/memory/heap.c:84-99 | repeating the pass until it returns 0 terminates in a fixed point of the pass |
| HeapCoalesce.SettledIsCoalesced | Kernel/Source/core/memory/heap.c:84-99 | in that fixed point no two FREE blocks touch |
| HeapClear.SettleTiles | Kernel/Source/core/memory/heap.c:84-99 | from a clear table with slot 0 not exposed it is still tiled, with the same USED blocks and the same FREE bytes |
| HeapRuns.RunTilesIff | Kernel/Source/core/memory/heap.c:57-195 | a run of allocations, frees, sweeps and collections keeps the tiling all the way through if and only if its collections merge touching blocks only |
| HeapRuns.RunTiles | Kernel/Source/core/memory/heap.c:57-195 | so it does over every run whose collections start on clear tables |
| HeapRuns.BootRunTiles | Kernel/Source/core/memory/heap.c:9-195 | from the initial heap: tiled after every such run |
| HeapRuns.InitialClear | Kernel/Source/core/memory/heap.c:18-20 | the initial heap is clear |
| HeapRuns.NoCollectClear | Kernel/Source/core/memory/heap.c:57-111 | a run without collections meets the condition unconditionally |
| HeapEveryRun.EveryRunAddsUp | Kernel/Source/core/memory/heap.c:9-254 | after every run from boot, merges across gaps included: used plus free is the total, every block lies inside the region, and none is empty, so that a pass still returns the drop in live descriptors and repeating it still ends |
| HeapEveryRun.EveryRunPagedIff | Kernel/Source/core/memory/heap.c:9-195 | after every run from boot, merges across gaps included: all sizes and offsets are whole pages if and only if the size of the region is |
| HeapEveryRun.AmountsAddUp | Kernel/Source/core/memory/heap.c:231-254 | used plus free is the total on every table that keeps the accounts |
| Heap.KernelHeap.AmountOf | Kernel/Source/core/memory/heap.c:236-254 | the summing loops return the bytes in blocks of that state, modulo 32 bits; exactly, on every table a run from boot can reach |
| HeapWitness.BreakingRun | Kernel/Source/core/memory/heap.c:84-171 | for every table of five descriptors or more, a run from the initial heap after which the descriptors overlap |
| HeapWitness.WrongMergesCanCancel | Kernel/Source/core/memory/heap.c:84-171 | a run from the initial heap whose last pass merges across a gap and still ends in a tiling |
| HeapWitness.StolenBlockRun | Kernel/Source/core/memory/heap.c:66-97 | a run from the initial heap after which the pass moves a USED block and freeing its address halts |
| PtrLists.PtrList.Add | Kernel/Source/lib/ptrlist.c:29-40 | appends, in storage of its own |
| PtrLists.PtrList.Remove | Kernel/Source/lib/ptrlist.c:42-55 | removes exactly the entry at the index and keeps the order of the others; a fault, of which nothing more is said, if and only if the index is outside the list |
| PtrLists.PtrList.Get | Kernel/Source/lib/ptrlist.c:57-62 | returns the entry, or halts if and only if the index is outside the list |
| PtrLists.PtrList.Dup | Kernel/Source/lib/ptrlist.c:10-16 | gives the same entries in separate storage |
| Scheduler.TaskMgr.constructor | Kernel/Source/core/threading/scheduler.c:16-49 | starts with the kernel thread alone, RUNNING and current |
| Scheduler.TaskMgr.Load | Kernel/Source/core/threading/scheduler.c:93-98 | appends a thread; a null one halts; the run invariant holds afterwards if and only if the thread is new, unlocked and not numbered like the kernel thread |
| SchedulerProofs.LoadKeepsIff | Kernel/Source/core/threading/scheduler.c:93-98 | the same on the machine |
| SchedulerProofs.LockSets | Kernel/Source/core/threading/scheduler.c:203-213 | lock and unlock set the lock of the running thread and change nothing else in the machine |
| SchedulerProofs.StateSets | Kernel/Source/core/threading/scheduler.c:132-148 | starting and killing set the state of that thread and change nothing else; nothing at all for a thread that is not listed |
| SchedulerProofs.OffDoesNothing | Kernel/Source/core/threading/scheduler.c:51-150 | while scheduling is off a yield changes nothing and an interrupt only resets the timer; switching on and off changes nothing else |
| Scheduler.TaskMgr.StartThread | Kernel/Source/core/threading/scheduler.c:132-139 | makes the thread RUNNING, wherever it stands; a null one halts |
| Scheduler.TaskMgr.KillThread | Kernel/Source/core/threading/scheduler.c:141-148 | makes the thread TERMINATED without removing it; a null one halts |
| Scheduler.TaskMgr.LockThread | Kernel/Source/core/threading/scheduler.c:203-207 | the running thread is LOCKED afterwards; nothing else changes |
| Scheduler.TaskMgr.UnlockThread | Kernel/Source/core/threading/scheduler.c:209-213 | the running thread is UNLOCKED afterwards; nothing else changes |
| Scheduler.TaskMgr.Toggle | Kernel/Source/core/threading/scheduler.c:150 | switches scheduling on or off and releases the scheduler's own lock |
| Scheduler.TaskMgr.UnloadIndex | Kernel/Source/core/threading/scheduler.c:100-116 | removes the entry, but never the kernel thread; halts outside the list |
| Scheduler.TaskMgr.Unload | Kernel/Source/core/threading/scheduler.c:118-130 | removes the first entry equal to the thread, or halts |
| Scheduler.TaskMgr.SelectNext | Kernel/Source/core/threading/scheduler.c:67-78 | the loop ends although the list shrinks under it, with the list and the cursor of the walk function |
| Scheduler.TaskMgr.ScheduleNext | Kernel/Source/core/threading/scheduler.c:51-82 | one scheduler call, with its locks and the switch, is one step of the machine; inside a locked section it does nothing |
| Scheduler.TaskMgr.Callback | Kernel/Source/core/threading/scheduler.c:84-91 | the timer interrupt is the machine's tick, counts on the running thread's clock, and keeps the run invariant |
| Scheduler.TaskMgr.Yields | Kernel/Source/core/threading/scheduler.c:51-82 | a thread giving up the processor is the machine's yield and keeps the run invariant |
| Scheduler.TaskMgr.Exists | Kernel/Source/core/threading/scheduler.c:185-190 | true if and only if the thread is not null and in the list |
| RoundRobin.WalkKeeps | Kernel/Source/core/threading/scheduler.c:67-78 | a walk drops TERMINATED threads only, keeps everything up to the thread it starts from, and selects a RUNNING thread or the first |
| SchedulerProofs.WalkMeets | Kernel/Source/core/threading/scheduler.c:67-78 | HALTED and WAITING entries are passed; the first RUNNING one is selected; the first TERMINATED one is unloaded, and the walk goes on behind the entry that took its place; else the kernel thread is selected |
| SchedulerProofs.SwitchSelects | Kernel/Source/core/threading/scheduler.c:51-82 | a switch keeps the run invariant, never unloads the thread it leaves, and selects a RUNNING thread or the kernel thread |
| SchedulerProofs.StepKeeps | Kernel/Source/core/threading/scheduler.c:51-213 | every step keeps: cursor in the list and on the running thread, kernel thread first and alone with its identifier, all others unlocked |
| SchedulerProofs.EveryRunFromBoot | Kernel/Source/core/threading/scheduler.c:16-213 | so every state reached from boot has it, with the boot thread still first, numbered 0x10000000 |
| SchedulerProofs.SelectedIsRunning | Kernel/Source/core/threading/scheduler.c:51-82 | in every run that never kills the kernel thread, every switch selects a RUNNING thread |
| SchedulerProofs.KilledStaysOff | Kernel/Source/core/threading/scheduler.c:51-148 | a killed thread that is neither the running one nor the kernel thread never gets the processor again, in any run in which nobody starts it |
| SchedulerProofs.NeverStartedNeverRuns | Kernel/Source/core/threading/scheduler.c:16-213 | in no run from boot does a thread other than the kernel thread get the processor that nobody started or loaded RUNNING |
| SchedulerProofs.CriticalSection | Kernel/Source/core/threading/scheduler.c:51-213 | from lock to unlock no number of timer interrupts takes the processor, whatever the lock was before; the unlock leaves everything but the timer as it was, with the thread unlocked |
| SchedulerProofs.LockedKeepsProcessor | Kernel/Source/core/threading/scheduler.c:61-65 | no number of timer interrupts changes the running thread, the cursor or the list while the running thread holds its lock |
| SchedulerProofs.UnlockedKeepsUntil | Kernel/Source/core/threading/scheduler.c:84-91 | before the interval runs out interrupts only count |
| SchedulerProofs.WalkProgress | Kernel/Source/core/threading/scheduler.c:67-78 | a walk selects the waiting thread, or moves the cursor towards it, or passes it at the price of a TERMINATED thread |
| SchedulerProofs.Fair | Kernel/Source/core/threading/scheduler.c:51-82 | with n threads, T of them TERMINATED, a RUNNING thread is selected within (T + 2) * n switching calls |
| SchedulerProofs.Reclaimed | Kernel/Source/core/threading/scheduler.c:67-130 | with n threads, T of them TERMINATED, each of those is unloaded within (T + 2) * n switching calls |
| SchedulerProofs.IntervalIsCall | Kernel/Source/core/threading/scheduler.c:84-91 | when the interval runs out, the ticks so far amount to one scheduler call |
| SchedulerProofs.TimerFair | Kernel/Source/core/threading/scheduler.c:51-91 | preemption alone serves a RUNNING thread after at least one and at most 30 * (T + 2) * n timer interrupts, the running one too |
| MemMgr.Manager.MapBlk | Kernel/Source/core/memory/memmgr.c:135-153 | maps into the first unused descriptor and counts it, or halts with nothing changed |
| MemMap.MapContract | Kernel/Source/core/memory/memmgr.c:135-153 | mapping adds exactly its bytes and one block, and keeps blocks disjoint when the range is fresh |
| MemMap.MapFailsIff | Kernel/Source/core/memory/memmgr.c:135-153 | mapping halts if and only if the size or the type is 0 or no descriptor is unused |
| MemMgr.Manager.UnmapBlk | Kernel/Source/core/memory/memmgr.c:155-170 | clears the first descriptor with this content and drops the counter; the counter still agrees with the table if and only if the block had a type |
| MemMap.UnmapCountsIff | Kernel/Source/core/memory/memmgr.c:155-170 | unmapping removes one live block if and only if the block was mapped |
| MemMap.UnmapUnusedMiscounts | Kernel/Source/core/memory/memmgr.c:155-170 | unmapping an unused descriptor succeeds and leaves the table as it was |
| MemMap.MapUnmap | Kernel/Source/core/memory/memmgr.c:135-170 | unmapping what was just mapped gives the table back |
| MemMgr.Manager.AllocBlk | Kernel/Source/core/memory/memmgr.c:172-206 | the search and the split leave the table of the allocation function; the counter agrees with the table |
| MemMap.AllocContract | Kernel/Source/core/memory/memmgr.c:172-206 | an allocation is exactly the bytes asked for, from the front of the first large enough FREE block; blocks stay disjoint, bytes are conserved, other blocks unchanged |
| MemMap.AllocFailsIff | Kernel/Source/core/memory/memmgr.c:172-206 | allocation halts if and only if the request is invalid, no FREE block is large enough, or a split finds the table full |
| MemMgr.Manager.FirstOf | Kernel/Source/core/memory/memmgr.c:223-230 | the first block of the type with at least that size |
| MemMgr.Manager.ScanMmap | Kernel/Source/core/memory/memmgr.c:10-35 | the restarting scan terminates and maps every eligible entry exactly once, in index order, the kernel's entry as KERNEL plus FREE; it halts if and only if the table cannot take them |
| MemMap.ScanDisjoint | Kernel/Source/core/memory/memmgr.c:10-35 | a firmware map whose entries do not overlap gives disjoint blocks |
| MemMap.ScanConserves | Kernel/Source/core/memory/memmgr.c:10-35 | the blocks have exactly the bytes of the eligible entries |
| MemMap.ScanPlaced | Kernel/Source/core/memory/memmgr.c:10-35 | every block lies inside one entry and below the top of the address space |
| MemBoot.EntryTurn | Kernel/Source/core/memory/memmgr.c:16-32 | what one entry of any map adds: nothing if it is empty, of type 0 or 2, below the kernel, or ends above 0xFFFFFFFF in 64-bit arithmetic; a block of type 7 and one of type 1 if it starts with the kernel; else its own range and type |
| MemBoot.ScanYieldsIff | Kernel/Source/core/memory/memmgr.c:10-35 | a block is in the scan of a sane map if and only if it is one of those that a usable entry yields, with no arithmetic cut short |
| MemBoot.ScanStaysAbove | Kernel/Source/core/memory/memmgr.c:18-20 | no block lies below the kernel, is reserved memory, or reaches beyond 32 bits |
| MemMgr.Manager.ScanMods | Kernel/Source/core/memory/memmgr.c:37-53 | maps every module and rewrites the free block's descriptor, or halts |
| MemMap.CarvedOverhang | Kernel/Source/core/memory/memmgr.c:40-50 | the free block overhangs its old end by exactly the gaps between modules; it stays inside its old range if and only if there is a module and the modules tile its front |
| MemMap.ScanModsContract | Kernel/Source/core/memory/memmgr.c:37-53 | for modules in order inside the free block, with gaps or not and none at all included: bytes are conserved, and blocks stay disjoint if and only if the new range of the free block meets no other block |
| MemMap.ModsMapped | Kernel/Source/core/memory/memmgr.c:43-47 | every module gets a block of type 8 with exactly its range, in a descriptor that was unused |
| MemMap.TilingModsDisjoint | Kernel/Source/core/memory/memmgr.c:37-53 | modules that tile the front of the free block meet that condition |
| MemWitness.OverhangRun | Kernel/Source/core/memory/memmgr.c:10-53 | a firmware map whose scan leaves disjoint blocks, and no module, or any one module behind a gap, after which the free block overlaps the next one |
| MemBoot.ScannedTable | Kernel/Source/core/memory/memmgr.c:10-35 | a sane map with an entry for the kernel gives a table of disjoint blocks below the top of memory with exactly the eligible bytes, and the remembered block is a FREE one that starts where the kernel ends |
| MemMgr.Init | Kernel/Source/core/memory/memmgr.c:55-61 | the two scans in a row leave the booted table, or halt exactly when one of them cannot map a block; the counter is right |
| MemBoot.BootedContract | Kernel/Source/core/memory/memmgr.c:10-61 | the booted table has exactly the eligible bytes; its blocks are disjoint if and only if what is left of the free block meets no other block, as when the modules tile its front |
| RamImage.HeaderRoundTrip | RAMFS/RAMFS.cs:84-108 | the 28-byte header reads back as it was written |
| RamImage.EntryRoundTrip | RAMFS/RAMFS.cs:27-45 | a 73-byte table entry reads back as it was written |
| RamLayout.WordBytes | RAMFS/RAMFS.cs:97-108 | words lie low byte first |
| RamLayout.HeaderBytesIff | RAMFS/RAMFS.cs:63-108 | the 28 bytes are those of a header if and only if table offset, table size, data offset, data size, data position, count and maximum read at 0, 4, 8, 12, 16, 20 and 24 |
| RamLayout.EntryBytesIff | RAMFS/RAMFS.cs:27-45 | the 73 bytes are those of an entry if and only if they are the name field, a flag of 0 or 1, the offset at 65 and the size at 69 |
| RamLayout.RepresentsIff | Kernel/Include/core/fs/ramfs.h:4-21 | an image holds given files if and only if each field of the header, of every entry and every byte of data stands where the packed structures of the kernel look for it |
| RamLayout.DataFollows | RAMFS/RAMFS.cs:139-154 | the first file has offset 0, every other one starts where the one before it ends, and the header says where the last one ends |
| RamWriter.RAMFileSystem.constructor | RAMFS/RAMFS.cs:131-137 | a new image represents the empty list of files |
| RamWriter.RAMFileSystem.GetNextIndex | RAMFS/RAMFS.cs:195-204 | the free index is the number of files, or -1 when the table is full |
| RamWriter.RAMFileSystem.AddFile | RAMFS/RAMFS.cs:139-154 | an empty file, a full table or a long name ends the process with nothing changed; data that does not fit throws after writing the entry only; otherwise the file is appended and its entry returned |
| RamWriter.RAMFileSystem.GetFiles | RAMFS/RAMFS.cs:182-193 | lists the entries of the added files, in order |
| RamWriter.RAMFileSystem.GetFileData | RAMFS/RAMFS.cs:175-180 | the bytes an entry points at, or an exception if and only if they leave the image; for a stored entry the bytes that were added |
| RamWriter.FullSizeFileThrows | RAMFS/RAMFS.cs:131-154 | a file that fits the advertised data area but not the array behind it leaves a named entry while the header counts none |
| RamImage.AddedRepresents | RAMFS/RAMFS.cs:139-154 | adding a file to an image of some files gives an image of those and that file: header in the bytes, packed table, consecutive data |
| RamImage.AddedRange | RAMFS/RAMFS.cs:147-151 | adding a file leaves every earlier entry and every earlier content as it was |
| RamImage.Packed | RAMFS/RAMFS.cs:195-204 | the named entries are exactly the first Count ones, and the stored header is the one in memory |
| RamImage.ImageRoundTrip | Kernel/Source/core/fs/ramfs.c:13-29 | in an image of files with distinct names every file is found under its name, at its index, with its flag, size and bytes |
| RamImage.RoundTrip | RAMFS/RAMFS.cs:131-154 | the same from an empty image through any sequence of additions that fits |
| RamImage.NoOtherName | Kernel/Source/core/fs/ramfs.c:13-22 | no other name is found |
| RamReader.RamFs.FOpen | Kernel/Source/core/fs/ramfs.c:13-22 | the first named entry with that name, or none; an empty name finds none |
| RamImage.ImageMounts | Kernel/Source/core/fs/ramfs.c:4-11 | every name field of an image built by the tool ends inside the field |
| RamReader.RamFs.GetFiles | Kernel/Source/core/fs/ramfs.c:37-52 | the named entries, in order |
| RamReader.ListsFiles | Kernel/Source/core/fs/ramfs.c:37-52 | for an image built by the tool these are its files in the order they were added |
| RamReader.VirtFs.Boot | Kernel/Source/core/fs/virtfs.c:7-24 | the boot image becomes drive A |
| RamReader.VirtFs.Register | Kernel/Source/core/fs/virtfs.c:26-31 | appends a file system; a null one halts |
| RamReader.VirtFs.FromLetter | Kernel/Source/core/fs/virtfs.c:196-204 | the first file system registered under the letter, or none |
| RamReader.VirtFs.FromPath | Kernel/Source/core/fs/virtfs.c:38-43 | a path has a drive if and only if it starts with a letter, a colon and a slash |
| RamReader.DriveIff | Kernel/Source/core/fs/virtfs.c:38-43 | the drives are the 26 letters, small or capital |
| RamReader.VirtFs.FOpen | Kernel/Source/core/fs/virtfs.c:73-97 | opens the entry with the rest of the path as its name on the drive's image, or nothing |
| RamReader.VirtFs.FRead | Kernel/Source/core/fs/virtfs.c:99-116 | copies the 32-bit product of its two counts from the start of the file's data and nothing else |
| RamReader.AddedFileOpens | Kernel/Source/core/fs/virtfs.c:73-97 | a file the tool added opens under its drive path with a handle on exactly its bytes |
| RamReader.ReadBack | Kernel/Source/core/fs/virtfs.c:7-116 | booted from an image, opening and reading delivers exactly the bytes of a file added to it |
| CStrings.StrCmp | Kernel/Source/lib/string.c:103-112 | 0 if and only if the strings are equal, and otherwise the difference of the signed characters where they part |
| CStrings.SignedCharacter | Kernel/Source/lib/string.c:103-112 | a character is the number between -128 and 127 with that low byte |
| Console.Vga.constructor | Kernel/Source/hal/devices/vga.c:6-28 | the console starts as a blank screen with white on black |
| Console.Vga.Clear | Kernel/Source/hal/devices/vga.c:35-47 | every cell is a blank in the new background, the cursor is home, and the transcript is empty |
| Console.Vga.SetPos | Kernel/Source/hal/devices/vga.c:168-172 | moves the cursor, modulo 16 bits, and nothing else, when the device runs |
| Console.Vga.DrawChar | Kernel/Source/hal/devices/vga.c:49-56 | changes the one cell, the character at 160 y + 2 x and the colours in the byte after it; nothing off the screen |
| Console.Vga.NewLine | Kernel/Source/hal/devices/vga.c:75-81 | the screen goes on showing the transcript, now with one more line, with or without a scroll |
| Console.Vga.Scroll | Kernel/Source/hal/devices/vga.c:99-108 | every row moves up, the last one is blank in the current colours, through the dword-wise copy and fill; nothing on a stopped device |
| Console.Vga.Delete | Kernel/Source/hal/devices/vga.c:83-97 | one step back in reading order and a blank there; nothing at the top left |
| Console.Vga.PutC | Kernel/Source/hal/devices/vga.c:110-123 | the framebuffer shows the last 25 lines of the transcript with the character added, cursor inside the screen, colours unchanged, tabs through the nested write |
| Console.Vga.Write | Kernel/Source/hal/devices/vga.c:125-159 | the framebuffer shows the transcript with the string's tokens applied; colours on exit are those on entry |
| Console.Vga.Escape | Kernel/Source/hal/devices/vga.c:134-153 | an escape takes exactly a complete sequence and applies its code, or is dropped alone |
| Console.ReadCode | Kernel/Source/hal/devices/vga.c:140-148 | the code buffer of four bytes is never overrun and holds the terminated code |
| Terminal.ScrollShows | Kernel/Source/hal/devices/vga.c:99-108 | a screen moved up by the overlapping copy shows the transcript with a new line |
| Terminal.DrawShows | Kernel/Source/hal/devices/vga.c:117-120 | drawing at the cursor shows the transcript with the character at its end |
| Terminal.WrapPlaces | Kernel/Source/hal/devices/vga.c:117-121 | every character of a run of any length lands at its place: 80 to a line, counted on from the cursor |
| Terminal.FlatPutChar | Kernel/Source/hal/devices/vga.c:110-123 | a character adds exactly its glyphs to what was ever written |
| Terminal.CharacterWritten | Kernel/Source/hal/devices/vga.c:110-123 | every character but backspace, tab, newline and carriage return is written as itself, a tab as four blanks; a newline only starts a line, the other two do nothing |
| Terminal.PutCharGrows | Kernel/Source/hal/devices/vga.c:110-123 | nothing written before moves or changes |
| Terminal.DeleteUndoesIff | Kernel/Source/hal/devices/vga.c:83-123 | deleting right after a character restores screen and cursor if and only if the covered blank had the current colours and writing did not scroll |
| Ansi.LexEncode | Kernel/Source/hal/devices/vga.c:132-155 | a string of characters and sequences of one to three decimal digits reads back as those characters and the numbers the digits denote |
| Ansi.EncodeLooks | Kernel/Source/hal/devices/vga.c:134-137 | such a string is read without looking past its end |
| Ansi.LoneEscape | Kernel/Source/hal/devices/vga.c:132-137 | an escape that starts no sequence is dropped, and the bracket after it is displayed |
| Ansi.Palette | Kernel/Source/lib/ansi.c:4-50 | codes 30 to 37 and 90 to 97 give the palette colour with red and blue exchanged, dark and bright, but 37 bright white and 90 gray; backgrounds are ten above |
| Ansi.RecolourTouches | Kernel/Source/hal/devices/vga.c:149-151 | each code changes the foreground alone, the background alone, both back to the entry colours, or nothing |
| Ansi.WriteDisplays | Kernel/Source/hal/devices/vga.c:125-159 | a write adds exactly the text outside its sequences, each cell in the colours of the sequences before it |
| Ansi.EncodedDisplays | Kernel/Source/hal/devices/vga.c:125-159 | for strings of complete sequences: the text and nothing of the sequences; a text without backspace, tab, newline and carriage return as it stands |
| Ansi.WriteGrows | Kernel/Source/hal/devices/vga.c:125-159 | no write moves or changes anything written before it |
| Ansi.ResetRestores | Kernel/Source/hal/devices/vga.c:149 | a reset brings back the colours the write was entered with |
| NumberLoops.UlToA | Kernel/Source/lib/stdlib.c:10-24 | prints the digits and a terminator and leaves the rest of the buffer alone |
| NumberLoops.FillDigits | Kernel/Source/lib/stdlib.c:14-20 | the 32-byte buffer is large enough for every 32-bit value in every base from 2 on, and ends with the digits |
| Numbers.DigitsDenote | Kernel/Source/lib/stdlib.c:10-24 | in bases 2 to 36 the digits denote the value, without a leading zero |
| Numbers.DigitCharacters | Kernel/Source/lib/stdlib.c:17-18 | the digits are 0 to 9 and then capital letters |
| NumberLoops.AToLRead | Kernel/Source/lib/stdlib.c:54-71 | the parsing loops compute the value of blanks, sign and digits in 32-bit arithmetic |
| NumberLoops.AToXRead | Kernel/Source/lib/stdlib.c:73-88 | the hexadecimal value, or 0 if any character is not a hexadecimal digit |
| NumberLoops.ItoaInto | Kernel/Source/lib/stdlib.c:92-109 | digit loop and reversal leave the string and its terminator; an unsupported base leaves the buffer unchanged |
| NumberLoops.ItoaRev | Kernel/Source/lib/stdlib.c:4-8 | reverses the first characters in place and nothing else |
| NumberLoops.XToA | Kernel/Source/lib/stdlib.c:132-163 | prints 2, 4 or 8 hexadecimal digits and no terminator; any other size only clears the first byte |
| Numbers.ItoaPrints | Kernel/Source/lib/stdlib.c:92-109 | for every value but the most negative: the sign in base 10 only, then the digits of the magnitude |
| Numbers.DecimalRoundTrip | Kernel/Source/lib/stdlib.c:54-115 | atol reads back what ltoa prints in base 10, for every 32-bit value |
| Numbers.HexRoundTrip | Kernel/Source/lib/stdlib.c:73-115 | atox reads back what ltoa prints in base 16, for every 32-bit value |
| Numbers.FixedHexRoundTrip | Kernel/Source/lib/stdlib.c:73-163 | atox reads back what xtoa prints with four bytes, for every 32-bit value |
| Numbers.ItoaRoundTripIff | Kernel/Source/lib/stdlib.c:52-109 | atoi reads back what itoa prints if and only if the value is not the most negative one |
| Numbers.BufferRoundTrips | Kernel/Source/lib/stdlib.c:54-163 | the three round trips out of a buffer, whatever follows the terminator |
| Numbers.ItoaBufferRoundTripIff | Kernel/Source/lib/stdlib.c:52-109 | the signed round trip out of a buffer, with the same exact condition |
| Numbers.DigitsRead | Kernel/Source/lib/stdlib.c:54-71 | a string of decimal digits of any length reads as the number it denotes modulo 2^32, leading zeros and all |
| Numbers.AToLReads | Kernel/Source/lib/stdlib.c:54-71 | blanks are skipped, one sign is taken, and digits are read up to the first other character: their number, or its negative, modulo 2^32, and 0 without digits |
| Numbers.HexRead | Kernel/Source/lib/stdlib.c:73-88 | hexadecimal characters, small and capital letters alike, read as their number modulo 2^32; any other character makes the result 0 |
| Numbers.ItoaMostNegativeIs | Kernel/Source/lib/stdlib.c:92-109 | the most negative value prints in every base as its magnitude with each digit as far below 0 as it should be above |
| StrSplit.Split | Kernel/Source/lib/string.c:204-233 | no result for an empty string, otherwise an array with exactly one zero-terminated copy per piece |
| StrSplit.CountDelims | Kernel/Source/lib/string.c:212 | counts the delimiters before the last character |
| StrSplit.PieceCount | Kernel/Source/lib/string.c:209-231 | one more than that count is the number of pieces, so the array is filled exactly |
| StrSplit.SplitJoins | Kernel/Source/lib/string.c:204-233 | no piece holds the delimiter, and joining the pieces gives the string less one delimiter at its end |
| StrSplit.JoinSplitsIff | Kernel/Source/lib/string.c:204-233 | splitting a join of delimiter-free pieces gives them back if and only if the last one is not empty |
| StrSplit.ClosedJoinSplits | Kernel/Source/lib/string.c:204-233 | with a delimiter after the last piece, always |
| MemOps.MemCpy | Kernel/Source/lib/string.c:39-50 | dwords and then bytes, forwards, as the instruction loops do it |
| MemOps.MemCpyMovesIff | Kernel/Source/lib/string.c:39-50 | that equals a copy at once for every content if and only if it moves down, or the ranges are disjoint, or it is one dword |
| MemOps.MemSet | Kernel/Source/lib/string.c:52-61 | the dword over and over and then its low byte, and nothing outside the range |
| MemOps.FilledReads | Kernel/Source/lib/string.c:52-61 | every whole dword of the range reads as the one given, and the bytes after them hold its low byte |
| MemOps.MemSetFillsIff | Kernel/Source/lib/string.c:52-61 | every byte is the low byte if and only if the length is below 4 or the dword repeats one byte |
| MemOps.MemSet16 | Kernel/Source/lib/string.c:63-66 | fills with the doubled 16-bit pattern |
| MemOps.MemSet16FillsIff | Kernel/Source/lib/string.c:63-66 | at even lengths the pattern is complete if and only if the length is whole dwords or the pattern repeats one byte |
| Powers.PowIsPower | Kernel/Source/lib/math.c:54-66 | halving with truncation computes x to the y over exact reals, for every exponent and every base that has one |
| Powers.PowAdds | Kernel/Source/lib/math.c:54-66 | so sums of exponents become products, across zero as well |

## Left out

Not modelled:

* Memory contents behind the allocators: zero filling (`heap.c:60`, `memmgr.c:63-77`), and the storage that `ptrlist`,
  `strdup` and `thread_free` take from and give back to the heap. Lists and the heap are separate.
* `heap_init_kthread`, which makes the boot thread the owner of everything allocated so far, and `memmgr_gcmain`, which
  only calls the operations above in a loop.
* Interrupt masking, port output, the cursor register, register-level context switching, thread stacks and names.
* Probing the installed memory (`memmgr_amount_installed`); the heap's region is a parameter.
* `vga_drawstr`, `vga_writeln` and moving the cursor from outside; directories and labels of the virtual file system.
* The C# lookup by name and the constructor from bytes (`RAMFS.cs:122-129`, `RAMFS.cs:164-173`).
* `ftoa`, floating-point rounding and `floor`; `powf` is the same recursion as `pow`.
* Null arguments that a Dafny type already excludes (`ptrlist`, `heap_merge`, `strsplit`, the destination of a read).
* The thread list and the list of file systems are sequences in a field, not `PtrList` objects, so storage shared between a
  list and its duplicate is not modelled. An image in memory is an immutable string of bytes on the kernel's side.
* Signed overflow, undefined in C, wraps as the compiler's instructions do (`stdlib.c:67`, `stdlib.c:96`, `string.c:65`).

Contracts that say less than they could:

- Heap.KernelHeap.HeapRequest: says when the source stores through a null descriptor, not what that store does.
- Heap.KernelHeap.HeapAlloc: the same, and the block's bytes are not modelled.
- HeapClear.ClearTouches: one direction. The exact condition is `PassTilesIff`, whose right-hand side follows the pass;
  this one can be read off the table before the call.
- MemMgr.Manager.ScanMods: needs the scan to have found the kernel's entry; otherwise the source follows a null pointer.
- MemMgr.Init: the same, as a condition on the firmware map; zeroing the free memory afterwards is not modelled.
- PtrLists.PtrList.Remove: what a fault does to the list and to the memory behind the new array is not modelled.
- RamWriter.RAMFileSystem.constructor: sizes below 2 GiB, and a data area of at least the 28 bytes the allocation forgets.
- RamWriter.RAMFileSystem.AddFile: names are ASCII, not empty and without NUL; other encodings of names are not modelled.
- RamReader.RamFs.FOpen: a name of 64 characters or more needs an image whose name fields all end, as those of every image
  the tool builds do; otherwise the source compares on into the next field.
- RamReader.VirtFs.FRead: the destination and the image are large enough for the bytes asked for; the source does not look.
- Console.Vga.Write: the look-ahead after every `ESC [` stays inside the string; beyond it the source reads whatever
  memory follows the terminator. Strings of complete sequences always qualify (`EncodeLooks`).
- Console.Vga.Delete: stated on the framebuffer and the cursor, not on the transcript, which is only ever added to.
- NumberLoops.UlToA: the base is at least 2 and the caller's buffer is large enough.
- NumberLoops.ItoaInto: the caller's buffer is large enough.
- MemOps.MemCpy: addresses are indices into one array and do not wrap around the address space.
- Powers.PowIsPower: over exact reals, so rounding and the division by zero of 0 to a negative power are not covered.
