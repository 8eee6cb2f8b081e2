# A Dafny model of the FAASTR kernel's core

FAASTR is a kernel that runs functions of isolated modules as contexts, lets them call each other
(`fuse` waits for the callee, `cast` does not) and calls functions of the host over shared memory.
This project models the parts of it that are hard to get right and proves what they promise.

| files | component |
|---|---|
| `FreeList`, `Valloc`, `Bump`, `Recycle` | free lists with recursive merging, virtual page allocator, frame allocators |
| `PageEntry`, `WordTables`, `PageTables`, `Mapper`, `RecursiveSlot` | page table words, tables of words, the four-level tree, the mapper, the recursive slot |
| `Contexts`, `ContextRuns`, `Fairness`, `Scheduler` | contexts, fused calls and the scheduler on any number of CPUs |
| `RingMask`, `Ring`, `Channel`, `RpcWait` | the shared-memory ring, messages over it, calls to the host |
| `LittleEndian`, `Sos`, `SosCodec` | the SOS wire format |
| `Physmap` | physical memory mapped into the grant area, on top of the mapper |
| `MemOps` | word-at-a-time `memmove` and `memcmp` |
| `Wrappers` | shared helpers |

Concurrent parts are state machines. A step is one load, store or locked section; a theorem about
all runs quantifies over all sequences of enabled steps from the start. The scheduler's methods in
`Scheduler` are tied to the steps of `Contexts`. Sequential parts are classes and methods over the
fields the code has, each with the abstract set, map or sequence it stands for. Theorems about runs
of those are stated on histories: sequences of states, calls and results in which every call did
what its contract says; a method shows that every run of calls is such a history.

Where the code does less than one would expect, the model follows the code and says exactly when:

- The bump allocator never returns for some requests of more than one frame
  (`BumpFrames.LargeRequestCanSpin`; exact condition in `BumpFrames.BumpAllocator.AllocateFrames`).
- Unmapping the last page below a P4 entry that was set without counting, as the kernel entries of
  every spawned context are, underflows or spoils the count of the P4 table
  (`Mapping.Mapper.SpoilsExactly`, `Mapping.Mapper.ZeroExactly`, `Mapping.SpoilWitness`). The P3 table
  it frees is still in use by the kernel (`Mapping.SharedTableFreed`).
- `fuse_switch` blocks the caller only if it is runnable, and a running one stays marked running. The
  caller is nevertheless never scheduled (`ContextRuns.ParkedNotScheduled`).
- `exit` marks a callee exited before it returns to the caller, and an exited context that loses its CPU
  never runs again. The caller is nevertheless never stranded, because a fused callee enters `exit`
  through an interrupt gate and interrupts stay off until `fuse_return` (`ContextRuns.ExitingIsRunning`,
  `ContextRuns.CallerCanResume`). All safety theorems hold even without that gate;
  `ContextRuns.StrandedExactly` and `ContextRuns.StrandingHappens` say what would happen then.
- `prev_power_of_two` smears 32 bits only (`RingMask.PrevPowerExact`).
- A message whose bytes would cross the end of the buffer stops the sender
  (`Channel.WriteGoesOnIff`, `Channel.CrossingHappens`).
- Between taking a call from the queue and waking its context the handler holds a call that is not
  queued although its caller is blocked (`RpcWait.BlockedIsAwaited`).
- `write_msg`, in the kernel and in the host, sends the interrupt before the tail store that makes the
  message visible. A caller is left waiting exactly when the handler looks for the last time in between
  and is not entered again (`RpcWait.StrandedExactly`, `RpcWait.StrandingHappens`). With the store first
  nobody is (`RpcWait.NoLostWakeUp`).
- Empty nested lists, empty messages and module names with a NUL do not survive SOS
  (`Sos.RoundTrip`).
- The documentation of `memmove` promises any overlap; it holds for exactly some
  (`MemOps.MemmoveExact`).
- `physmap` passes over a gap that fits exactly (`Physmap.ExactGapPassedOver`, `Physmap.ExactGap`).

`dafny verify dfyconfig.toml` checks the project.

## Model

| member | source | states |
|---|---|---|
| `FreeList.Merge` | kernel/src/memory/recycle.rs:33-60 | the recursive merge terminates, by the number of listed blocks outside the growing range, although swallowed blocks stay listed while it recurses. It reports a merge exactly when a block touches the range; with one touching block the range joins it in place, with two the later block gets everything and the right stale entry is removed; nothing else in the list moves |
| `FreeList.Release` | kernel/src/memory/recycle.rs:111-121 | freeing a range that overlaps no free block adds exactly its pages to the free set, counts none twice, and leaves the blocks non-empty, disjoint and non-adjacent |
| `FreeList.FreeCount` | kernel/src/memory/recycle.rs:25-31 | the sum of the block sizes is the number of distinct free pages |
| `FreeList.TakeTop` | kernel/src/memory/recycle.rs:92-105 | the pages handed out are the top of the chosen block, they were free, exactly they leave the free set, and the blocks stay non-adjacent |
| `FreeList.RunInOneBlock` | kernel/src/memory/valloc.rs:24-51 | a stretch of free pages never runs across two blocks, so looking at single blocks misses nothing |
| `FreeList.BlocksAreMaximalRuns` | kernel/src/memory/valloc.rs:24-51 | the blocks of the list are exactly the maximal runs of free pages |
| `FreeList.SamePagesSameBlocks` | kernel/src/memory/valloc.rs:24-51 | the blocks are determined by the set of free pages, whatever sequence of calls led there |
| `FreeList.NoRun` | kernel/src/memory/valloc.rs:57-73 | if no block is large enough there is no run of that many free pages anywhere |
| `VirtualPages.FindBestFit` | kernel/src/memory/valloc.rs:54-73 | the scan, with its early exit, finds a smallest sufficient block exactly when one exists |
| `VirtualPages.Valloc.constructor` | kernel/src/memory/valloc.rs:10-14 | one block covering the whole region, nothing handed out |
| `VirtualPages.Valloc.AllocatePages` | kernel/src/memory/valloc.rs:53-90 | for a positive count, `None` exactly when no run of that many contiguous free pages exists; otherwise the top of a smallest sufficient block, moved from the free to the live pages, and nothing else changes |
| `VirtualPages.Valloc.DeallocatePages` | kernel/src/memory/valloc.rs:92-98 | returns exactly the given live pages to the free set; live and free pages always partition the region |
| `VirtualPages.Valloc.FreeBlocksAreMaximalRuns` | kernel/src/memory/valloc.rs:10-98 | in every reachable state the free blocks are exactly the maximal runs of free pages, and once everything is returned the list is the single initial block again |
| `BumpFrames.BumpAllocator.constructor` | kernel/src/memory/bump.rs:17-27 | every frame of a free area above the kernel range is available |
| `BumpFrames.BumpAllocator.ChooseNextArea` | kernel/src/memory/bump.rs:29-46 | the current area becomes the lowest free area that still reaches the next frame, and no available frame is lost by moving there |
| `BumpFrames.FramesHoldBytes` | kernel/src/memory/bump.rs:49-75 | the frames the allocator deals in are exactly those that hold a byte of a memory area of type 1 |
| `BumpFrames.BumpAllocator.AllocateFrames` | kernel/src/memory/bump.rs:101-140 | a success returns the least available frame and exactly the count of frames from it, all in free areas and outside the kernel range; failure means none is left; the call repeats itself for ever exactly under `SpinCondition` |
| `BumpFrames.SingleFrameNeverSpins` | kernel/src/memory/bump.rs:101-140 | a request for one frame always returns |
| `BumpFrames.LargeRequestCanSpin` | kernel/src/memory/bump.rs:120-136 | a concrete family of memory maps on which a request for three frames never returns although frames are available |
| `BumpFrames.BumpAllocator.CountFrames` | kernel/src/memory/bump.rs:53-99 | counting frame by frame over all free areas gives the size of the available set, or of its complement |
| `BumpFrames.BumpAllocator.FreeFrames` | kernel/src/memory/bump.rs:53-75 | the number of available frames |
| `BumpFrames.BumpAllocator.UsedFrames` | kernel/src/memory/bump.rs:77-99 | the number of frames of free areas that are not available |
| `RecycledFrames.FindSmallest` | kernel/src/memory/recycle.rs:77-90 | a smallest sufficient block, the last one among equals, exactly when one exists |
| `RecycledFrames.RecycleAllocator.constructor` | kernel/src/memory/recycle.rs:17-23 | nothing recycled, nothing live |
| `RecycledFrames.RecycleAllocator.SetNoncore` | kernel/src/memory/recycle.rs:64-66 | changes the mode and neither the free list nor the live frames |
| `RecycledFrames.RecycleAllocator.AllocateFrames` | kernel/src/memory/recycle.rs:76-109 | the range handed out was available, is disjoint from every live range and leaves the available set; it is the top of a smallest sufficient recycled block, or else starts at the least frame the bump allocator has left; used rises by exactly the count; a refusal means the bump allocator is empty and no recycled run suffices; the call never returns exactly under `NeverReturns` |
| `RecycledFrames.RecycleAllocator.DeallocateFrames` | kernel/src/memory/recycle.rs:111-121 | a freed live range becomes available, and used falls by exactly its count, in noncore mode and only then; it never was available before |
| `RecycledFrames.RecycleAllocator.Run` | kernel/src/memory/recycle.rs:76-121 | any run of requests, frees of held ranges and mode changes is a history in which every call did what its contract says, and it ends early exactly at a request that never returns |
| `RecycledFrames.HistoryHeld` | kernel/src/memory/recycle.rs:76-121 | over any history the ranges held, as the calls returned them, are pairwise disjoint, and the live frames are exactly theirs and those live at the start |
| `RecycledFrames.HistorySafe` | kernel/src/memory/recycle.rs:76-121 | over any history every frame held lies in a free memory area, outside the kernel range, and is neither in the free list nor left to the bump allocator |
| `RecycledFrames.Accounting` | kernel/src/memory/recycle.rs:68-121 | over any history free plus used is the number of frames there are, and used has risen by exactly the counts served less those freed in noncore mode |
| `RecycledFrames.RecycleAllocator.FreeFrames` | kernel/src/memory/recycle.rs:68-70 | the number of frames that can still be handed out, recycled ones included |
| `RecycledFrames.RecycleAllocator.UsedFrames` | kernel/src/memory/recycle.rs:72-74 | the subtraction never goes below zero, and gives the frames of free areas that are not available |
| `PageEntry.SetRefines` | kernel/src/arch/x86_64/paging/entry.rs:64-67 | on the 64-bit word, `set` replaces frame and flags and keeps the counter bits |
| `PageEntry.SetUnusedRefines` | kernel/src/arch/x86_64/paging/entry.rs:41-43 | `set_unused` clears frame and flags, keeps the counter bits, and makes the entry unused |
| `PageEntry.IsUnusedRefines` | kernel/src/arch/x86_64/paging/entry.rs:36-38 | the one-comparison test says unused exactly when frame and flags are empty, whatever the counter bits |
| `PageEntry.SetCounterRefines` | kernel/src/arch/x86_64/paging/entry.rs:74-77 | `set_counter_bits` replaces the counter and keeps frame and flags |
| `PageEntry.CountRefines` | kernel/src/arch/x86_64/paging/entry.rs:69-72 | ten bits hold the count, and adding or subtracting one within them is exact |
| `PageEntry.WithPresentAdds` | kernel/src/arch/x86_64/paging/mapper.rs:120 | or-ing PRESENT into the flag word adds that flag and no other |
| `PageEntry.FlagBits` | kernel/src/arch/x86_64/paging/entry.rs:11-24 | each flag is its own bit: present 0, writable 1, user accessible 2, and so on to no-execute 63 |
| `PageEntry.FieldBits` | kernel/src/arch/x86_64/paging/entry.rs:26-72 | the frame is bits 12 to 51 and the counter bits 52 to 61 |
| `PageEntry.DecodeInjective` | kernel/src/arch/x86_64/paging/entry.rs:26-72 | a word with its spare bits clear is determined by its frame, flags and counter |
| `WordTables.UsedRefines` | kernel/src/arch/x86_64/paging/table.rs:51-57 | the words in use are the entries in use |
| `WordTables.OccupyRefines` | kernel/src/arch/x86_64/paging/table.rs:65-82 | on the 512 words of a table, counting up and then setting an entry is the operation on entry records, entry 0 included |
| `WordTables.VacateRefines` | kernel/src/arch/x86_64/paging/table.rs:65-87 | likewise counting down and then clearing |
| `WordTables.CountFits` | kernel/src/arch/x86_64/paging/table.rs:65-77 | an exact count is at most 512, and less while a word is unused, so it never leaves its bits |
| `WordTables.OccupyCounts` | kernel/src/arch/x86_64/paging/table.rs:79-82 | using an unused word keeps the count in the words equal to the number of words in use, at most 512 |
| `WordTables.VacateCounts` | kernel/src/arch/x86_64/paging/table.rs:84-87 | clearing a word in use keeps it so, and the count was positive |
| `PageTables.OccupyEffect` | kernel/src/arch/x86_64/paging/table.rs:79-82 | counting up and setting an unused entry adds that one entry to those in use and keeps all others, entry 0 with its counter included |
| `PageTables.VacateEffect` | kernel/src/arch/x86_64/paging/table.rs:84-87 | counting down and clearing an entry removes that one entry and keeps all others |
| `PageTables.WalkExact` | kernel/src/arch/x86_64/paging/mapper.rs:256-262 | walking the tables by indices reaches a table exactly when that table has those indices as its position; positions and tables correspond one to one |
| `PageTables.LookupIn` | kernel/src/arch/x86_64/paging/mapper.rs:256-262 | a page resolves to the present entry in the last-level table at its position |
| `PageTables.SameTranslation` | kernel/src/arch/x86_64/paging/mapper.rs:256-262 | two trees that keep each other's last-level entries translate every page alike |
| `PageTables.AddTable` | kernel/src/arch/x86_64/paging/table.rs:104-116 | hanging a zeroed table into an unused entry keeps the tree shape and every translation |
| `PageTables.DropTable` | kernel/src/arch/x86_64/paging/mapper.rs:184-194 | taking out a table without entries keeps the tree shape and every translation |
| `PageTables.SetLeaf` | kernel/src/arch/x86_64/paging/mapper.rs:119-120 | changing one last-level entry changes the translation of that one page only |
| `PageTables.ShareShape` | kernel/src/context/call.rs:116-122 | hanging the tables below an entry of another root into the same free entry keeps the tree shape |
| `PageTables.ShareLookup` | kernel/src/context/call.rs:116-122 | below that entry pages then resolve as with the other root, elsewhere as before |
| `Mapping.PathInjective` | kernel/src/arch/x86_64/paging/mod.rs:496-510 | the four indices determine a canonical page |
| `Mapping.PathOnto` | kernel/src/arch/x86_64/paging/mod.rs:496-510 | and every four indices outside the recursive slot are those of a page |
| `Mapping.CountOccupy` | kernel/src/arch/x86_64/paging/table.rs:79-82 | the count in entry 0 stays equal to the number of entries in use when one is added |
| `Mapping.CountVacate` | kernel/src/arch/x86_64/paging/table.rs:84-87 | likewise when one is removed, and the count was positive |
| `Mapping.EmptyExactly` | kernel/src/arch/x86_64/paging/table.rs:51-57 | a count of zero says exactly that no entry is in use |
| `Mapping.DirectEntryMiscounts` | kernel/src/arch/x86_64/paging/mapper.rs:228-232 | taking out an entry that was set without counting underflows exactly when nothing is counted, and otherwise leaves a wrong count |
| `Mapping.Mapper.constructor` | kernel/src/arch/x86_64/paging/mod.rs:422-444 | a fresh address space: only the recursive entry, with its three flags, no page mapped |
| `Mapping.Mapper.NextTableCreate` | kernel/src/arch/x86_64/paging/table.rs:104-116 | finds or creates the table below an entry without changing any translation; the new frame comes from the allocator; the invariant it keeps includes that every entry above the last level that was not set directly is exactly present, writable and user accessible |
| `Mapping.Mapper.WalkCreate` | kernel/src/arch/x86_64/paging/mapper.rs:106-108 | creates the missing tables on the way to a page, changing no translation |
| `Mapping.Mapper.MapTo` | kernel/src/arch/x86_64/paging/mapper.rs:104-122 | adds exactly one page to the finite map the tables stand for; refuses exactly a page already mapped; runs out of frames only with fewer than three left; no frame is lost or used twice |
| `Mapping.Mapper.AccessExact` | kernel/src/arch/x86_64/paging/table.rs:104-116 | in every valid state, going by all four entries of a page's walk, the page is user accessible, writable or not executable exactly as its own flags say, unless it lies below a directly set entry of the root |
| `Mapping.AddPermissive` | kernel/src/arch/x86_64/paging/table.rs:112 | a created table keeps every entry above the last level, but the direct ones, present, writable and user accessible |
| `Mapping.Mapper.Remap` | kernel/src/arch/x86_64/paging/mapper.rs:130-147 | changes the flags of one mapped page, keeps its frame, and panics exactly when it is not mapped |
| `Mapping.Mapper.TranslatePage` | kernel/src/arch/x86_64/paging/mapper.rs:256-262 | any page number, those in the recursive slot included, resolves as the tables say, and a mapped page to its frame in the finite map |
| `Mapping.Mapper.ClearLeaf` | kernel/src/arch/x86_64/paging/mapper.rs:171-172 | removes one page from the map, with its count |
| `Mapping.Mapper.DropChild` | kernel/src/arch/x86_64/paging/mapper.rs:184-194 | gives an empty table back to the allocator, which keeps its frame for reuse exactly in noncore mode, and changes no translation |
| `Mapping.Mapper.Prune` | kernel/src/arch/x86_64/paging/mapper.rs:174-238 | frees exactly the tables on the path that have no entry left, from the last level up, and changes no translation; says exactly when the count of the root underflows or goes wrong |
| `Mapping.Mapper.PruneRoot` | kernel/src/arch/x86_64/paging/mapper.rs:228-238 | the last step on the root: exact for a counted entry, an underflow or a wrong count for one that was set directly |
| `Mapping.Mapper.UnmapReturn` | kernel/src/arch/x86_64/paging/mapper.rs:155-254 | removes exactly one page and returns its frame; without keep_parents frees exactly the tables whose last entry went; panics exactly when the page is not mapped or the count of the root underflows, and spoils that count exactly when it empties the table below a directly set entry |
| `Mapping.Mapper.SpoilsExactly` | kernel/src/arch/x86_64/paging/mapper.rs:206-238 | that happens exactly for the last page mapped below a directly set entry of the root |
| `Mapping.Mapper.ZeroExactly` | kernel/src/arch/x86_64/paging/table.rs:84-87 | and it underflows exactly when all mapped pages lie below directly set entries |
| `Mapping.SpoilWitness` | kernel/src/context/call.rs:98-122 | both happen in an address space that shares one kernel page, with and without a page of its own; the two roots then have the same P3 table above it |
| `Mapping.SharedTableFreed` | kernel/src/arch/x86_64/paging/mapper.rs:206-238 | in that address space, with a page of its own, unmapping the shared page makes a frame available that is still the P3 table of the kernel's mapping of it |
| `Mapping.Mapper.ShareEntry` | kernel/src/context/call.rs:116-122 | setting an entry of another root directly keeps the invariant, leaves it uncounted, and adds exactly the pages below it |
| `Mapping.Mapper.Step` | kernel/src/arch/x86_64/paging/mapper.rs:104-254 | each call does to the tables what its counterpart does to a finite map, and names the exact reason when it does not |
| `Mapping.Mapper.Run` | kernel/src/arch/x86_64/paging/mapper.rs:104-262 | any run of map, remap and unmap calls, in any address space, refines the same run on a finite map; it stops only at a call that panics or takes out the last page below a directly set entry; no frame is lost or used twice; and when no parents were kept and nothing is mapped any more, only the root table is left |
| `Mapping.Mapper.NoTableLeaks` | kernel/src/arch/x86_64/paging/mapper.rs:155-241 | when no page is mapped and no table was kept empty, only the root table is left; every run that keeps no parents keeps it so |
| `RecursiveSlot.FieldsArePageIndices` | kernel/src/arch/x86_64/paging/mod.rs:496-510 | the index fields of an address are the indices of its page |
| `RecursiveSlot.Window4` | kernel/src/arch/x86_64/paging/table.rs:12 | the fixed address of the root table is canonical and has 511 in all four index fields |
| `RecursiveSlot.Window3` | kernel/src/arch/x86_64/paging/table.rs:118-127 | the address derived for a P3 table is canonical and its fields are 511, 511, 511 and the P4 index |
| `RecursiveSlot.Window2` | kernel/src/arch/x86_64/paging/table.rs:118-127 | likewise for a P2 table: 511, 511 and the two indices |
| `RecursiveSlot.Window1` | kernel/src/arch/x86_64/paging/table.rs:118-127 | likewise for a P1 table: 511 and the three indices |
| `RecursiveSlot.WindowsReachTables` | kernel/src/arch/x86_64/paging/table.rs:118-127 | with entry 511 of the P4 pointing to itself, the processor's walk (section 4.5 of volume 3A of the Intel SDM) of each derived address ends at the frame of the page's P3, P2 and P1 table |
| `Contexts.KeepInv` | kernel/src/context/switch.rs:8-273 | every step of every CPU keeps the invariant that ties statuses, ownership, links, results and program points together |
| `Contexts.KeepCast` | kernel/src/context/call.rs:268-292 | inserting a cast context keeps it |
| `Contexts.KeepFuseInsert` | kernel/src/context/call.rs:217-233 | inserting a linked callee keeps it |
| `Contexts.KeepFuseSwitch` | kernel/src/context/switch.rs:215-258 | starting the callee keeps it, although `block` leaves the running caller's status alone |
| `Contexts.KeepTakeResult` | kernel/src/context/call.rs:240-249 | taking the result keeps it |
| `Contexts.KeepSysReturn` | kernel/src/syscall/call.rs:57-73 | storing the result keeps it |
| `Contexts.KeepExit` | kernel/src/syscall/process.rs:82-86 | marking a context exited and taking its link keeps it |
| `Contexts.KeepFuseReturn` | kernel/src/context/switch.rs:166-203 | resuming the caller keeps it |
| `Contexts.KeepSwitch` | kernel/src/context/switch.rs:38-115 | a switch by any CPU keeps it |
| `Contexts.KeepHostCheck` | kernel/src/devices/ivshmem.rs:180-186 | blocking for a host reply keeps it |
| `Contexts.KeepHostReply` | kernel/src/devices/ivshmem.rs:138-141 | a host reply keeps it |
| `Contexts.SwitchChooses` | kernel/src/context/switch.rs:27-90 | by statuses and owners: a switch goes to the first context above the current one in cyclic id order that is Runnable or New and owned by the CPU or nobody, and to none only if there is none |
| `Contexts.SwitchEffect` | kernel/src/context/switch.rs:8-115 | field by field: the chosen context runs, the one it replaces becomes Runnable if it was Running, unowned contexts become the CPU's, and nothing else changes |
| `Contexts.InsertEffect` | kernel/src/context/call.rs:217-292 | a cast context is New and unowned, a callee Blocked, linked and on its caller's CPU; the others keep status and owner |
| `Contexts.FuseSwitchEffect` | kernel/src/context/switch.rs:215-258 | the callee linked to the caller runs on its CPU; the caller is Blocked if it was Runnable and otherwise keeps its status; nobody else changes |
| `Contexts.FuseReturnEffect` | kernel/src/context/switch.rs:166-203 | the caller runs again whatever its status was, the callee stays exited, both keep their result slots, and nobody else changes |
| `Contexts.HostReplyStores` | kernel/src/devices/ivshmem.rs:138-141 | the value of the reply is in the slot of the context it is for, that context is not blocked, and nobody else changes |
| `ContextRuns.TraceInv` | kernel/src/context/switch.rs:8-273 | the invariant holds in every state of every interleaving of any number of CPUs |
| `ContextRuns.OneCpu` | kernel/src/context/switch.rs:27-115 | no context is current on two CPUs |
| `ContextRuns.ParkedNotScheduled` | kernel/src/context/switch.rs:27-31 | a caller whose callee has started is on no CPU and no CPU may choose it |
| `ContextRuns.ParkedStays` | kernel/src/context/switch.rs:215-273 | no step but the return of its own exited callee ends the wait |
| `ContextRuns.ParkedUntilReturn` | kernel/src/context/switch.rs:166-273 | over any run, such a caller does not run until the callee it started has exited and returned to it |
| `ContextRuns.ExitedStays` | kernel/src/syscall/process.rs:75-115 | an exited context stays exited, and off its CPU it stays off |
| `ContextRuns.ExitedNeverRuns` | kernel/src/syscall/process.rs:75-115 | an exited context that has left its CPU never runs again |
| `ContextRuns.PreemptedExitStrandsCaller` | kernel/src/syscall/process.rs:82-95 | what the interrupt gate prevents: a callee switched out after marking itself exited and before `fuse_return` would leave its caller waiting in every later state |
| `ContextRuns.ReturnResumes` | kernel/src/syscall/process.rs:90-95 | while the exited callee is on its CPU, its return is possible and resumes the caller |
| `ContextRuns.ExitingIsRunning` | kernel/src/arch/x86_64/idt.rs:75-77 | a fused callee exits through an interrupt gate; with no switch of its CPU on the way out, in every state of every run a callee that has exited and not returned is on its CPU |
| `ContextRuns.ReturnIsNext` | kernel/src/syscall/process.rs:75-95 | the next step of that CPU is `fuse_return`, and it hands the CPU to the caller |
| `ContextRuns.CallerCanResume` | kernel/src/syscall/process.rs:75-95 | so no caller is stranded: in every state of every run, a caller whose callee has exited is one enabled step of that callee away from running |
| `ContextRuns.StrandedExactly` | kernel/src/syscall/process.rs:82-95 | with or without the gate, once the callee is marked exited some continuation of the run has the caller running again exactly if the callee is still on its CPU |
| `ContextRuns.StrandingHappens` | kernel/src/syscall/process.rs:82-95 | a run without the gate, with interrupts on during `exit`, that ends with the caller stranded |
| `ContextRuns.OneCallee` | kernel/src/context/call.rs:217-233 | each caller has at most one callee, created after it |
| `ContextRuns.ChainsAcyclic` | kernel/src/context/call.rs:217-233 | following the links from a context never leads back to it |
| `ContextRuns.AncestorOlder` | kernel/src/context/call.rs:217-250 | every context up the chain is older and is itself waiting or about to |
| `ContextRuns.GivenOrigin` | kernel/src/syscall/call.rs:57-73 | a context has given a value exactly if it passed it to `sys_return` earlier in the run |
| `ContextRuns.StartOrigin` | kernel/src/context/switch.rs:215-273 | a caller waiting for a callee started that callee earlier in the run |
| `ContextRuns.ResultIsWhatTheCalleeGave` | kernel/src/context/call.rs:240-249 | the value a caller takes is what the callee it started passed to `sys_return`, and that callee passed nothing else, whatever ran in between |
| `ContextRuns.ResultPresentIffReturned` | kernel/src/context/call.rs:240-249 | a resumed caller finds a result exactly if its callee called `sys_return` |
| `Fairness.CloserEachSwitch` | kernel/src/context/switch.rs:70-90 | a runnable context is chosen, or the choice comes strictly nearer to it in cyclic id order |
| `Fairness.NearerOrStill` | kernel/src/context/switch.rs:38-115 | in a run, while a context stays runnable on a CPU that makes no fused call or return, only switches move that CPU, each nearer to the context |
| `Fairness.NotForever` | kernel/src/context/switch.rs:65-90 | over any such stretch of a run the distance shrinks by the number of switches that did not choose it |
| `Fairness.ServedWithinOneTurn` | kernel/src/context/switch.rs:65-90 | among N contexts, one that stays runnable through such a stretch is chosen within N - 1 switches of its CPU, however the others change and whatever other CPUs do |
| `Fairness.StartsOnce` | kernel/src/context/switch.rs:215-230 | no context becomes unstarted again, and a fused call starts one more |
| `Fairness.ReturnsOnce` | kernel/src/context/switch.rs:166-203 | no context returns twice |
| `Fairness.NearerOrJumps` | kernel/src/context/switch.rs:38-273 | a turn for every fused call and return still possible plus the rest of this turn: no step makes that distance longer, and each switch that does not choose the context makes it shorter |
| `Fairness.ServedDespiteCalls` | kernel/src/context/switch.rs:38-273 | fused calls and returns on the CPU included, one of N contexts that waits to run there becomes current within (2N + 1)(N - 1) switches of the CPU, as long as no context is added |
| `Scheduler.FirstFree` | kernel/src/context/list.rs:51-53 | the search stops at the first id not in use |
| `Scheduler.WithKey` | kernel/src/context/list.rs:64-68 | the ordered map keeps its keys ascending and gains the new one |
| `Scheduler.ContextList.Insert` | kernel/src/context/list.rs:46-74 | gives the first free id from the counter on, or fails exactly when there is none below the limit 2^63 - 2; the counter moves past the id and nothing else changes |
| `Scheduler.ContextList.Update` | kernel/src/context/switch.rs:65-68 | every context without an owner becomes this CPU's |
| `Scheduler.ContextList.Choose` | kernel/src/context/switch.rs:70-90 | the two scans find the first context above the current id, else the first below, that is Runnable or New and owned by the CPU, and none only if there is none |
| `Scheduler.ContextList.SwitchContext` | kernel/src/context/switch.rs:38-115 | does exactly the machine's switch step |
| `Scheduler.ContextList.CastInner` | kernel/src/context/call.rs:268-292 | does exactly the cast step |
| `Scheduler.ContextList.FuseInner` | kernel/src/context/call.rs:217-233 | does exactly the step that inserts a callee |
| `Scheduler.ContextList.FuseSwitchTo` | kernel/src/context/switch.rs:215-258 | does exactly the step that starts a callee |
| `Scheduler.ContextList.ExitCurrent` | kernel/src/syscall/process.rs:75-95 | does exactly the exit step and, if there is a caller, the return step, keeps the invariant, and then the caller runs on this CPU, about to take the result |
| `Scheduler.ContextList.SysReturn` | kernel/src/syscall/call.rs:57-73 | after it the context is exited with exactly the given value stored, and its caller, if any, runs on this CPU about to take it |
| `Scheduler.ContextList.TakeReturned` | kernel/src/context/call.rs:240-249 | a resumed caller takes exactly the value stored by its callee, and finds none exactly if there is none |
| `RingMask.MaskIsRemainder` | ringbuf/src/lib.rs:216-217 | masking with capacity - 1 is the remainder, for every power of two |
| `RingMask.PrevPowerBelow32` | ringbuf/src/lib.rs:43-50 | for sizes under 2^32 the greatest power of two not above the size |
| `RingMask.PrevPowerExact` | ringbuf/src/lib.rs:43-50 | over all 64-bit words: right exactly when the word is not zero and no 32 zero bits in a row lie below its top bit |
| `RingMask.PrevPowerCanFail` | ringbuf/src/lib.rs:43-50 | wrong for 2^32 |
| `Ring.KeepInv` | ringbuf/src/lib.rs:163-319 | every load and store of either side keeps the ring invariant |
| `Ring.HandleMissesUnread` | ringbuf/src/lib.rs:207-220 | no byte of an open write handle lies in a cell that is still unread |
| `Ring.TraceInv` | ringbuf/src/lib.rs:163-319 | the invariant holds in every state of every interleaving |
| `Ring.IndicesInOrder` | ringbuf/src/lib.rs:163-288 | shadow_head <= head <= shadow_tail <= tail < shadow_head + capacity, always |
| `Ring.CommittedOnlyGrows` | ringbuf/src/lib.rs:222-229 | committed and consumed bytes are never taken back |
| `Ring.ConsumedIsPrefix` | ringbuf/src/lib.rs:242-319 | the bytes read or skipped are at every moment a prefix of the bytes committed, in order |
| `Ring.ReaderSees` | ringbuf/src/lib.rs:304-312 | what a read handle shows is what was committed at those positions |
| `Ring.ReaderUndisturbed` | ringbuf/src/lib.rs:276-319 | an open read handle shows the same bytes whatever the producer does |
| `Ring.SliceOfHandle` | ringbuf/src/lib.rs:304-312 | a handle that fits is one slice of the buffer holding the cells in order |
| `Ring.LastLoad` | ringbuf/src/lib.rs:166-171 | the last check of a bounded write follows a load of the head made during the same call |
| `Ring.RefusedOnlyWhenFull` | ringbuf/src/lib.rs:163-172 | a write is refused only if at a moment of the same call the ring had no room for it |
| `Ring.RefusesAfterOneLoad` | ringbuf/src/lib.rs:163-191 | `try_write` gives up after exactly one load of the head, and `write` never does |
| `Ring.GivesUpExactly` | ringbuf/src/lib.rs:242-257 | `try_read` with `times` gives up exactly at load `times` + 1 of the tail, and `read` never does |
| `Ring.SkipsExactly` | ringbuf/src/lib.rs:259-274 | `skip_n` drops the smaller of `n` and what was there when it looked |
| `Ring.TooLongNeverEnds` | ringbuf/src/lib.rs:180-184 | a blocking write of the capacity or more stays in its loop in every continuation of the run |
| `Ring.OpensOnceDrained` | ringbuf/src/lib.rs:163-191 | a shorter write opens at the latest after one more load once the ring is drained |
| `LittleEndian.FromLeLe` | ivshrpcd/ivshrpc/src/lib.rs:34-35 | a number that fits its width comes back from its bytes |
| `LittleEndian.LeFromLe` | ivshrpcd/ivshrpc/src/lib.rs:34-35 | every byte string is the encoding of its own value |
| `LittleEndian.LeAt` | ivshrpcd/ivshrpc/src/lib.rs:29-45 | byte `k` of a number is its digit of weight 256 to the `k`, least significant first |
| `Channel.TypeBytes` | ivshrpcd/ivshrpc/src/lib.rs:48-66 | exactly the bytes 0 to 3 are recognised, as cast, fuse, return and error |
| `Channel.HeaderBytes` | ivshrpcd/ivshrpc/src/lib.rs:14-45 | the type is byte 0, the length bytes 1 to 4 and the call id bytes 5 to 12, each least significant byte first |
| `Channel.HeaderRoundTrip` | ivshrpcd/ivshrpc/src/lib.rs:30-45 | a header comes back from its thirteen bytes |
| `Channel.HeaderOnto` | ivshrpcd/ivshrpc/src/lib.rs:30-45 | and every thirteen bytes are some header's |
| `Channel.KeepInv` | kernel/src/devices/ivshmem.rs:66-130 | every step of sender and receiver keeps the stream invariant |
| `Channel.SeenOfMessage` | kernel/src/devices/ivshmem.rs:112-130 | a read handle of the receive loop shows exactly the header, or exactly the payload, of the message it is at |
| `Channel.TraceInv` | kernel/src/devices/ivshmem.rs:66-130 | the stream invariant holds in every state of every interleaving |
| `Channel.ReceivedIsPrefix` | kernel/src/devices/ivshmem.rs:111-130 | the messages received are at every moment a prefix of those passed to `write_msg`: none torn, lost or repeated |
| `Channel.DrainedMeansReceived` | kernel/src/devices/ivshmem.rs:111-130 | with the ring drained between messages, everything sent has been received |
| `Channel.ReadHandlesFit` | ringbuf/src/lib.rs:304-312 | no read handle crosses the end of the buffer, because no write handle did |
| `Channel.WriteGoesOnIff` | kernel/src/devices/ivshmem.rs:69-71 | an opened write can be filled and posted exactly when its bytes do not cross the end of the buffer |
| `Channel.CrossingHappens` | kernel/src/devices/ivshmem.rs:69-71 | a run of two messages without payload over a ring of 16 bytes that ends with the second sender stuck |
| `RpcWait.KeepInv` | kernel/src/devices/ivshmem.rs:131-210 | every step of callers, host and handler on the calls keeps the invariant |
| `RpcWait.TraceInv` | kernel/src/devices/ivshmem.rs:131-210 | in every interleaving the handler never meets an unknown call id and no caller finds its result missing |
| `RpcWait.CallNumber` | kernel/src/devices/ivshmem.rs:167-173 | calls and casts share one sequence of numbers: the id of a call counts all calls and casts numbered before it |
| `RpcWait.BlockedIsAwaited` | kernel/src/devices/ivshmem.rs:180-200 | a blocked caller's call is still queued, or in the handler's hands between taking it from the queue and waking it; its answer is still to come from exactly one place |
| `RpcWait.NoLostWakeUp` | kernel/src/devices/ivshmem.rs:101-142 | if the host stores the tail before it sends the interrupt, then once host and handler have settled nobody waits for an answer and nobody is blocked |
| `RpcWait.WaitsForUnread` | kernel/src/devices/ivshmem.rs:172-200 | under either order, once host and handler have settled somebody waits for an answer exactly if answers lie unread in the ring |
| `RpcWait.KeepAnnounced` | kernel/src/arch/x86_64/interrupt/irq.rs:99-103 | with the interrupt masked while the handler runs, one sent meanwhile stays pending: under the order store, then interrupt, an answer not yet taken is announced or being looked for, on any number of CPUs; under either order a half written answer is still owed |
| `RpcWait.StrandedExactly` | kernel/src/devices/ivshmem.rs:66-75 | under the order of `write_msg`, interrupt before tail store, somebody is left waiting when all has settled exactly if the handler's last look fell between an answer's interrupt and its store and no handler has run since |
| `RpcWait.UnreadSince` | kernel/src/devices/ivshmem.rs:110-127 | an answer that is neither announced nor being looked for was stored after the handler's last look |
| `RpcWait.LateStaysUnread` | kernel/src/devices/ivshmem.rs:110-127 | and an answer stored so late stays unread until a handler is entered again |
| `RpcWait.StrandingHappens` | ivshrpcd/src/bin/main.rs:86-100 | a run of that order, that of the host's `write_msg`, which ends settled with a caller blocked and its answer unread |
| `RpcWait.DeliveryRunsDown` | kernel/src/devices/ivshmem.rs:101-142 | under either order every step of answering, signalling or handling strictly lowers what is still to be done, which is never negative |
| `RpcWait.DeliveryGoesOn` | kernel/src/devices/ivshmem.rs:101-142 | until all has settled one of these steps is possible |
| `RpcWait.LeavesWithOwnAnswer` | kernel/src/devices/ivshmem.rs:190-209 | leaving the wait loop, a caller takes the payload given for its own call id |
| `RpcWait.GivenByReply` | kernel/src/devices/ivshmem.rs:132-141 | that payload is the one the host's reply to the call carried |
| `Sos.EncodedExactly` | sos-rs/src/lib.rs:409-415 | an encoding is exactly encoded_len bytes long, at any nesting depth |
| `Sos.NumberBytes` | sos-rs/src/lib.rs:431-463 | the bytes of each kind of number: its tag, 1 to 6, then four or eight bytes, least significant first, negative ones in two's complement |
| `Sos.TextBytes` | sos-rs/src/lib.rs:440-495 | the bytes of texts, opaque bytes, functions and nested lists: tag 7 to 11, the length in four bytes, and the body with its NULs |
| `Sos.EncodingBytes` | sos-rs/src/lib.rs:431-438 | an encoding is the number of values, its own length, and the values |
| `Sos.OneLetter` | sos-rs/src/lib.rs:431-467 | the fifteen bytes of a list of one string of one letter |
| `Sos.BodySize` | sos-rs/src/lib.rs:281-294 | the same for one value |
| `Sos.ComputeLen` | sos-rs/src/lib.rs:409-415 | the accumulating loop computes that length |
| `Sos.ComputeSize` | sos-rs/src/lib.rs:281-294 | and the same for one value |
| `Sos.ScalarRoundTrip` | sos-rs/src/lib.rs:561-566 | fixed-width values come back, signed ones included |
| `Sos.FunctionRoundTrip` | sos-rs/src/lib.rs:574-580 | a function comes back exactly when its module name holds no NUL |
| `Sos.ValueRoundTrip` | sos-rs/src/lib.rs:559-589 | a value comes back exactly when it is representable |
| `Sos.DecodeOfEncode` | sos-rs/src/lib.rs:522-536 | what the outer decoder makes of an encoding followed by any bytes |
| `Sos.ParseEncoded` | sos-rs/src/lib.rs:541-592 | one step of the iterator cuts exactly one encoded value off the front |
| `Sos.ListRoundTrip` | sos-rs/src/lib.rs:538-594 | collecting an encoded list gives it back exactly when all its values are representable |
| `Sos.RoundTrip` | sos-rs/src/lib.rs:432-594 | encoding and eager decoding, at any depth and with any bytes following, gives the values back exactly when nested lists are non-empty, module names NUL-free, and the message is not a bare empty list |
| `Sos.EncodeInjective` | sos-rs/src/lib.rs:432-495 | different representable lists never share an encoding |
| `Sos.TrailingIgnored` | sos-rs/src/lib.rs:522-536 | on any bytes, what follows the announced size does not matter |
| `Sos.CollectBounded` | sos-rs/src/lib.rs:541-593 | on any bytes, no more values come out than announced or than there is room for |
| `Sos.FirstNul` | sos-rs/src/lib.rs:576 | the position of the first NUL, if any |
| `Sos.DecodeSos` | sos-rs/src/lib.rs:522-536 | what is left to decode is at least eight bytes shorter than the message |
| `Sos.Parse` | sos-rs/src/lib.rs:541-593 | each step consumes at least five bytes and one of the count, and a nested list is strictly shorter: decoding ends on any bytes |
| `Sos.ParsedBytes` | sos-rs/src/lib.rs:541-566 | tag 0 and tags above 11 end the iteration, and tags 1 to 6 read four or eight bytes as that number |
| `Sos.ParsedLength` | sos-rs/src/lib.rs:541-593 | tags 7 to 11 take as many bytes as their length field says, or end the iteration |
| `Sos.TakenBytes` | sos-rs/src/lib.rs:566-590 | of those bytes, texts drop the last one and must be UTF-8, opaque values take all, and a nested list must have its own valid header |
| `Sos.TakenFunction` | sos-rs/src/lib.rs:573-581 | a function is split at the first NUL into module and name |
| `Sos.TextIsUtf8` | sos-rs/src/lib.rs:566-578 | the byte strings accepted as text are exactly the UTF-8 encodings of sequences of scalar values |
| `SosCodec.WriteBody` | sos-rs/src/lib.rs:456-491 | fills exactly the body of one value in the buffer |
| `SosCodec.WriteValue` | sos-rs/src/lib.rs:440-492 | fills exactly one tagged value |
| `SosCodec.EncodeSos` | sos-rs/src/lib.rs:432-495 | fills exactly encoded_len bytes of the buffer with the encoding and changes nothing else in it |
| `SosCodec.DecodeIter.Next` | sos-rs/src/lib.rs:541-593 | advances like one parsing step, eager or lazy; a failed call leaves the iterator where it is |
| `SosCodec.DecodeIter.CollectAll` | sos-rs/src/lib.rs:586 | draining the iterator gives the decoded list |
| `Sos.LazyAgrees` | sos-rs/src/lib.rs:581-588 | on any bytes, walking lazily and then forcing every nested iterator gives what the eager decoder gives |
| `MemOps.Memmove` | kernel/src/externs.rs:39-76 | what the two passes leave in memory, byte by byte, for every overlap |
| `MemOps.StepUp` | kernel/src/externs.rs:45-56 | copying downwards through the indices never reads a byte it has already overwritten |
| `MemOps.StepDown` | kernel/src/externs.rs:58-72 | nor does copying upwards towards lower addresses |
| `MemOps.TwoPasses` | kernel/src/externs.rs:41-56 | but the bytes copied after the words may read what the words wrote: the exact outcome of both passes |
| `MemOps.CopiesWhenSafe` | kernel/src/externs.rs:32-76 | equal to copying through a temporary when dest <= src, dest >= src + n, n < 8 or n is a multiple of 8 |
| `MemOps.GoesWrong` | kernel/src/externs.rs:39-57 | for every other overlap, a memory that comes out wrong |
| `MemOps.MemmoveExact` | kernel/src/externs.rs:32-76 | right for all memories exactly for those overlaps |
| `MemOps.WordsEqual` | kernel/src/externs.rs:121-123 | two words are equal exactly when their bytes are |
| `MemOps.Memcmp` | kernel/src/externs.rs:115-148 | zero exactly for equal blocks, otherwise the first differing byte of the first block less that of the second |
| `MemOps.CompareIsOrder` | kernel/src/externs.rs:115-148 | the sign of the answer is the lexicographic order of the two blocks |
| `MemOps.ScanBytes` | kernel/src/externs.rs:126-145 | the byte loops stop at the first difference |
| `MemOps.ComparesOnce` | kernel/src/externs.rs:108-148 | that answer is unique, and zero exactly for equal blocks |
| `Physmap.Space.Physmap` | kernel/src/syscall/driver.rs:47-103 | takes the first gap with room to spare, else the end of the list; the page tables gain exactly the run of pages; a page already mapped is met only past the grant area; says exactly why it fails |
| `Physmap.MapsExactlyWhatWasAsked` | kernel/src/syscall/driver.rs:59-92 | a call that returns added exactly the pages that hold a byte it was asked for, each with the frame of the physical byte, present, user accessible, not executable, and writable exactly on demand; an empty list puts it at the start of the grant area |
| `Physmap.Space.FindPlace` | kernel/src/syscall/driver.rs:62-92 | the scan stops at the first gap that is longer than the request |
| `Physmap.ExactGapPassedOver` | kernel/src/syscall/driver.rs:73-92 | a gap of exactly the requested size could take the grant, and is never chosen |
| `Physmap.ExactGap` | kernel/src/syscall/driver.rs:73-92 | for every size there is a list with such a gap, where the grant goes to the end instead |
| `Physmap.Space.MapRun` | kernel/src/context/memory.rs:27-55 | maps consecutive pages to consecutive frames; fails only for a page already mapped or a lack of frames |
| `Physmap.Space.UnmapRun` | kernel/src/context/memory.rs:113-131 | unmaps exactly those pages |
| `Physmap.Space.Physunmap` | kernel/src/syscall/driver.rs:105-129 | succeeds exactly for zero or an address inside a grant, and then removes that grant and exactly its pages |
| `Physmap.Space.VirtToPhys` | kernel/src/syscall/driver.rs:131-139 | translates any address by the page tables, offset included |
| `Physmap.WithinGrant` | kernel/src/arch/x86_64/paging/mapper.rs:273-277 | inside a grant, addresses translate byte for byte |
| `Physmap.Space.Run` | kernel/src/syscall/driver.rs:47-129 | any run of calls is a history in which every call did what its contract says, and it ends early only at a failing physmap, with its reason |
| `Physmap.HistoryGood` | kernel/src/syscall/driver.rs:47-129 | over any history grants stay sorted, page-aligned and disjoint, each backed by its physical memory, with nothing else mapped in the grant area |
| `Physmap.HistoryTranslates` | kernel/src/syscall/driver.rs:47-139 | over any history virttophys(physmap(p, size) + k) = p + k for all k < size, for everything handed out and not unmapped since |
| `Physmap.Undone` | kernel/src/syscall/driver.rs:47-129 | unmapping any address of what was just mapped puts grants and page tables back |
| `Physmap.GrantsApart` | kernel/src/syscall/driver.rs:73-92 | no page is in two grants |
| `Physmap.GrantAdded` | kernel/src/context/memory.rs:27-55 | mapping a new grant keeps all others backed by their physical memory, and only grants in the grant area |
| `Physmap.GrantDropped` | kernel/src/context/memory.rs:113-131 | unmapping one grant likewise |

## Left out

- Assembly, register save and restore, the TSS, cr3, TLB flushing and `MapperFlush`: a switch is its change of status, current id and ownership.
- Memory orderings and lock contention: memory is sequentially consistent and locked sections are atomic steps.
- Overflow of addresses, ring counters and call ids: addresses and counters are unbounded numbers, except in `PageEntry`, `RecursiveSlot` and `RingMask`, which work on 64-bit words.
- Sleeping, futexes and wait queues: `wake` is unset, so only the handler and `fuse_return` wake a context.
- Fairness.ServedWithinOneTurn: a stretch of a run without new contexts and without fused calls or returns on the CPU; `Fairness.ServedDespiteCalls` admits the calls and returns.
- Fairness.ServedDespiteCalls: a stretch of a run without new contexts, because ids can be added in front of a waiting context for ever.
- ContextRuns.ExitingIsRunning: that interrupts stay off between the gate and `fuse_return` is the hypothesis `Gated`; the interrupt flag itself is not modelled.
- RpcWait.NoLostWakeUp: states the order store, then interrupt, which neither `write_msg` has; what holds under theirs is `RpcWait.StrandedExactly`. How the host notices requests, sent in the same order, is not modelled.
- The host daemon and `fuse_proxy`: the host is a peer that answers each fuse once, in any order, and no cast.
- Sending inside the call machine: `RpcWait` takes the delivery of messages, proved in `Channel`, as one step each way.
- Re-encoding a lazy iterator (`DecodeIter::encode`, `EmbeddedOut`): its size field is zero and its lengths disagree, so it is outside the round trip.
- `memcpy`, `memset`, `physalloc`, `physfree`, `identity_map`, `map`, the ring's size queries: they would only add easy members.
- Slab and heap allocators, ACPI, ELF loading, `spawn`, `ContextMemory`, PCI, devices, graphics, boot, libc and symbind.
- FreeList.Merge: takes and returns the list as a value, because both allocators use it; their classes reassign their `free` field with the result.
- VirtualPages.Valloc.constructor: the start is page aligned and the size at least one page; a smaller size would list an empty block.
- VirtualPages.Valloc.DeallocatePages: frees of live pages, at least one; the code checks neither, and a free of no pages can list an empty block.
- RecycledFrames.RecycleAllocator.DeallocateFrames: frees of live frames, at least one; the code checks neither, and a free of no frames can list an empty block.
- BumpFrames.BumpAllocator.constructor: the kernel range starts at frame 0, as the boot code passes it, and free areas do not overlap.
- Mapping.Mapper: the frame allocator is the set of frames it can still hand out; that it never hands out a live frame is proved in `Recycle`.
- Mapping.Mapper.ShareEntry: the tables shared with another address space are taken as they are at that moment; later changes made through one of the two are not seen by the other.
- Mapping.Mapper.UnmapReturn: an underflow is a panic; what a build without overflow checks stores instead is not followed.
- Ring: a handle that is dropped without having been filled commits what the buffer holds; slicing a handle that crosses the end of the buffer panics and is not a step.
- Channel: payloads are shorter than 2^32, the width of the length field.
- Sos.RoundTrip: the whole message is shorter than 2^32, the width of the size field.
- Physmap.Space.Physmap: does not follow a mapping past the last canonical user address; a lack of frames and a page already mapped are panics.
