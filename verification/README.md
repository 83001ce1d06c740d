# A model of the kernel's memory, processes and files

This project models three parts of a small teaching kernel and proves what they promise over
whole runs.

- **Copy-on-write paging** (mem/paging.c, mem/alloc.c). `Cow` is a machine over address spaces,
  `CowRefinement` proves that nobody can tell it from one whose `fork` copies every page.
  `FrameCopyMap`, `PhysicalPages`, `PageFrames` and `Paging` are the code over its arrays: the
  copy counts, the page bitmap, the page-table frames, the nested loops of fork and cleanup. Each
  operation of `Paging.PagingUnit` is proved to be one step of the machine on the address spaces
  the 32-bit words of the pool stand for (`PteBits` for the bits of a word; `PageTables`,
  `ForkTables`, `DropTables`). `CowLimits` shows where sharing stops being invisible.
- **Processes** (proc/proc.c, proc/schedule.c, sys/timer.c, io/tty.c). `Lifecycle` is the protocol
  as a step relation: every gate is an interrupt gate, so a system call is one step up to its
  yield. `ProcessTable` is the code over the process table. `LifecycleSafety`, `ExitAndWait` and
  `Fairness` hold the results over runs, `ExitExamples` two runs that end badly. `StepEffects` says
  of every field of every slot what each step makes of it, and from that how soon dead slots are
  reaped, that children keep their terminal, and that readers are woken. `Kernel` puts processes and
  memory together and accounts for every page-table frame, `DeadDirectories` follows the directory
  of a dead process until it is free. `ForkFrame` and `ExecArgs` are the two constructions at the
  byte and word level: the kernel stacks an interrupt saves to and a forked child returns through,
  and the arguments of a new program. `ChildPcb` ties the child's PCB words to the process table.
- **The file system** (fs/fs.c). `FileBlocks` says what the sectors of an inode mean and what a
  write does to them, `Ownership` who owns which sector, `Growth` which sectors a file gets and when
  there are enough, `Volume` and `Formatting` what is on the disk, `FileNames` and `Directory` how
  names lead to inodes, `FileWrites` and `FileCreation` what the two changing operations do to
  everything else. `DiskBlocks`, `SectorMap`, `FileSystem` and `OpenFiles` are the code over disk,
  tables and descriptors; `DescriptorCounts` follows `rwcount` over all processes, and `FileRuns`
  says what any sequence of open, close, write, read, fork and exit by any processes keeps.
  `FileEffects` and `WriteEffects` say flag by flag and number by number what each of these steps
  does, `DiskFormat` what lies where on the disk, sector by sector. `FileExamples` are inputs on
  which order is lost.

The lemmas of `StepEffects`, `FileEffects`, `WriteEffects` and `DiskFormat` say what a step does
field by field and in the source's own numbers, so they are a second definition with which the
relation of the step has to agree.

Loops over arrays keep a ghost trace of what they have done, and the meaning of the trace is
proved by induction on values, apart from the heap.

Where the code does not do what it seems meant to do, the model follows the code, proves exactly
when it does, and shows an input on which it does not:

- the tail of a write that spans blocks: `FileBlocks.WriteExactly`, `FileBlocks.TwoBlocksGoWrong`;
- a write that finds too few free sectors, which gets sectors past the end of the disk and then the
  sector -1: `FileWrites.OrderedExactlyIfCovered`, `FileExamples.DiskTooSmall`; on a disk with 1829
  data sectors or more there is none (`Growth.RoomyCovers`, `FileRuns.LargeDiskKeepsOrder`);
- names with a dot at the end, or longer than an entry has room for: `FileCreation.CreateFoundExactly`,
  `FileCreation.CreateSafeExactly`, `FileExamples.DotNameIsLost`;
- `rwcount` and `fork`: `DescriptorCounts.ForkKeepsCountedExactly`, `DescriptorCounts.ForkThenExitFrees`,
  `DescriptorCounts.ForkMiscounts`;
- `dec` looking at 64 of 128 slots: `FrameCopyMap.DecAgreesExactlyWithinReach`,
  `CowLimits.FaultKeepsWritableExactly`, `FrameCopyMap.LaterPagesAreMissed`;
- kernel writes to shared pages: `CowRefinement.KernelWritePrivateIffUnshared`,
  `CowLimits.KernelWriteShows`;
- orphans handed to a waiting process 0: `ExitAndWait.ZeroMissesExactlyOrphans`,
  `ExitExamples.ZeroCanMissAChild`;
- `wait` and slots no longer in use: `ExitAndWait.MinusOneExactly`, `ExitExamples.StaleSlotBlocks`;
- the index of `sys_free_phy_page`: `PhysicalPages.FreeIndexAsWrittenMisses`, for every page.

What the model takes for granted, as `requires` or in the step relations:

- Loops that never end when something runs out (mem/paging.c:20, 72, mem/alloc.c:19, fs/fs.c:220,
  224, proc/proc.c:110, 121, 127) are requirements that it has not.
- At most 64 pages are tracked at once; the cursor of the page allocator is in front of a free page.
- `sys_free_phy_page` clears the page's own bit. As written it clears a bit past the end of the
  bitmap, in other memory of the kernel. All results about memory, and about processes and memory
  together, are for the corrected index and for no other.
- The processor honours the write bit in user mode and the TLB is transparent. CR0.WP is off, so
  kernel writes do not fault; the runs contain none.
- Process 0 never exits, process 1 only drives the terminals, unused PCBs start with father 0.
- What a new page holds on first touch is an arbitrary value, the same in both machines.
- A disk has fewer than 2^28 sectors, the most its 28-bit addresses reach. A sector past its end
  reads as anything and stores nothing.
- Positions and sizes of a write add up to less than 2^32.
- A create that gives a second entry the same name, or a write that runs out of sectors, is followed
  to its end and no further: a run may go on from there, but nothing is proved about it.
- The saved privilege of a process agrees with the code selector of its frame.

## Model

| member | source | states |
|---|---|---|
| `CowRefinement.CopyOnWriteRefinesEagerCopy` | mem/paging.c:79-143 | In every run of fork, first touch, load, store, write fault, exec or exit cleanup and reaping, what each process sees of memory goes through exactly the steps of a machine whose fork copies every page, each load reading the same byte; the counting and ownership invariants hold in every state |
| `CowRefinement.StepRefines` | mem/paging.c:79-152 | One step of the sharing machine is one step of the eager-copy machine on the views of all processes |
| `CowRefinement.EagerRunUnique` | mem/paging.c:79-143 | The eager-copy machine has one run per sequence of steps, so which physical pages are handed out never shows |
| `CowRefinement.NextKeepsInv` | mem/paging.c:65-152 | Every step keeps the sharing invariant (counts, one place per page, writable iff untracked) and the ownership invariant (each page-table frame in use has exactly one role) |
| `CowRefinement.CountsAreMappings` | mem/paging.c:10-29 | In every reachable state a tracked page's count is the number of processes mapping it, an untracked page has at most one mapping, a mapping is writable iff its page is untracked, and no process maps a page twice |
| `CowRefinement.ReleasedExactlyAtLastUse` | mem/paging.c:128-143 | Cleanup releases a page iff the process that drops it is the only one mapping it |
| `CowRefinement.DropLeavesOthersAlone` | mem/paging.c:128-143 | Cleanup leaves every other process's mappings and contents alone and releases none of its pages |
| `CowRefinement.WriteFaultUnblocksStore` | mem/paging.c:94-104 | After a write fault the entry is writable and nobody's view has changed; the page stays the same iff no other process mapped it |
| `CowRefinement.KernelWritePrivateIffUnshared` | boot/src/loader.asm:117-120 | A write that ignores the write bit stays private to the process iff the page is untracked or counts one mapping |
| `CowLimits.KernelWriteShows` | boot/src/loader.asm:117-120 | A concrete run, set-up, first touch and fork, after which a byte the kernel writes for the parent is the byte the child reads |
| `CowLimits.FaultKeepsWritableExactly` | mem/paging.c:23-29 | With dec over 64 of the 128 slots, a write fault keeps tracked pages read-only iff the key of its page is in one of the first 64 slots |
| `CowLimits.StoreAfterFaultPrivateExactly` | mem/paging.c:94-104 | ... and the store that follows is private iff the key was there or no other process maps the page |
| `FrameCopyMap.CopyMap.Add` | mem/paging.c:10-21 | add over the 128 slots: the first slot with the key counts one more, or the first free slot gets it with 2, and so do the counts the table stands for; with at most 64 keys all stay in the first 64 slots |
| `FrameCopyMap.CopyMap.Dec` | mem/paging.c:23-29 | dec over the first 64 slots: result and new counts for a key it reaches, nothing for one it does not |
| `FrameCopyMap.DecAgreesExactlyWithinReach` | mem/paging.c:23-29 | dec answers and does what the counts ask iff the key is untracked or sits in one of the first 64 slots |
| `FrameCopyMap.PagesFill` | mem/paging.c:10-21 | Adding the first n pages of the user area to an empty table one after the other fills its slots in order, for n up to 128 |
| `FrameCopyMap.LaterPagesAreMissed` | mem/paging.c:11-29 | Once 65 or more have been added, each from the 65th on is counted twice in the table and missed by dec |
| `FrameCopyMap.FreeSlotWithinReach` | mem/paging.c:15-24 | With fewer than 64 keys one of the first 64 slots is free, so 64 tracked frames are always within the reach of dec |
| `PhysicalPages.PageAllocator.Alloc` | mem/alloc.c:12-20 | The lowest free page at or after the cursor is marked and returned; the cursor never goes back |
| `PhysicalPages.PageAllocator.Free` | mem/alloc.c:22-24 | With the index that undoes the allocation in place of the one the line computes: exactly the page's own bit is cleared |
| `PhysicalPages.FreeIndexAsWrittenMisses` | mem/alloc.c:23-23 | As the expression parses, the index lies past the bitmap for every page the allocator returns, so the page's bit is never cleared |
| `Bitmap.SetBit` | common/common.c:100-102 | set_bit changes the one bit and leaves every other bit of the bitmap |
| `Bitmap.GetBit` | common/common.c:96-98 | get_bit answers 1 iff the bit is set |
| `PageFrames.FramePool.Alloc` | mem/paging.c:65-73 | The lowest free frame of the pool is marked, cleared and returned; no other frame's entries change |
| `PageFrames.FramePool.Free` | mem/paging.c:75-77 | Exactly the bit of the frame at the given virtual address is cleared |
| `PageFrames.FrameIndexInverts` | mem/paging.c:38-43 | Converting a frame's address to physical and back leads to the same frame |
| `PageFrames.FramePool.Enter` | mem/paging.c:90-93 | Storing addr | 7 in a word of the pool makes it a present, writable entry for that address, and changes no other entry |
| `PageFrames.FramePool.Protect` | mem/paging.c:118-118 | Masking a word with 0xfffffffd takes the write bit of its entry and changes nothing else |
| `PageFrames.FramePool.Enable` | mem/paging.c:103-103 | Setting bit 1 of a word gives the write bit back and changes nothing else |
| `PteBits.FreshEntry` | mem/paging.c:90-93 | The word of an aligned address with its low three bits set decodes to a present, writable entry for that address |
| `PteBits.WriteProtected` | mem/paging.c:118-118 | Masking with 0xfffffffd takes the write bit and nothing else of an entry |
| `PteBits.WriteEnabled` | mem/paging.c:103-103 | Setting bit 1 gives the write bit back and changes nothing else |
| `PageTables.PteStored` | mem/paging.c:93-103 | A store to a table of one process shows in its address space at that page number and nowhere in any other space |
| `PageTables.TableAdded` | mem/paging.c:90-90 | Entering a cleared frame as a table changes no address space |
| `PageTables.CountsAfterAll` | mem/paging.c:117-120 | Counting a table's entries one at a time adds one to every page it maps |
| `ForkTables.DirCountsAll` | mem/paging.c:112-123 | The nested loops of the copy add one to the count of every page of the address space, each once |
| `ForkTables.TurnsReach` | mem/paging.c:112-123 | After any number of turns of the copy loop the child has a read-only copy of each table handled so far, the parent's are read-only, all other frames hold what they held, and as many frames are taken |
| `ForkTables.DuplicatedSpaces` | mem/paging.c:108-126 | When the copy is done parent and child map the same pages read-only, and every other address space is as before |
| `ForkTables.ForkComposed` | mem/paging.c:108-126 | The words and counts the copy leaves are those of the fork step, well formed and in frames of their own |
| `DropTables.DirLetGoAll` | mem/paging.c:130-141 | The nested loops of the cleanup let go of every page of the address space once, freeing those nothing else counts |
| `DropTables.DropDone` | mem/paging.c:128-143 | When the cleanup is done the space is empty, its tables are free, the others are untouched, and the pages freed are exactly the released ones |
| `Paging.PagingUnit.constructor` | mem/paging.c:45-63 | Over memory with any contents: after initialisation nothing is mapped or shared, and the only frames in use are the kernel's three, which hold the entries init_paging stores |
| `PageFrames.FramePool.InitPaging` | mem/paging.c:45-60 | The base directory and its two tables are taken, cleared and filled: 0xc0000000 maps the first megabyte of physical memory, 0xc0400000 the next two |
| `PageTables.KernelMapped` | mem/paging.c:54-60 | In every address space the walk of an address of the kernel's half ends at its physical address, below all user pages |
| `PageTables.FrameReachable` | mem/paging.c:38-43 | In every address space the walk of the virtual address of any frame of the pool ends at that frame |
| `Paging.PagesAndFrames` | mem/alloc.c:12-17 | The pages handed out are the aligned addresses from 0x300000 to 0x2000000; the frames of the pool end where they begin |
| `Paging.PagingUnit.PageFaultHandler` | mem/paging.c:79-106 | Over the arrays: an absent entry is the first-touch step, a write to a read-only entry the write-fault step, anything else changes nothing; every invariant is kept |
| `Paging.PagingUnit.CopyOrEnable` | mem/paging.c:94-104 | The write fault over the arrays: a copy of the page while others map it, the write bit back otherwise |
| `Paging.PagingUnit.CopyEntry` | mem/paging.c:113-121 | One turn of the copy: a new table for the entry, both tables read-only, one more mapping counted for each page |
| `Paging.PagingUnit.CopyPages` | mem/paging.c:108-126 | Over the arrays: copying the pages is the fork step of the machine, given frames for the tables and at most 64 tracked pages |
| `Paging.PagingUnit.CleanupMemory` | mem/paging.c:128-143 | Over the arrays: the cleanup is the drop step, freeing exactly the pages nothing else maps |
| `Paging.PagingUnit.CreateProcPageTable` | mem/paging.c:145-152 | Over the arrays: a new directory with the kernel's entries is the spawn step |
| `Paging.PagingUnit.FreeDirectory` | proc/schedule.c:15-15 | Over the arrays: freeing a dead process's directory is the reap step |
| `ProcessTable.Processes.Schedule` | proc/schedule.c:6-19 | The nearest ready slot after the current one, cyclically, runs; dead slots passed on the way become empty, no other slot changes |
| `ProcessTable.Processes.TimerHandler` | sys/timer.c:19-24 | Ticks advance and wrap; schedule is called iff the new count is a multiple of 4 or the current process is not ready |
| `ProcessTable.Processes.SysFork` | proc/proc.c:41-60 | The lowest empty slot becomes a copy of the current PCB with its own pid and the current process as father, or -1 and no change if there is none |
| `ProcessTable.Processes.SysExit` | proc/proc.c:67-84 | All slots naming the process get father 0, a waiting father becomes ready, the process hangs and the processor is given up |
| `ProcessTable.Processes.SysWait` | proc/proc.c:86-103 | One turn of the loop: the lowest hanging child becomes dead and its pid is returned, -1 if no slot names the process, otherwise it blocks and yields |
| `ProcessTable.Processes.SysStdRead` | io/tty.c:434-439 | The process waits for input and the processor is given up |
| `ProcessTable.Processes.WakeReaders` | io/tty.c:411-413 | Exactly the processes waiting for input of that terminal become ready |
| `ProcessTable.Processes.SetupKernelProcess` | proc/proc.c:24-39 | In the process table the slot becomes a ready process with father 0, no other slot changes |
| `ProcessTable.Boot` | sys/kernel.c:43-56 | Setting up the table and calling schedule once reaches the state every run starts from, with process 0 running |
| `StepEffects.CurrentAfter` | proc/schedule.c:6-19 | schedule is called by every exit, read and blocking wait and by every fourth tick; the process that runs then is the first ready slot after the one that ran, cyclically; without a call it is the same one, and the ticks wrap at 2^32 |
| `StepEffects.StatAfter` | proc/proc.c:41-103 | The state of every slot after every step: ready by its fork, by an exit of a child it waits for or by Enter on its terminal, hanging, dead and waiting by its calls, empty iff it was dead and the scan passes it, and otherwise what it was |
| `StepEffects.IdentityAfter` | proc/proc.c:45-49 | The pid and terminal of every slot after every step: a fork gives the child its own number and the terminal of its parent, only moving to a terminal changes it later |
| `StepEffects.FatherBecomes` | proc/proc.c:49-70 | The father of every slot after every step: the process that forks, or 0 once that exits |
| `StepEffects.PlaceAfter` | proc/proc.c:41-103 | Where every process goes on after every step |
| `StepEffects.ForkAnswers` | proc/proc.c:42-44 | fork answers the lowest empty slot, and -1 iff there is none |
| `StepEffects.WaitAnswers` | proc/proc.c:86-103 | wait answers the pid of the lowest child that hangs, -1 if no other slot names the process, and blocks if some do and none hangs |
| `StepEffects.EmptyWithin32Calls` | proc/schedule.c:14-16 | Over runs: a dead slot is empty within 32 calls of schedule |
| `StepEffects.EmptyWithin128Ticks` | sys/timer.c:19-24 | ... and so within 128 timer interrupts, across the wrap of the counter too |
| `StepEffects.TerminalInherited` | proc/proc.c:45-45 | Over runs: a process that has not moved to another terminal has the one its parent had at the fork |
| `StepEffects.WakeReaches` | io/tty.c:411-413 | Enter makes a process that waits for input ready iff it is on that terminal, and changes no other slot |
| `StepEffects.ReaderWaits` | io/tty.c:411-439 | Over runs: a process that waits for input waits as long as Enter is not hit on its terminal |
| `StepEffects.ReaderWakes` | io/tty.c:411-413 | ... and is ready after the first time it is |
| `LifecycleSafety.RunKeepsInv` | proc/proc.c:41-103 | In every reachable state: each state fits the place the process stopped at, every slot's father is alive, no waiting father but 0 has a hanging child, a woken father has one |
| `ExitAndWait.NoLostWakeUp` | proc/proc.c:66-103 | In every state of every run, a waiting process other than 0 has no child that hangs |
| `ExitAndWait.WokenWaitReports` | proc/proc.c:78-101 | A wait that goes on after its yield reports a child in its next scan |
| `ExitAndWait.ZeroMissesExactlyOrphans` | proc/proc.c:68-84 | An exit leaves process 0 waiting for a child that hangs iff 0 waits, is not the father, and the exiting process has a hanging child |
| `ExitAndWait.MinusOneExactly` | proc/proc.c:89-99 | wait returns -1 iff the process has no child and no unused slot names it; with only such slots left it blocks |
| `ExitAndWait.ChildlessWaitNeverReturns` | proc/proc.c:86-103 | A process other than 0 that waits without a child waits in every later state of the run |
| `ExitExamples.ZeroCanMissAChild` | proc/proc.c:68-84 | A concrete run, from the start, whose last step is an exit that leaves process 0 waiting for a child that hangs |
| `ExitExamples.StaleSlotBlocks` | proc/proc.c:89-101 | A concrete run, from the start, in which a process whose only child has been reported waits again, and blocks |
| `ExitAndWait.StatsFollow` | proc/proc.c:41-103 | The only state changes there are, and the step each takes: in particular hanging to dead only when the current father is told, dead to empty only by a scan, empty to ready only by a fork |
| `ExitAndWait.ExitsPairWithReports` | proc/proc.c:62-103 | Over any run a slot's exits equal its reports plus one if it hangs now, so each exit is reported at most once |
| `ExitAndWait.ExitedRunsOnlyAfterFork` | proc/schedule.c:9-16 | Between an exit and the next time the slot lives there is a fork that reuses it |
| `ExitAndWait.FathersLive` | proc/proc.c:43-70 | In every reachable state the father named by any slot, and the process that runs, have not exited |
| `ExitAndWait.ReusedSlotHasNoChildren` | proc/proc.c:43-50 | When a fork reuses a slot no other slot names it as father, before or after |
| `Fairness.PickedWithin32Calls` | proc/schedule.c:6-19 | In any stretch of a run in which a process stays ready and schedule is called 32 times, it is picked |
| `Fairness.PickedWithin128Ticks` | sys/timer.c:19-24 | ... and so it is in any stretch with 128 timer interrupts, across the wrap of the counter too |
| `Fairness.CallsBounded` | proc/schedule.c:6-19 | The cyclic distance to the process pays for every call of schedule that picks another one |
| `Kernel.FramesConserved` | mem/paging.c:65-77 | At every point of every run of processes and memory together a frame is in use iff it is one of the kernel's three or serves a slot in use |
| `Kernel.FramesApart` | mem/paging.c:65-77 | No two processes share a page-table frame and none uses the kernel's |
| `Kernel.CycleLosesNoFrame` | proc/schedule.c:14-16 | A slot that is forked, exits, is waited for and reaped gives every frame back: with the other processes' frames the same, the pool is the same |
| `DeadDirectories.DirectoryFreed` | proc/schedule.c:14-16 | In every run of processes and memory: within 32 calls of schedule or 128 timer interrupts a dead slot is empty and the frame that was its directory free |
| `DeadDirectories.HoldsOrFreed` | proc/schedule.c:14-16 | Each step leaves a dead slot its directory, or empties the slot and frees the frame |
| `Kernel.Cr3NeverFreed` | proc/schedule.c:10-16 | The directory in CR3 is in use before and after every step, and so is the one a step loads |
| `Kernel.KernelRefinesEagerCopy` | proc/proc.c:41-84 | In every run of the whole kernel each step changes what the processes see as if fork copied every page; reaping only removes |
| `Kernel.ForkSees` | proc/proc.c:41-50 | After a fork the child sees every page its parent sees, with the same contents, and nobody sees a change |
| `Kernel.ExitSees` | proc/proc.c:66-84 | After an exit the process sees nothing, and no other process a change; only dead ones may be gone |
| `Kernel.RunKeepsInv` | proc/schedule.c:6-19 | In every reachable state exactly the slots in use have directories, except the driver's, and exited processes have no tables |
| `ForkFrame.KernelStacks.Fork` | proc/proc.c:45-57 | The child's stack is the parent's with its PCB fields, the fabricated frame below the copy of the parent's, and in kernel mode a shifted ebp; no other stack changes |
| `ForkFrame.FrameLayout` | sys/int.h:19-25 | The words of a saved frame from which each register is restored, in the order of interrupt_stack_frame |
| `ChildPcb.ChildWords` | proc/proc.c:45-57 | Word by word: the child's PCB is its parent's but for pid, father, directory and stack top; no other kernel stack changes |
| `ChildPcb.TableHeld` | proc/proc.c:45-49 | PCB words that say what the process table says still do after a fork: pid, father, state and terminal of every slot |
| `ForkFrame.KernelStacks.Resume` | sys/int.asm:109-120 | The pops of resume restore every register from the frame at kstktop and move the stack pointer past it |
| `ForkFrame.KernelStacks.SyscallResume` | sys/syscall.asm:21-35 | The pops of syscall_resume restore every register but eax from the frame |
| `ForkFrame.ChildResumes` | proc/proc.c:53-56 | The child's first return lands in syscall_resume, in kernel mode, with eax 0 and the stack pointer at its copy of the parent's frame |
| `ForkFrame.ChildReturnsLikeParent` | proc/proc.c:52-57 | The registers restored for child and parent are equal but for eax, and in kernel mode ebp and esp, which differ by the distance of the stacks |
| `ForkFrame.ChildReturns` | proc/proc.c:41-60 | fork, resume and syscall_resume on the machine: the child ends with the parent's registers and eax 0, having consumed the two adjacent frames |
| `ForkFrame.KernelStacks.Interrupt` | sys/int.asm:90-106 | Gate, stub and common_handler leave a frame on the process's own stack from which resume restores what was interrupted, kstktop pointing at it; no other stack changes |
| `ForkFrame.InterruptReturns` | sys/int.asm:90-120 | An interrupt that returns to the process it interrupted restores every register, whatever the handler leaves in them, from user and from kernel mode |
| `ExecArgs.PackArgs` | proc/proc.c:112-128 | The packing leaves every string where its pointer says and the table of pointers aligned below them |
| `ExecArgs.ArgvRoundTrip` | proc/proc.c:119-144 | For any up to 16 strings that fit, following the i-th pointer at esp in the block that ends at 0xb0000000 yields the i-th argument, and esp is 4-aligned |
| `ExecArgs.NothingOverlaps` | proc/proc.c:119-128 | No string overlaps another or the table, and all lie in the block |
| `CStrings.Strlen` | sys/user/utils.c:43-49 | The length of the string a buffer holds |
| `CStrings.Strcpy` | sys/user/utils.c:37-41 | The string and its terminator are stored, and no other byte changes |
| `CStrings.Strcat` | sys/user/utils.c:51-58 | The second string and its terminator are stored at the end of the first |
| `CStrings.TextAppended` | sys/user/utils.c:51-58 | ... so the buffer then holds the two strings joined |
| `CStrings.Strcmp` | sys/user/utils.c:29-35 | The answer is 0 iff the strings are equal |
| `Volume.LayoutOrdered` | fs/fs.c:88-93 | For every sector count the regions follow one another without overlap, the table has room for 64 inodes and the map a bit for every sector |
| `Formatting.FormatStarts` | fs/fs.c:77-121 | A formatted disk loads as a file system with every invariant and no file |
| `DiskFormat.FormatLeaves` | fs/fs.c:77-121 | A format keeps sectors 1 to 31, the inode table after its first sector, and the data from the third sector on |
| `DiskFormat.FormatSuper` | fs/fs.c:79-97 | The superblock word by word: magic number, name, 64 inodes, size of the disk, and where the regions begin, the sector map at 32 |
| `DiskFormat.FormatMaps` | fs/fs.c:99-117 | The sector map begins with byte 3 at sector 32 and the inode map with 1, and all their other bytes are 0 |
| `DiskFormat.FormatRoot` | fs/fs.c:102-120 | Inode 0 is a directory of 1024 bytes in data sectors 0 and 1, which are filled with 0xff |
| `DiskFormat.InodePlace` | fs/fs.c:149-154 | On a synced disk inode i is the 32 words at 128 * (i % 4) of sector i / 4 of the table, and the inode map the first 8 bytes of its sector |
| `DiskFormat.EntryPlace` | fs/fs.h:35-39 | Entry n is 16 bytes at 16 * (n % 32) of directory sector n / 32: the inode, seven characters and three, each with its terminator |
| `Formatting.SuperRoundTrip` | fs/fs.c:95-97 | The superblock written is read back the same |
| `Formatting.RestartRestores` | fs/fs.c:14-36 | From a synced disk a restart loads the superblock and tables that were in memory |
| `Volume.RemountRoundTrip` | fs/fs.c:32-35 | The inode map and table loaded from a synced disk are those in memory |
| `Volume.InodeRoundTrip` | fs/fs.c:35-35 | An inode read from the bytes written for it is the same inode |
| `Volume.SyncSyncs` | fs/fs.c:149-154 | Syncing puts map and table on the disk and changes no other sector |
| `FileSystem.FileSystem.constructor` | fs/fs.c:14-36 | Mounting loads the tables from where the superblock on the disk puts them, after a format if the magic number is missing |
| `FileSystem.FileSystem.Format` | fs/fs.c:77-121 | The disk after a format, sector by sector |
| `FileSystem.FileSystem.SyncInode` | fs/fs.c:149-154 | sync_inode writes the map and the table, and nothing else |
| `SectorMap.AllocSector` | fs/fs.c:156-167 | The lowest sector not marked is marked and returned, on the disk or past its end; -1 only if every bit of the map is set |
| `SectorMap.MarkMarks` | fs/fs.c:159-162 | Marking a sector changes no other sector's mark |
| `SectorMap.BitSetBits` | common/common.c:100-102 | Setting a bit of a run of bytes leaves the others |
| `FileSystem.FileSystem.GrowFile` | fs/fs.c:276-279 | On every disk: one turn after the other the file gets whatever alloc_sector returns, up to the block asked for, or has 29 and that is not enough |
| `Growth.GrowCounts` | fs/fs.c:276-279 | Whatever the sectors are, growth adds exactly the blocks asked for, up to 29, and changes nothing but the sector map and the new pointers |
| `Growth.GrowGrown` | fs/fs.c:276-279 | If as many data sectors are free as the growth needs, every new block is one that was free, and no sector is given twice |
| `Growth.GrowRunsOut` | fs/fs.c:156-167 | If fewer are free, one of the new blocks lies past the end of the disk |
| `Growth.RoomyCovers` | fs/fs.c:156-167 | On a disk with 2 + 29 * 63 data sectors or more, 29 less its own blocks are free for any file at any time, so growth never runs out |
| `Ownership.GrownSound` | fs/fs.c:276-279 | Growing keeps every invariant: blocks distinct, marked, and no sector marked that is not a block |
| `FileWrites.OrderedExactlyIfCovered` | fs/fs.c:265-301 | A write leaves every block a sector of the disk, and everything in order, iff as many sectors were free as it needed |
| `FileExamples.DiskTooSmall` | fs/fs.c:156-167 | A concrete disk of 52 sectors on which the first byte written to the first file goes to a sector past the end |
| `FileRuns.StepKeepsOrderExactly` | fs/fs.c:208-301 | Of open, close, write, read, fork and exit by any process only two kinds of step lose order, and they do: a write with too few free sectors, and a create whose stored name is in use |
| `FileRuns.RunKeepsOrder` | fs/fs.c:208-338 | In every state of every run of other steps from a formatted disk all invariants hold: the sector map agrees with the inodes, the directory names each file once, every cursor lies within its file |
| `FileRuns.RunOrderlyExactly` | fs/fs.c:208-338 | All states of a run are in order iff it has no step of those two kinds |
| `FileRuns.LargeDiskKeepsOrder` | fs/fs.c:156-301 | On a disk with 2 + 29 * 63 data sectors or more a run stays in order whatever is written, as long as no create clashes |
| `FileRuns.SectorsOwnedOnce` | fs/fs.c:156-298 | In every such state a data sector belongs to one block of one inode, and is marked |
| `FileRuns.RestartAfterSuccess` | fs/fs.c:32-35 | After any create or write that succeeds in such a run, a restart rebuilds the tables in memory |
| `FileRuns.OthersKeepBytes` | fs/fs.c:265-301 | A file keeps its bytes through every stretch of such a run in which no descriptor writes it |
| `FileBlocks.WriteExactly` | fs/fs.c:281-296 | The block stores make the file its old bytes with the new ones spliced in iff the write stays in one block, ends on a block boundary, or ends with the bytes it begins with |
| `FileBlocks.TwoBlocksGoWrong` | fs/fs.c:291-293 | A concrete write of 600 bytes after which byte 512 of the file is not the byte written |
| `FileBlocks.ContentsAfter` | fs/fs.c:281-296 | Which byte of the data each byte of the file holds after a write, all other bytes being kept |
| `FileWrites.WriteIsSafe` | fs/fs.c:265-301 | A write that succeeds keeps all invariants, syncs, changes no other file, nor the directory or superblock, and is a splice iff it is exact |
| `WriteEffects.WriteEffect` | fs/fs.c:265-301 | A write through a descriptor, number by number: the blocks the file gets, its size, where each of its bytes comes from, no other inode or file changed; past block 28 no size and no byte |
| `WriteEffects.BlocksTaken` | fs/fs.c:156-167 | The blocks a file gets are the lowest free sectors, in rising order, up to the block of the position after its last byte, 29 at most; those it had it keeps |
| `FileWrites.FailedWriteKeepsBytes` | fs/fs.c:276-278 | A write past block 28 returns with size and bytes of every file unchanged |
| `DiskBlocks.Disk.WriteBlocks` | fs/fs.c:283-294 | First, middle and last block are stored one after the other where their pointers lead, a store past the end of the disk being lost |
| `FileBlocks.StoredWritten` | fs/fs.c:283-294 | When the blocks are distinct sectors of the disk each holds what the code puts there, and every other sector what it held |
| `DiskBlocks.Disk.ReadBlocks` | fs/fs.c:326-335 | The bytes gathered from first, middle and last block are the file's from the position on |
| `FileSystem.FileSystem.WriteFile` | fs/fs.c:265-301 | On every disk: the write is the growth, the stores and the sync, or -1 iff its last block is past 28 |
| `FileSystem.FileSystem.ReadFile` | fs/fs.c:310-338 | A read returns exactly the slice from the position, capped at the file size, and changes nothing |
| `FileNames.SplitName` | fs/fs.c:123-147 | split_name fills base and extension from the last dot on, cut to 7 and 3 characters, with the terminators where the code puts them, and leaves the rest of the sector |
| `FileNames.SplitJoin` | fs/fs.c:123-147 | Joining what was split gives base and extension cut to 7 and 3 characters, without a dot if there is no extension; the name itself iff it fits and does not end with a dot |
| `FileNames.StoredWithDot` | fs/fs.c:123-147 | Of a base, a dot and an extension without one, seven and three characters are stored, and no dot if the extension is empty |
| `FileNames.StoredWithoutDot` | fs/fs.c:132-136 | Of a name without a dot, seven characters are stored |
| `FileNames.SplitInjective` | fs/fs.c:123-147 | Different names that fit split differently |
| `FileSystem.EntryName` | fs/fs.c:175-180 | Copying base, dot and extension yields the name the entry holds |
| `FileSystem.FileSystem.FindFile` | fs/fs.c:169-185 | The inode of the first entry with the name, or -1 |
| `Directory.LookupIsMap` | fs/fs.c:169-185 | A name is found iff an entry in use holds it, with that entry's inode, so the directory is a map |
| `FileEffects.LookupIsFirst` | fs/fs.c:169-185 | Whatever state the directory is in, the inode of the first entry in use with the name, or -1 |
| `FileSystem.FileSystem.CreateFile` | fs/fs.c:187-206 | The first free entry and the first free inode are taken and synced, or -1 with everything unchanged |
| `FileEffects.CreateTakesFirst` | fs/fs.c:187-206 | The lowest free inode becomes an empty file, the lowest free entry holds its number and the stored name; no other inode, entry or data sector changes |
| `FileCreation.CreateIsSafe` | fs/fs.c:187-206 | A create under a stored name that is free keeps all invariants and syncs; that name leads to an empty file, other names lead where they led, no file changes |
| `FileCreation.CreateSafeExactly` | fs/fs.c:187-206 | A create keeps the directory a map iff the name it stores was not in use |
| `FileExamples.DotNameIsLost` | fs/fs.c:214-232 | A concrete disk on which creating a. makes a file a, so that a second open of a. creates a second entry with that name |
| `FileCreation.CreateFoundExactly` | fs/fs.c:187-206 | A name just created is found iff it fits an entry and does not end with a dot |
| `FileCreation.CreateFailsExactly` | fs/fs.c:187-206 | A create fails iff all 64 inodes are taken, and then disk and tables are untouched |
| `Directory.ListingIsDirectory` | fs/fs.c:387-408 | The listing has a record for a name iff it is found, with the size and space of its file |
| `Directory.ListingDistinct` | fs/fs.c:387-408 | No name is listed twice |
| `Directory.ListingInOrder` | fs/fs.c:387-408 | The records are in the order of the entries they come from |
| `FileSystem.FileSystem.ListDir` | fs/fs.c:387-408 | The listing reports the entries in use, in order |
| `FileSystem.FileSystem.GetSize` | fs/fs.c:381-385 | The number of bytes of the file with that name, or -1 |
| `OpenFiles.FileTable.Open` | fs/fs.c:214-239 | Which inode a name and flags lead to, or -1 with nothing changed; the lowest free descriptor and entry are joined, the cursor at 0 or at the end; everything stays in order iff no create clashes |
| `FileEffects.OpenRefused` | fs/fs.c:227-231 | A name found without OPEN_EXIST, a name missing without OPEN_CREATE, or with no inode left: nothing at all changes |
| `FileEffects.OpenFound` | fs/fs.c:226-238 | A name found, with OPEN_EXIST: the volume stays, and one descriptor more, the first free one, leads through the first free entry to its inode, the cursor at 0, or at the size with OPEN_APPEND |
| `FileEffects.OpenCreated` | fs/fs.c:226-238 | A name missing, with OPEN_CREATE and an inode left: the file is created in the lowest free inode and opened at 0 |
| `FileEffects.CloseEffect` | fs/fs.c:246-256 | A close frees its descriptor alone and takes one from the count of its entry alone, which is free when none is left |
| `FileEffects.CursorsStand` | fs/fs.c:265-338 | Reads and writes leave every descriptor and cursor alone, and a descriptor without a file everything |
| `FileEffects.ForkEffect` | proc/proc.c:45-45 | Descriptor by descriptor the child's lead to the open files its parent's lead to; no entry and no other process's descriptors change |
| `FileEffects.ExitEffect` | proc/proc.c:66-66 | An exit leaves the process without descriptors, and entries it did not name as they were |
| `OpenFiles.FileTable.Close` | fs/fs.c:246-256 | The descriptor is freed and the entry counts one fewer, freed with the last |
| `OpenFiles.FileTable.Write` | fs/fs.c:265-301 | On every disk: the write goes to the cursor, which stays; a descriptor without a file answers -1; everything stays in order iff the sectors needed were free |
| `OpenFiles.FileTable.Read` | fs/fs.c:310-338 | The read starts at the cursor, which stays |
| `OpenFiles.CursorInBlocks` | fs/fs.c:319-335 | Every block a read of any size looks at, from the one of the cursor to the one of its end, is a block of the file and a sector of the disk (for an empty file the first sector of the data) |
| `OpenFiles.WriteInBlocks` | fs/fs.c:274-294 | Every block a write stores is one the file has by then, and a sector of the disk if the sectors were there |
| `OpenFiles.WriteKeepsCursors` | fs/fs.c:296-296 | A write, whatever comes of it, leaves every open cursor within its file, and everything in order iff the sectors it needed were free |
| `DescriptorCounts.OpenKeepsCounted` | fs/fs.c:233-236 | Opening keeps rwcount equal to the descriptors that name the entry |
| `DescriptorCounts.CloseKeepsCounted` | fs/fs.c:249-254 | Closing keeps it |
| `DescriptorCounts.ExitKeepsCounted` | proc/proc.c:66-66 | The closing loop of exit leaves the process with nothing open, every other process with the descriptors it had, and the counts right if they were |
| `DescriptorCounts.ForkKeepsCountedExactly` | proc/proc.c:45-45 | A fork keeps it iff the parent has nothing open |
| `DescriptorCounts.ForkThenExitFrees` | proc/proc.c:45-66 | After a fork and the exit of the child an open entry is free iff no process but the parent has it open, though the parent's descriptors still name it |
| `DescriptorCounts.OpenRedirects` | fs/fs.c:222-236 | The next open that takes such an entry turns the parent's descriptor to the file it opens |
| `DescriptorCounts.ForkMiscounts` | proc/proc.c:45-66 | A concrete table with one file open on which fork, exit of the child and another open do that |

## Left out

- Port I/O, ATA commands, interrupt controller, screen and keyboard access: device plumbing; the disk is an array of sectors.
- `sys_do_unlink`: it overwrites the entry's inode index before using it, so what it releases is not the file.
- Screen output, keymaps and the terminal rings, except that a reader blocks and is woken.
- Boot code, descriptor tables and the raw control-register instructions.
- ELF loading in `sys_exec`: it is covered as a drop followed by arbitrary first touches and stores.
- Paging.PagingUnit.PageFaultHandler: does not model faults at kernel addresses, which the handler treats like user addresses; the entries it would then fill are the kernel's, which after `init_paging` nothing in this model changes.
- Paging.PagingUnit.CopyPages: does not model a fork that tracks more than 64 pages; `FrameCopyMap` and `CowLimits` say what `dec` then misses and what comes of it.
- ProcessTable.Processes.SysExit: does not model the eax the child stores into its father's saved frame, which the woken father's loop does not use. The closing loop is `DescriptorCounts.AfterCloses` and the cleanup `Paging.PagingUnit.CleanupMemory`; processes and memory are put together in `Kernel`, descriptors and files in `FileRuns`.
- ProcessTable.Processes.SetupKernelProcess: does not model the register frame and stack pointer it prepares, nor the directory, which is the kernel's own.
- FrameCopyMap.CopyMap.Add: does not model the wrap of a 32-bit count, because at most 32 processes share a page.
- PhysicalPages.PageAllocator.Free: clears the bit of the page, where the code as written computes an index past the bitmap.
- FileSystem.FileSystem.constructor: does not model a superblock with the magic number whose tables are not 16 sectors of the disk; the loop would then read past the table in memory.
- FileSystem.FileSystem.WriteFile: starts from a file system in order; a write after one that ran out of sectors is not modelled.
- FileSystem.FileSystem.CreateFile: does not model a name whose base has 12 characters or more, because `split_name` then stores a 0 in a neighbouring entry.
- FileNames.SplitName: the same bound on the base; longer extensions are cut, as the code does.
- OpenFiles.FileTable.Open: the same bound on the base, when it may create.
- ExecArgs.PackArgs: does not model more than 16 arguments, because the pointer array has 16 places and the code does not check.
- Inodes that are not allocated: a format leaves most of the inode table as it found it, which nothing reads.
- A restart after a write that failed: blocks taken in memory are then not yet in the inode table on the disk.
- `delay`, `min` and `max` of sys/user/utils.c on their own, user programs and system-call stubs.
