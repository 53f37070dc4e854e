# RockOS in Dafny

RockOS is a small x86-64 kernel: a bitmap frame allocator and one global page table, `brk`/`mmap`/`munmap`, an ELF
loader with the System V initial stack, a process table with a round-robin run queue that is served on system call
boundaries, a PS/2 scancode ring and a cooked TTY. This project models that logic and proves what holds over whole
runs of it, including runs in which calls stop halfway and undo nothing.

Code that the kernel updates in place is a class here, and its methods are proved to perform a step of a pure
specification; the theorems about runs are lemmas over the specification.

| file | models |
|---|---|
| `Basics.dfy` | bytes, words, pages, little-endian encoding |
| `FrameBitmap.dfy` | the bitmap frame allocator |
| `Paging.dfy` | frame ownership under page-table edits |
| `PageRanges.dfy` | the page ranges of an image: when they can be mapped, and how far a load gets |
| `UserMemory.dfy` | brk, mmap, munmap, image and stack mapping as steps of one process; access checks |
| `MemoryExactness.dfy` | exactly when these calls succeed, and which pages nothing accounts for after any run |
| `SharedMemory.dfy` | all processes on one page table: calls, forks and reaps |
| `AddressSpace.dfy`, `ProcessMemory.dfy` | the same calls on the mutable page table, memory and process |
| `MemoryResults.dfy` | what the memory calls return and the access checks accept, in addresses |
| `ElfLoader.dfy`, `ExecStack.dfy`, `Exec.dfy` | the ELF loader, the initial stack, `execve` |
| `ElfFormat.dfy` | an encoder of ELF files and what the loader makes of its output |
| `ProgramStart.dfy`, `Utf8.dfy` | the initial stack as the new program reads it; what the parsers accept |
| `ForkStack.dfy`, `LowFork.dfy` | fork's copy of the stack; an image with which the copy is misplaced |
| `MachineFacts.dfy` | the machine's numbers: boot frames, page-table regions, boot pages |
| `Boot.dfy`, `ShippedImage.dfy`, `ReExec.dfy` | from the memory map to the first process; the shipped init; exec of the running image |
| `ShippedRuns.dfy` | the shipped kernel over whole runs: its pages, access checks and forks |
| `PtrVec.dfy` | the argv/envp parser and its round trip with the stack builder |
| `SyscallContext.dfy` | system call entry, save, restore and return, word by word |
| `Scheduler.dfy`, `SchedulerRuns.dfy`, `KernelTables.dfy` | process table, run queue and system call tail |
| `CallResults.dfy` | what each call returns and leaves behind |
| `ProcessHistory.dfy` | which event wrote the record a process resumes with, and who forked whom |
| `Keyboard.dfy`, `Tty.dfy`, `KeyFacts.dfy` | scancode ring, key map, line discipline; the keyboard key by key |

## Main results

- **Frame ownership and conservation.** Over every run of memory calls by any number of processes, with forks and reaps
  anywhere, no frame has two owners, the frames in play stay one fixed set, and exactly one frame is lost per call that
  fails inside `map_to` (`SharedMemory.FramesOwnedOverRuns`, `SharedMemory.FramesConservedOverRuns`).
- **Process memory.** Areas stay aligned, in their window, disjoint and mapped; heap pages stay mapped; what the access
  checks accept is mapped, and in an mmap window whose pages are all accounted for they accept exactly what is
  (`UserMemory.InvOverRuns`, `UserMemory.AccessChecksSound`, `MemoryResults.WindowByteExactly`). A call keeps this
  invariant for its own process iff exec's image spares the heap and the areas (`UserMemory.InvExactly`), and for all
  processes iff it also removes no page another one uses (`SharedMemory.AllInvExactly`).
- **Exactly when mapping succeeds and how far it gets**, counting frames for pages and for missing page tables, with no
  assumption on what is mapped or recorded (`Paging.MapRangeExactly`, `MemoryExactness.GrowExactly`,
  `MemoryExactness.MmapExactly`, `PageRanges.LoadRangesExactly`, `PageRanges.LoadReaches`).
- **Pages nothing accounts for.** After every run the mapped pages beyond `brk_end` or outside every area are exactly
  those that some call made so and no later call ended, each told from the state before the call
  (`MemoryExactness.OrphansOverRuns`).
- **ELF images.** A load succeeds iff the headers are in order and the segments fit (`ElfLoader.LoadElfMapped`); it then
  puts every segment's bytes and zeros in memory with no segment disturbing another, which rests on frame ownership
  (`ElfLoader.PhdrTableVisible`). A load that fails stops at one header with one error, both determined by image and
  memory (`ElfLoader.JustifiedUnique`). On every outcome each mapped byte is accounted for, and nothing is written to free
  frames or outside the frames in play (`AddressSpace.Space.WriteByte` up to `Boot.BootKernel`). What the loader reads is
  what an encoder of its own wrote (`ElfFormat.EhdrReadBack`, `ElfFormat.PhdrReadBack`, `ElfFormat.LoadsExactly`,
  `ElfFormat.LoadedAsWritten`).
- **Exec.** It succeeds iff the image can be loaded, the arguments fit and the stack page is there, and on every outcome
  the contract says what each mapped byte and the image bounds are (`Exec.SysExecve`, `Boot.BootKernel`). A
  built stack parses back to its vectors iff they are within the parser's limits (`PtrVec.ExecStackRoundTrip`); whatever
  the parser accepts is within them, so parsing, building and parsing again is the identity
  (`PtrVec.ExecPassesArguments`). A walk up the new stack finds the auxiliary vector (`ProgramStart.AuxBuilt`).
- **System call context.** Saving and restoring are each one word off, in a way that cancels, even for a call that
  enters on one stack and is restored on another (`SyscallContext.ShiftsCancel`, `SchedulerRuns.ContextSurvives`,
  `KernelTables.Tables.HandleTrap`). In every run each process resumes from its own last call or its fork's frame
  (`ProcessHistory.ResumesOwnRegisters`).
- **Scheduler.** Queue invariant, exact panic and idle conditions, bounded waiting, slices of 12 timer interrupts to the
  tick, exit statuses conserved (`SchedulerRuns.GoodOverRuns`, `PanicAndIdleExactly`, `BoundedWait`, `TicksCounted`,
  `SliceIsTwelveTicks`, `StatusesConserved`); who reaps whom (`ProcessHistory.ReaperIsForker`).
- **Fork and wait.** Fork returns a pid that nobody has to the parent and zero to the child it names
  (`CallResults.ForkReturnsTwice`). Its stack can be prepared iff the pages from the parent's pointer up to 0x401 and as
  many from 0x402 up are mapped (`ForkStack.PrepareExactly`); refused or not, the bytes it has copied are determined
  (`ForkStack.MapChildStackAndCopy`). In every run in which no image has the page 0x403, as in every run of the shipped
  kernel, the copy of every fork that succeeds lies where the child's pointer says (`SharedMemory.ForksMirrorOverRuns`,
  `ShippedRuns.ShippedForksMirror`). Wait reaps the lowest child it may (`CallResults.WaitReturns`).
- **TTY.** The streaming state machine equals a declarative reading of the whole stream, and bytes are conserved
  between accepted lines and reads (`Tty.SessionReflects`, `Tty.StreamConserved`).

## Where the code does not do what it says

- `src/task.rs:47` describes the record as read at the dispatcher's stack pointer, but `src/syscall.rs:45` passes a
  pointer one word higher. Each field of the record therefore holds its neighbour, and `restore_to_kstack` together
  with the resume address shifts it back. r14 and r15 do not survive: r14 comes back as the stack top the call entered
  on, r15 as zero (`SyscallContext.CalleeSavedLost`). They survive exactly when they had those values
  (`SyscallContext.ShiftsCancel`).
- `process::init` stores the first process's stack top before the process is moved into its box
  (`src/process.rs:100-104`). Its first call enters on that stale top; from the first resumption on, every call enters
  on the caller's own stack (`SchedulerRuns.OwnStackOverRuns`).
- The frame that a successful exec installs never takes effect: the tail of the same call overwrites it. No run ever
  resumes it, nor the bootstrap record of the first process (`ProcessHistory.ResumesOwnRecord`).
- Exec drops the old image only from the text base up, and loads the image that is running. It can succeed exactly when
  that image is the single page 0x400: a page below the text base stays mapped and is refused, and a page above 0x400
  takes the stack page with it (`ReExec.ReExecExactly`, and `ReExec.EveryExecExactly` for every exec of every run). The
  shipped image starts at 0x3ff000, so in every run every exec fails and leaves the caller without its text page
  (`ShippedImage.ShippedNeverExecs`), and loses a frame for good while there is a free one
  (`ShippedRuns.ExecLosesFrame`). The access checks go on accepting that page: the image part of both is sound exactly
  until the first exec attempt (`ShippedRuns.ImageChecksSoundUntilExec`).
- The read check takes the image from 0x400000, the write check from its first writable segment, so a range may be
  writable and not readable, exactly when that segment starts below 0x400000
  (`MemoryResults.WritableReadableExactly`); the header page of the shipped image is (`ShippedRuns.HeaderPageWriteOnly`).
- Only a rotation starts a time slice. The process that an exit lets run inherits a reschedule that is due and gives way
  at its first call (`SchedulerRuns.NoSliceAfterExit`).
- Fork shares the address space but copies the area list, so when one process unmaps an area the other's access check
  accepts a range that is not mapped (`ShippedImage.ShippedForkBreaks`; `SharedMemory.AllInvExactly` for exactly which
  calls do harm). The other may still unmap its area (`SharedMemory.ParentUnmapsToo`) or map the page again, and then one
  munmap drops two areas (`SharedMemory.MappedTwice`; `MemoryResults.OneAreaGoes` for exactly when it drops one).
- Fork gives the child the parent's stack pointer plus 0x1000, but from a pointer below the stack page it copies to the
  start of the child's page, so a fork that succeeds from there leaves the copy elsewhere (`ForkStack.MirrorExactly`). It
  takes an image with the pages 0x400 and 0x403 to succeed from there (`ForkStack.PrepareExactly`; `LowFork.MisplacedCopy`
  is one). The shipped image has no page 0x403, and there it is always refused (`ShippedRuns.ShippedForksMirror`).
- A fork that is refused may have copied already. From below the stack page it writes over the stack of the child that
  is there (`ForkStack.RefusedExactly` for exactly when, `ForkStack.RefusedForkOverwrites`); in the shipped kernel, a whole
  page from anywhere in the image until the first exec (`ShippedRuns.ShippedRefusedCopies`).
- The pointer that fork moves does not reach the child: its record goes through the return path that is one word off, so
  the child resumes on the frame's instruction pointer field (`CallResults.ForkReturnsTwice`).
- All children share the one stack page 0x402, so a second fork overwrites the first child's stack
  (`ForkStack.ForkTwice`, `SharedMemory.OneChildStack`).
- New heap and mmap pages are not cleared. They show what their frame held (`ProcessMemory.Process.SysMmap`), and after
  one page is mapped and unmapped, the next one mapped has its frame (`ProcessMemory.RecycledPageShowsOldBytes`).
- The mmap bump pointer never moves back, not even for a request that fails, so 112 pages asked for without an address
  are all there are, ever, for all processes (`SharedMemory.WindowSpent`).
- `wait4` frees the child before it looks at the status pointer, so a bad pointer loses the child
  (`ProcessHistory.BadStatusLosesChild`, and `SchedulerRuns.FailedWaitLosesChild` for exactly when).
- Pids are reused, so a process can reap a child it did not fork (`ProcessHistory.StrangerReaps`). The reaper is the
  forker exactly when the forker is still in the table (`ProcessHistory.ReaperIsForker`), as it always is while only pid 1
  forks (`ProcessHistory.FirstReapsItsOwn`).
- A `mmap` that fails halfway leaves pages mapped that no area records (`ShippedImage.HalfwayMmapLeaks`), and no later
  call recovers them unless an image is dropped over them (`MemoryExactness.LeakStaysOverRuns`,
  `SharedMemory.LeaksStayOverRuns` for all processes). The areas of a process that is reaped are lost in the same way,
  unless another process records them (`SharedMemory.ReapLeaks`). A failed grow leaves heap pages beyond `brk_end`
  (`ShippedImage.HalfwayGrowLeaks`). `MemoryExactness.MmapExactly` and `MemoryExactness.GrowExactly` give the exact
  conditions.

## Model

| member | source | states |
|---|---|---|
| `FrameBitmap.LowestClear` | src/memory.rs:100 | the result is a clear bit of the byte and every lower bit is set |
| `FrameBitmap.BitmapFrameAllocator.constructor` | src/memory.rs:57-93 | after boot the free frames are exactly the trackable frames of usable regions except page zero and the video window, and the free counter is their number |
| `FrameBitmap.BitmapFrameAllocator.MarkFree` | src/memory.rs:31-36 | adds exactly this frame to the free set; an index beyond the bitmap changes nothing |
| `FrameBitmap.BitmapFrameAllocator.MarkUsed` | src/memory.rs:39-44 | removes exactly this frame from the free set |
| `FrameBitmap.BitmapFrameAllocator.CountFree` | src/memory.rs:46-54 | the count is the size of the free set |
| `FrameBitmap.BitmapFrameAllocator.Allocate` | src/memory.rs:95-115 | hands out the lowest free frame and removes it, fails only when none is free, and keeps the counter equal to the number of zero bits |
| `FrameBitmap.BitmapFrameAllocator.Deallocate` | src/memory.rs:117-130 | frees exactly this frame; page zero, out-of-range and already free frames change neither bitmap nor counter |
| `FrameBitmap.HandedOutWasFree` | src/memory.rs:95-130 | in every run, with any frees at all, a frame handed out was free at the start or was freed earlier, and page zero never is unless it started free |
| `FrameBitmap.ReservedNeverHandedOut` | src/memory.rs:75-86 | in every run after boot that frees only what it was handed, page zero and the video window are never handed out and free and outstanding frames partition the boot set |
| `FrameBitmap.AllocateFreeRestores` | src/memory.rs:117-130 | allocating and freeing restores the free set, and freeing again changes nothing |
| `FrameBitmap.PlayFrames` | src/memory.rs:95-130 | the bitmap, driven by any sequence of allocations and frees, hands out exactly the frames of the run on the free set and ends with that set and its size |
| `MachineFacts.BootFreeExactly` | src/memory.rs:57-93 | a frame is free after boot iff it lies below 256 MiB in a usable region and is neither page zero nor at 0xA0000 to 0xBFFFF |
| `Paging.AllocAndMapKeeps` | src/process.rs:321-327 | one allocate-and-map keeps frame ownership and the set of frames in play, and loses exactly one frame exactly when `map_to` refuses |
| `Paging.AllocAndMapPages` | src/process.rs:321-327 | on success exactly this page is added, backed by the lowest free frame with the given flags; on failure the page table is unchanged |
| `Paging.AllocAndMapFailure` | src/process.rs:321-327 | it fails only when the pool is exhausted or the page is already mapped |
| `Paging.AllocAndMapExactly` | src/process.rs:321-327 | a mapping succeeds iff the page is unmapped and the pool has a frame for it and for each missing table of its path; it takes exactly these and leaves the whole path in place |
| `Paging.AllocAndMapFails` | src/process.rs:430-436 | without a free frame a mapping does nothing; one that is refused otherwise loses exactly the lowest frame, changes no page, and has made the missing tables from the top down as far as the other frames went |
| `Paging.NeighbourTables` | src/process.rs:322-327 | pages of one 2 MiB region need the same page tables |
| `MachineFacts.TablesByRegion` | src/paging.rs:52-62 | two addresses share a page table of level 1, 2 or 3 iff they share 2 MiB, 1 GiB or 512 GiB |
| `MachineFacts.FramesForPage` | src/process.rs:321-327 | the first page of an empty address space takes four frames, its neighbour one more |
| `Paging.UnmapFreeKeeps` | src/paging.rs:79-90 | an unmap removes exactly the page, frees exactly its frame and keeps ownership, so it never frees a frame that another page uses |
| `Paging.MapRangeKeeps` | src/process.rs:317-328 | a page loop that stops anywhere keeps ownership and the frames in play, with one frame lost iff `map_to` refused |
| `Paging.MapRangePages` | src/process.rs:317-328 | a page loop keeps all earlier mappings, adds only pages of the range with the given flags, on success maps the whole range, and without skipping succeeds only on an unmapped range |
| `Paging.MapRangeFailure` | src/process.rs:423-440 | a page loop fails only when the pool is exhausted or, without skipping, a page of the range was mapped |
| `Paging.MapRangeSplits` | src/process.rs:423-440 | a page loop is its first part and then, if that succeeds, the rest; over one page it is a single mapping, or nothing where a mapped page is passed over |
| `Paging.MapRangeExactly` | src/process.rs:311-331 | for any page tables, a page loop succeeds iff the pool covers the missing pages and the missing tables above them and, without skipping, no page is mapped; a failing loop has mapped something iff its first attempt could succeed |
| `Paging.MapRangeTakes` | src/process.rs:311-331 | a successful page loop takes exactly one frame per missing page and per missing table, and adds exactly these tables |
| `Paging.PrefixMapped` | src/process.rs:423-440 | a page loop has mapped page p of its range, whether it then stops or not, iff p was mapped or the loop that ends at p succeeds |
| `PageRanges.LoadRangesExactly` | src/elf.rs:150-164 | the page loops of all segments succeed iff no page is in two of them, none is mapped, and the pool covers all pages and missing tables |
| `PageRanges.LoadReaches` | src/elf.rs:150-164 | a load maps exactly the pages up to which everything fits, with their segment's protection, also when it fails later |
| `PageRanges.LoadPrefix` | src/elf.rs:150-164 | a load is its beginning and then, if that succeeds, the rest; of one range it is that range's page loop |
| `Paging.UnmapRangeKeeps` | src/process.rs:411-421 | unmapping a range keeps ownership and the frames in play |
| `Paging.UnmapRangePages` | src/process.rs:411-421 | unmapping a range removes exactly its pages and frees exactly their frames |
| `Paging.CountIsUniverse` | src/memory.rs:110-129 | under ownership, free frames, user pages, page tables and lost frames count each frame in play once |
| `UserMemory.CallKeeps` | src/process.rs:284-440 | every memory call, successful or not, keeps ownership and the frames in play and loses one frame iff it failed inside `map_to` |
| `SharedMemory.FramesOwnedOverRuns` | src/process.rs:248-495 | over every run of brk, mmap, munmap, image load and image unmap by any processes, with forks and reaps anywhere: single ownership, a constant set of frames in play, and lost frames equal to the number of `map_to` failures |
| `SharedMemory.FramesConservedOverRuns` | src/process.rs:248-495 | over every such run, free frames plus user pages plus page tables plus lost frames is constant |
| `SharedMemory.RootedOverRuns` | src/process.rs:248-495 | over every such run each mapped page has all its page tables |
| `SharedMemory.OneProcessMoves` | src/process.rs:557-579 | a call moves only its caller's heap end and areas; a reap forgets the process and changes nothing else |
| `SharedMemory.StrangersMoveNothing` | src/process.rs:443-480 | a call or reap of a process that is not there, and a fork by one or into a pid in use, change nothing |
| `SharedMemory.ForkShares` | src/process.rs:464-527 | every fork first maps the child's page, whatever becomes of it, and changes no other page; after one that succeeds parent and child see the same memory, heap end and areas; a fork makes a process iff it can prepare the stack, which with the pointer on the stack page means that page 0x401 is and 0x402 will be mapped, and with a pointer at or above 0x402000 never |
| `SharedMemory.ForkHappens` | src/process.rs:456-527 | preparing the child's stack on the mutable memory leaves the memory of the fork step of those runs, and succeeds iff that step makes a process |
| `SharedMemory.OneChildStack` | src/process.rs:497-527 | after the first fork, in every run that drops no image over the stack page, page 0x402 stays mapped, every further fork copies into that same page, and one from a pointer on page 0x401 always can |
| `ForkStack.CopyUserPages` | src/process.rs:529-543 | copies byte by byte through both translations up to the first byte not mapped on both sides; succeeds iff there is none; no byte outside those copied changes |
| `ForkStack.MapChildStackAndCopy` | src/process.rs:497-527 | prepares the child's stack iff it can (`ForkStack.CanPrepare`); whatever happens, exactly the bytes up to the first that is not mapped on both sides are copied (`ForkStack.Copies`), no other mapped byte changes, a new page shows its frame's old bytes outside the copy, and neither frames left free nor memory outside the frames in play are written; with the pointer on the parent's stack page, no byte that was visible before changes unless the child's page was already mapped, and the child's page then holds at the moved pointer what the parent has at its own |
| `ForkStack.PrepareExactly` | src/process.rs:503-526 | the stack can be prepared iff the pointer is below 0x402000, the child's page is mapped or can be, all pages from the pointer's up to 0x401 are mapped and as many from 0x402 up; from the stack page that is page 0x401, from page 0x400 it is 0x400, 0x401 and 0x403 |
| `ForkStack.CopiesOnce` | src/process.rs:529-543 | the number of bytes a fork copies is determined by memory and pointer, and is all of them iff the stack can be prepared |
| `ForkStack.RefusedExactly` | src/process.rs:503-543 | a refused fork has copied something iff its pointer lies on a mapped page below 0x401000 and the child's page is mapped or can be; it has written over bytes mapped before iff moreover 0x402 was mapped, or 0x403 and the page after the pointer's are |
| `ForkStack.RefusedForkOverwrites` | src/process.rs:503-543 | with 0x403 unmapped, 0x402, the pointer's page and the next mapped, a fork from below 0x401000 is refused and has overwritten all 4096 bytes at 0x402000 with those from the pointer up |
| `SharedMemory.ForksMirrorOverRuns` | src/process.rs:460-527 | in every run that starts with page 0x403 unmapped and loads no image with that page, a fork can be prepared iff its pointer is on page 0x401, that page is mapped and the child's is or can be; every such copy lies where the child's pointer says |
| `ShippedRuns.ShippedForksMirror` | src/process.rs:460-527 | in every run of the shipped kernel, execs included, a fork can be prepared iff its pointer is on page 0x401 and the child's page is mapped or can be, and its copy lies where the child's pointer says |
| `ShippedRuns.ShippedRefusedCopies` | src/process.rs:529-543 | in every run of the shipped kernel a fork from below 0x401000 is refused, having copied 4096 bytes from pages 0x3ff and 0x400 before the first exec attempt, only those below 0x400000 after it, and none from below the image |
| `LowFork.MisplacedCopy` | src/process.rs:460-527 | an ELF file, written out, with pages 0x400 and 0x403 that boots on every memory map with 74 usable frames; a fork from 0x400800 then succeeds with its copy at 0x402000 and the child's pointer at 0x401800 |
| `ForkStack.ForkTwice` | src/process.rs:497-543 | the parent forks, stores a byte on its stack and forks again: where the first child found the old byte it now finds the new one |
| `ForkStack.MirrorExactly` | src/process.rs:460-462 | the child's stack pointer is the parent's plus 0x1000, and the copy lies there iff the parent's pointer is at least 0x401000 |
| `SharedMemory.AllInvExactly` | src/process.rs:464-480 | an event keeps the memory invariant of every process iff it spares its own process's heap and areas and removes no page another process uses; forks and reaps always do |
| `SharedMemory.BystanderExactly` | src/process.rs:208-246 | another process keeps its invariant across a call iff the call removes no page it uses |
| `SharedMemory.AccessChecksSoundForAll` | src/process.rs:208-246 | over every run of sparing events, whatever any process's heap and mmap checks accept is mapped as they promise |
| `SharedMemory.MunmapBreaksOthers` | src/process.rs:380-421 | when a process unmaps an area, every other process that records it has an accepted range that is not mapped |
| `SharedMemory.ForkedMunmapBreaksParent` | src/process.rs:464-480 | in every boot with frames for it, the run mmap, fork, munmap by the child leaves the parent's check accepting an unmapped page |
| `SharedMemory.ParentUnmapsToo` | src/process.rs:380-421 | after that run the parent's own munmap of the page returns 0 and drops its area, though the page is gone |
| `SharedMemory.MappedTwice` | src/process.rs:333-398 | after that run the parent may mmap the page again at its address; it then records the range twice, and one munmap drops both areas |
| `SharedMemory.OutsideStaysOverRuns` | src/process.rs:248-495 | in every run a page outside heap and mmap window stays mapped as it is until an image is dropped over it |
| `SharedMemory.EmptyStaysOverRuns` | src/process.rs:248-495 | in every run a page outside heap and mmap window other than 0x402 stays unmapped until an image that has it is loaded |
| `SharedMemory.BelowTextStaysOverRuns` | src/elf.rs:61-77 | in every run at all, exec included, the pages below the text base stay mapped as they are |
| `SharedMemory.LeaksStayOverRuns` | src/process.rs:333-440 | in every run of all processes, a mapped page of the mmap window that nobody's area covers stays mapped and uncovered until an image is dropped over it |
| `SharedMemory.ReapLeaks` | src/process.rs:557-579 | a mapped page of the mmap window is leaked by the reap of a process iff no other process's area covers it |
| `SharedMemory.BumpOverRuns` | src/process.rs:347-352 | over every run of all processes the mmap bump pointer has moved by 4096 times the pages asked for without an address, granted or not |
| `SharedMemory.GrantsFitWindow` | src/process.rs:347-352 | all processes together are ever granted at most 112 pages at kernel-chosen addresses from boot |
| `SharedMemory.WindowSpent` | src/process.rs:347-352 | once 112 pages have been asked for, every later request without an address fails with -12, whatever has been unmapped |
| `UserMemory.ImageAndStackPages` | src/elf.rs:61-77 | dropping the old image unmaps exactly the pages that meet it from the text base up; the child stack page ends up mapped unless the pool is exhausted |
| `MemoryResults.ImageDropped` | src/elf.rs:61-77 | dropping an image unmaps exactly the pages from 0x400000 up that start below its end, frees their frames and keeps the tables |
| `MemoryResults.ImageLoaded` | src/elf.rs:150-164 | loading an image is the page loop over its first range and, if that succeeds, loading the rest; nothing but pages changes |
| `MemoryResults.ChildStackMapped` | src/process.rs:497-516 | fork's stack page 0x402000 is mapped by a single mapping unless it is there; it ends up mapped iff that does not fail, writable and not executable if it is new; no other page changes |
| `UserMemory.GrowPages` | src/process.rs:311-331 | growing keeps every mapping, adds only heap pages that meet the new span, all of them on success, and loses nothing unless `map_to` refuses |
| `UserMemory.ShrinkPages` | src/process.rs:284-305 | shrinking removes exactly the pages that start in [new end, old end) and frees exactly their frames |
| `UserMemory.BrkResult` | src/process.rs:248-282 | the returned value and new end in every case; inside the window brk fails only when a grow exhausts the pool |
| `MemoryResults.BrkReturns` | src/process.rs:248-331 | from any memory with single ownership: the value and the new end for every argument, in numbers; a lower end unmaps exactly the pages that start between and frees their frames, a higher one is the page loop from the old end's page up; pages added are writable and not executable, and nothing but end and pages changes |
| `UserMemory.BrkKeepsInv` | src/process.rs:248-282 | brk, also when it fails, keeps heap pages mapped with heap flags and leaves the mmap window alone |
| `UserMemory.MmapResult` | src/process.rs:333-378 | a successful mmap maps a previously free range of rounded-up length with the requested protection and records it; it fails only on bad arguments, an exhausted window or pool, or an occupied page |
| `MemoryResults.ProtectionBits` | src/process.rs:338-346 | value 2 of the protection is write, value 4 is execute |
| `MemoryResults.MmapReturns` | src/process.rs:333-440 | -22 without effect for each bad argument, -12 with the bump pointer still moved when the window is exhausted, otherwise the page loop over the range with the protection asked for, and the address and one recorded area, or -12 and none |
| `MemoryResults.MmapProtects` | src/process.rs:338-346 | every page mmap adds has exactly the protection asked for |
| `UserMemory.MmapKeepsInv` | src/process.rs:333-378 | mmap keeps the areas aligned, inside the window, pairwise disjoint and mapped, for fixed and kernel-chosen addresses |
| `UserMemory.MunmapExact` | src/process.rs:380-409 | where the memory invariant holds, munmap succeeds iff an area spans exactly the range; it then removes that one area, unmaps exactly its pages and frees their frames, and otherwise changes nothing |
| `MemoryResults.MunmapReturns` | src/process.rs:380-421 | whatever is still mapped: 0 iff an area starts at the address and has the length; every such area then goes and the others stay in order, the pages of the range that are mapped are unmapped and their frames freed; otherwise -22 and no effect |
| `MemoryResults.OneAreaGoes` | src/process.rs:390-398 | a munmap that succeeds drops exactly one area iff no two recorded areas span the range |
| `UserMemory.MunmapKeepsInv` | src/process.rs:380-421 | munmap keeps the heap and every other area mapped |
| `UserMemory.InvExactly` | src/elf.rs:61-77 | a call, completed or not, keeps the invariant iff no image page with other flags gets mapped in the brk window and no dropped image reaches a heap page in use or an area |
| `UserMemory.InvOverRuns` | src/process.rs:248-421 | the whole memory invariant of the process holds after every run in which each call spares the heap, which `UserMemory.InvExactly` shows to be the exact condition for one call |
| `UserMemory.AccessChecksSound` | src/process.rs:208-246 | after every such run from boot, every range accepted by the heap check or an mmap check is mapped, and mapped writable for the heap and writable areas |
| `MemoryResults.ReadableExactly` | src/user.rs:57-70 | a range is readable iff its end is below 2^64 and it lies in [0x401000, 0x402000), [0x404000, min(brk_end, 0x410000)), one recorded area or [0x400000, image end) |
| `MemoryResults.WritableExactly` | src/user.rs:73-92 | a range is writable iff its end is below 2^64 and it lies in [0x401000, 0x402000), [0x404000, min(brk_end, 0x410000)), one recorded writable area or [rw start, image end) |
| `MemoryResults.StackAccepted` | src/user.rs:77-82 | a range on the stack page is accepted for reading and writing, whatever the process |
| `MemoryResults.HeapAccepted` | src/process.rs:208-213 | so is a range in the heap below brk_end |
| `MemoryResults.AreaAccepted` | src/process.rs:215-246 | a range inside one area is accepted for reading, and for writing if the area is writable |
| `MemoryResults.ImageAccepted` | src/user.rs:61-92 | a range in the image is accepted for reading, and for writing from the start of its writable part |
| `MemoryResults.PartAccepted` | src/user.rs:57-92 | any part of an accepted range is accepted |
| `MemoryResults.WritableReadableExactly` | src/user.rs:57-92 | with areas in their window, every writable range is readable iff the writable part of the image starts at 0x400000 or above, or lies beyond the image's end |
| `MemoryResults.WindowByteExactly` | src/process.rs:215-246 | with every page of the mmap window accounted for, a byte there outside the image bounds may be read iff its page is mapped and written iff that page is mapped writable |
| `MemoryExactness.HeapExactOverRuns` | src/process.rs:248-331 | after every run the pages mapped in the brk window are exactly those that meet [base, brk_end) iff the run leaves no orphan there |
| `MemoryExactness.WindowExactOverRuns` | src/process.rs:333-421 | after every run each page mapped in the mmap window belongs to a recorded area iff the run leaves no orphan there |
| `MemoryExactness.LeakStaysOverRuns` | src/process.rs:333-440 | a page mapped in the mmap window that no area records stays so in every later run that drops no image over it |
| `MemoryExactness.GrowExactly` | src/process.rs:311-331 | whatever is mapped, a grow succeeds iff no page is missing or the pool covers the missing pages and page tables; it stops halfway iff it does not succeed and the pool exceeds the missing tables |
| `MemoryExactness.MmapExactly` | src/process.rs:333-378 | whatever is mapped and recorded, an mmap with an acceptable target succeeds iff no page of the range is mapped and the pool covers the range and the missing page tables; it stops halfway iff it does not succeed, the pool exceeds the missing tables and the first page is free |
| `MemoryExactness.GrowKeepsExact` | src/process.rs:311-331 | from an exact heap, a grow leaves it exact iff it succeeds or the pool does not exceed the missing tables |
| `MemoryExactness.MmapKeepsExact` | src/process.rs:333-378 | from an exact window, an mmap leaves it exact iff it succeeds, the pool does not exceed the missing tables, or the first page is taken |
| `MemoryExactness.OrphanStep` | src/process.rs:248-440 | for every call, a page is an orphan afterwards iff it was one and the call does not end it, or the call makes it one, both told from the state before the call |
| `MemoryExactness.OrphansOverRuns` | src/process.rs:248-440 | over every run the orphan pages are exactly those that some call made orphans and no later call ended |
| `ShippedImage.HalfwayMmapLeaks` | src/process.rs:423-440 | booting the shipped image on a memory map of 75 usable frames leaves one free, and a two-page mmap then fails and leaves a page that no area records |
| `ShippedImage.HalfwayGrowLeaks` | src/process.rs:311-331 | after the same boot a two-page grow fails and leaves a page mapped beyond the heap end |
| `UserMemory.BootMeetsInvariants` | src/process.rs:51-62 | the state of a new process over an unmapped window satisfies every invariant the run results start from |
| `UserMemory.GrowThenShrinkRestores` | src/process.rs:248-331 | growing and shrinking back restores the page table and returns every data frame; only new page tables stay |
| `AddressSpace.PhysDistinct` | src/elf.rs:173-179 | distinct mapped addresses translate to distinct physical bytes |
| `MachineFacts.ByteLiesAt` | src/elf.rs:173-179 | a mapped byte lies at 4096 times its frame plus its offset in the page |
| `AddressSpace.Space.MapTo` | src/paging.rs:52-62 | the level-by-level walk performs the mapping step, keeping created tables on failure |
| `AddressSpace.Space.AllocateAndMap` | src/process.rs:430-436 | performs the allocate-and-map step, the dropped frame counted as lost |
| `AddressSpace.Space.MapPages` | src/process.rs:423-440 | the page loop performs the range mapping step |
| `AddressSpace.Space.UnmapAndFree` | src/paging.rs:79-90 | performs the unmap-and-free step |
| `AddressSpace.Space.UnmapPages` | src/process.rs:411-421 | the page loop performs the range unmapping step |
| `AddressSpace.Space.ZeroFrame` | src/elf.rs:154-157 | the frame is all zeros and every other byte of physical memory is unchanged |
| `AddressSpace.Space.WriteByte` | src/elf.rs:203-211 | writes exactly the one byte of physical memory behind the address, so every other mapped address reads as before, and so do free frames and memory outside the frames in play; fails iff unmapped, without effect |
| `ProcessMemory.Process.SysBrk` | src/process.rs:248-282 | performs the brk step from any memory with single ownership, keeps ownership, memory contents and, where it holds, the invariant; each new page shows what its frame held |
| `ProcessMemory.Process.MapBrkShrink` | src/process.rs:284-305 | performs the shrink step |
| `ProcessMemory.Process.SysMmap` | src/process.rs:333-378 | performs the mmap step from any memory with single ownership, keeps ownership and, where it holds, the invariant; each new page shows what its frame held |
| `ProcessMemory.Process.SysMunmap` | src/process.rs:380-409 | performs the munmap step from any memory with single ownership and keeps ownership and, where it holds, the invariant |
| `ProcessMemory.RecycledPageShowsOldBytes` | src/process.rs:423-440 | for every state: after mmap, munmap and mmap of one page, the new page has the old one's frame and reads as the old one did |
| `ProcessMemory.Process.RetainAreas` | src/process.rs:390-398 | keeps the non-matching areas in order and reports a hit iff some area matched |
| `ProcessMemory.Process.UnmapOldImage` | src/elf.rs:61-77 | performs the image-unmapping step up to 0x8000_0000_0000, and stops there with a panic iff the image end lies above |
| `ProcessMemory.Process.CoversMmapArea` | src/process.rs:215-246 | true iff one area (a writable one for writes) contains the range |
| `ProcessMemory.Process.IsReadableRange` | src/user.rs:57-70 | decides the readable predicate of `MemoryResults.ReadableExactly` in any state; where the invariant holds, an accepted range outside image and stack is mapped |
| `ProcessMemory.Process.IsWritableRange` | src/user.rs:73-92 | decides the writable predicate of `MemoryResults.WritableExactly` in any state; where the invariant holds, an accepted range outside image and stack is mapped writable |
| `ElfLoader.AllocateZeroed` | src/elf.rs:153-156 | takes the lowest free frame, zeroes it, and changes no byte outside it |
| `ElfLoader.MapOneZeroed` | src/elf.rs:153-163 | the new page reads as zeros and no byte visible before changes, also when mapping fails; frames left free and memory outside the frames in play are not written |
| `ElfLoader.MapZeroed` | src/elf.rs:150-164 | also when it stops halfway: every new page reads as zeros and no byte visible before changes; frames left free and memory outside the frames in play are not written |
| `ElfLoader.CopyFileBytes` | src/elf.rs:166-180 | copies up to the first byte that is past the file's end, not canonical or not mapped, and its error names which; no other mapped byte changes; nor does any frame left free or memory outside the frames in play |
| `ElfLoader.LoadSegment` | src/elf.rs:132-182 | whatever happens, every mapped byte is a file byte copied so far, zero on a new page, or as before; a loaded segment holds file bytes then zeros on pages with its protection; earlier pages keep mapping, and contents too when p_filesz <= p_memsz; the error is the first one met; frames left free and memory outside the frames in play are not written |
| `ElfLoader.LoadElfMapped` | src/elf.rs:79-201 | succeeds iff the headers are in order, the segments fit and one holds the header table; always: ownership, the page table that mapping the ranges of the headers tried produces, and every mapped byte accounted for as a file byte, a zero of a new page or as before (all as before on old pages when p_filesz <= p_memsz); on success: all segments mapped and loaded, none disturbed, metadata as the headers determine; on failure: the first header that cannot be loaded, its error, and how far its bytes got; frames left free and memory outside the frames in play are not written |
| `ElfLoader.JustifiedBlocks` | src/elf.rs:79-187 | a load that stops at a header with an error could not have succeeded |
| `ElfLoader.JustifiedUnique` | src/elf.rs:109-186 | the header at which a load stops and its error are determined by image and memory |
| `ElfLoader.StopsWhereJustified` | src/elf.rs:109-186 | a load that fails stops at the last header all of whose predecessors were mapped and copied |
| `ElfLoader.FileByteIs` | src/elf.rs:166-180 | of several headers whose file bytes reach an address, the last one decides it; a byte is nobody's iff none does |
| `ElfLoader.MetaStep` | src/elf.rs:132-148 | each loadable header updates image end to the maximum, rw start to the minimum and the phdr address to the last holding segment |
| `ElfLoader.PhdrTableVisible` | src/elf.rs:133-135 | AT_PHDR points at a copy of the program headers whenever the table lies in the file span of the segment holding its start and no later segment's file bytes are laid over it, or no header has p_filesz > p_memsz |
| `ElfFormat.EhdrReadBack` | src/elf.rs:79-100 | an image that carries an encoded file header gives its entry, header offset and count, and passes the header check iff its identification, type, machine and header size are the accepted numbers |
| `ElfFormat.PhdrReadBack` | src/elf.rs:111-125 | an image that carries an encoded program header gives exactly its fields |
| `ElfFormat.PhdrMeans` | src/elf.rs:132-148 | type 1 is a segment, flag 1 execute and flag 2 write; the address is vaddr plus bias modulo 2^64 and the pages are those that meet it |
| `ElfFormat.HeaderAccepted` | src/elf.rs:109-136 | an encoded header passes the loader iff it can be addressed, has alignment 0 or 4096 if it is a segment, and has its ends at canonical addresses |
| `ElfFormat.LoadsExactly` | src/elf.rs:79-187 | an encoded file can be loaded iff its identification, type, machine and header size are the accepted ones, every header passes, every segment's bytes are in the file and go to canonical addresses on mapped pages, the pages of all segments fit, and one segment holds the start of the header table |
| `ElfFormat.StopsExactly` | src/elf.rs:102-187 | a load of an encoded file stops at header i with an error iff all before it went well and the error is that of the first thing wrong with it, in this order: its place, its alignment, its addresses, its pages, its bytes |
| `ElfFormat.CopyErrorMeans` | src/elf.rs:166-180 | copying stops at the first byte that is past the end of the file, at no address of the machine or on no mapped page, and the error is the first of these that holds |
| `ElfFormat.LoadedAsWritten` | src/elf.rs:79-201 | once such an image is loaded, byte j of a segment at p_vaddr plus bias is byte p_offset + j of the file up to p_filesz and zero up to p_memsz |
| `ElfFormat.MetaAsWritten` | src/elf.rs:132-201 | of an encoded file the loader reports the entry plus bias, the header count, 56, the header table's place by the last segment that holds it, the largest segment end, and the lowest start of a writable segment or 0x401000 |
| `Basics.WordsAre` | src/elf.rs:86-125 | two, four and eight bytes read least significant first |
| `Basics.LeRoundTripBack` | src/elf.rs:265-282 | the bytes of the number that bytes spell are those bytes |
| `ExecStack.PadTo` | src/elf.rs:237-243 | pads with zeros up to the alignment |
| `ExecStack.ZeroedTables` | src/elf.rs:222-243 | argc followed by zeroed tables, up to the 16-byte aligned string area |
| `ExecStack.AppendStrings` | src/elf.rs:245-260 | every string lies NUL-terminated at its offset and the recorded pointers are those offsets |
| `ExecStack.PatchTable` | src/elf.rs:265-272 | the words of the table are the given ones and no byte outside the table changes |
| `ExecStack.BuildVector` | src/elf.rs:218-287 | overflows iff the layout exceeds the page, otherwise yields the initial stack of section 3.4.1 of the AMD64 psABI, with all padding zero |
| `ExecStack.InitialStackUnique` | src/elf.rs:218-287 | arguments and image determine every byte of the initial stack |
| `ExecStack.BuildExecStack` | src/elf.rs:218-292 | fails iff the layout exceeds the page or the stack page is unmapped, and then changes nothing; otherwise memory holds the initial stack at a 16-byte aligned pointer and no byte outside it changes, in a free frame or outside the frames in play included |
| `ProgramStart.StackSizeIs` | src/elf.rs:218-262 | a layout takes 8 (argc + envc + 3) + 96 bytes rounded up to 16, and each string with its NUL rounded up to 8 |
| `ProgramStart.AuxBuilt` | src/elf.rs:273-288 | walking tag and value words up from 0x401000 + 8 (argc + envc + 3) on a built stack gives tag 3 with the header address, 4 with their size, 5 with their number, 6 with 4096 and 9 with the entry, and then ends |
| `Exec.LoadElfExec` | src/elf.rs:49-59 | succeeds iff dropping the old image does not stop the kernel, the new one can then be loaded, the layout fits and the stack page is there; always a run of memory calls on the ranges of the headers tried, with every mapped byte accounted for, the bytes that survive the drop unchanged when p_filesz <= p_memsz, and the old bounds kept iff the load failed; on success the stack for these arguments and this image is in place, and so are the segments outside the stack page; each failure has its cause; frames left free and memory outside the frames in play are not written |
| `Exec.SegmentsOutliveStack` | src/elf.rs:49-59 | building the stack leaves every loaded segment outside the stack page intact |
| `Exec.ExecArgumentsMean` | src/process.rs:581-611 | -14 when the six path bytes may not be read, -2 for any bytes but 47 105 110 105 116 0, and otherwise the two vectors that lie at the pointers, empty for a null one |
| `Exec.ExecArgumentsFail` | src/process.rs:594-601 | with the right path, exec returns e iff the argv vector is refused with e, or argv can be read and envp is refused with e |
| `Exec.SysExecve` | src/process.rs:581-620 | bad arguments leave the process unchanged and return their errno; otherwise the call is a run of memory calls on the headers' ranges and enters the new image iff exec can succeed; every mapped byte and the image bounds are then as `Exec.LoadElfExec` says, for every outcome; on entry the segments outside the stack page are in memory, and argc, both vectors and the auxiliary vector (header address, 56, header count, 4096, entry) are on the new stack at 0x401000; the kernel stops iff the drop or the load panics; every other failure is -8; frames left free and memory outside the frames in play are not written |
| `Exec.ExecKeepsInv` | src/elf.rs:49-77 | an exec whose image has no segment in the brk window, while the old image reaches neither heap nor areas, keeps the memory invariant, succeed or fail |
| `Boot.MapUserBlob` | src/user.rs:136-157 | maps the text page with the built-in program at its start, or fails as the mapping step does; no other byte changes, and the rest of the page shows what its frame held |
| `MachineFacts.BootPages` | src/user.rs:110-157 | at boot the page 0x401000 is added writable and not executable, and the built-in program's page 0x400000 executable and not writable |
| `Boot.BootSteps` | src/main.rs:115-128 | from any memory, boot keeps every frame accounted for and every earlier page, maps the stack page, and maps no other page than those of stack, text and image |
| `Boot.BootProcess` | src/main.rs:115-131 | from any memory with single ownership: panics iff the stack or the built-in text cannot be mapped or the load panics, and loads init iff it can be loaded; otherwise stack and image, or the built-in program, are in place with their bounds, every other mapped byte is accounted for, on the rest of the built-in text page as what its frame held, frames left free and memory outside the frames in play are not written, and what was mapped before reads as before when p_filesz <= p_memsz; if no segment lies in the heap or mmap window the boot conditions hold |
| `Boot.BootKernel` | src/main.rs:40-131 | the same from the memory map, with the kernel heap mapped first: the frames in play are the boot frames |
| `Boot.BootRunsImage` | src/main.rs:115-131 | after such a boot all earlier pages, the pages of the image and the stack are mapped, the stack is no part of the image, and the stored image end is the largest segment end |
| `ReExec.ReExecExactly` | src/elf.rs:61-77 | exec of the running image can succeed iff the image is exactly the page 0x400 and the arguments fit the stack page |
| `ReExec.EveryExecExactly` | src/process.rs:581-620 | the same for every exec of every run from boot, whatever calls, forks, reaps and other execs, failed or not, came before |
| `ReExec.ExecHappens` | src/process.rs:581-620 | the exec call on the mutable process, its arguments read, leaves memory, heap end, areas and image end exactly as the exec step of those runs does, and every other process's bookkeeping alone; with arguments that cannot be read it is no step at all |
| `ReExec.MachineFrames` | src/elf.rs:49-164 | in every run of calls, forks, reaps and execs: single ownership, a constant set of frames in play, and as many lost frames as calls and loads were refused inside `map_to` |
| `ShippedImage.ShippedBoots` | src/heap.rs:19-46 | with 74 usable frames or more the kernel heap, the user stack and the shipped image, header page included, are mapped, and all but 74 frames stay free |
| `ShippedImage.ShippedFields` | src/main.rs:116 | the 120 header bytes of the shipped file, written out, are one segment with all rights, offset 0, address 0x3ff000 and size 0x100b, entry 0x400000 |
| `ShippedImage.ShippedLoads` | src/main.rs:115-121 | on every memory map with frames for it, that file can be loaded at boot |
| `ShippedImage.ShippedNeverExecs` | src/elf.rs:61-77 | in every run from a memory with its header page mapped, whatever the processes do, exec of the shipped image cannot succeed, and each attempt leaves the text page unmapped |
| `ShippedImage.ShippedForkBreaks` | src/process.rs:464-480 | on every memory map with 76 usable frames or more, the shipped kernel reaches that state: mmap, fork, munmap by the child, and the parent's check accepts an unmapped page |
| `ShippedRuns.ShippedBounds` | src/elf.rs:132-201 | the loader reports 0x3ff000 as start of the writable part of the shipped image, and 0x401000 is stored as its end |
| `ShippedRuns.BootShipped` | src/main.rs:40-131 | on every memory map with 74 usable frames or more, booting the shipped file starts its first process in the state from which the runs of the shipped kernel start |
| `ShippedRuns.ShippedOverRuns` | src/elf.rs:49-77 | in every run of the shipped kernel the text page 0x400 is mapped iff no exec has been attempted; pages 0x3ff and 0x401 are always mapped, page 0x403 never, and the bounds do not move |
| `ShippedRuns.ExecLosesFrame` | src/elf.rs:152-163 | in every run of the shipped kernel each exec attempt unmaps the text page if it is there and loses exactly the lowest free frame if there is one then, as there always is at the first attempt; it changes nothing else |
| `ShippedRuns.ImageChecksSoundUntilExec` | src/user.rs:57-92 | in every run of the shipped kernel everything the image part of the read check accepts is mapped, and of the write check mapped writable, iff no exec has been attempted; the text page is accepted by both all along |
| `ShippedRuns.HeaderPageWriteOnly` | src/user.rs:62-91 | in every run of the shipped kernel the page 0x3ff000 is accepted for writing and refused for reading |
| `PtrVec.ReadUserCString` | src/process.rs:642-655 | the byte loop computes the string scan, with its outcomes, the overflow of the address included |
| `PtrVec.ParseUserPtrvec` | src/process.rs:622-640 | the pointer loop computes the vector scan; an overflowing table address or a misaligned word halts, as in a build with checks |
| `ProgramStart.CStringMeans` | src/process.rs:642-655 | a string is read iff it lies at the pointer in readable bytes, ends in a NUL or fills the cap, and is UTF-8; -22 iff it is not UTF-8 |
| `ProgramStart.PtrVectorMeans` | src/process.rs:622-640 | a null vector is empty; any other is read iff pointers to its strings, least significant byte first, lie there, ended by a NULL or by the limit |
| `ProgramStart.CStringFaults` | src/process.rs:642-655 | a string gives -14 iff an unreadable byte comes before a NUL and before the cap; the only other code is -22 |
| `ProgramStart.PtrVectorFails` | src/process.rs:622-640 | a vector is refused with e iff behind entries that can be read one cannot: its word is unreadable and e is -14, or its string is refused with e |
| `ProgramStart.ReadBytesMean` | src/process.rs:629-653 | reading bytes gives exactly the bytes mapped there |
| `ProgramStart.ReadWordMeans` | src/process.rs:629-632 | reading a word anywhere gives the sum of its eight bytes with weights 1 to 2^56, the first being the least significant; it fails iff one of them is not mapped |
| `Utf8.Utf8Exactly` | src/process.rs:654 | bytes pass for text iff they encode a sequence of Unicode scalar values |
| `PtrVec.ScanBuilt` | src/process.rs:642-653 | scanning a string the builder wrote yields it up to the first NUL or the cap |
| `PtrVec.VectorRoundTrip` | src/process.rs:622-655 | parsing a built pointer table returns the truncated strings, and the original vector iff count, lengths and NUL-freeness are within limits |
| `PtrVec.ExecStackRoundTrip` | src/elf.rs:218-292 | parsing the argv and envp tables of a built stack returns argv and envp iff there are at most 32 and 16 strings, NUL-free and of at most 256 bytes; argc is at the stack pointer |
| `PtrVec.ParsedSurvives` | src/process.rs:622-655 | whatever the parser accepts, from any memory, is valid UTF-8 and within the limits of the round trip |
| `PtrVec.ExecPassesArguments` | src/process.rs:594-611 | for every memory and every pair of pointers, parsing the vectors, building the stack and parsing it again returns what was parsed first, with argc at the stack pointer |
| `PtrVec.BuildAndReadBack` | src/elf.rs:218-292 | building into memory and parsing from it returns the vectors iff they are within the limits, and builds iff they fit and the stack page is mapped |
| `SyscallContext.SavedRecord` | src/task.rs:48-60 | after an entry, the record taken at top-80 holds each register one field off, for any memory elsewhere |
| `SyscallContext.RestoredRecord` | src/task.rs:63-77 | a frame laid out at top-88 pops each field one register off |
| `SyscallContext.ShiftsCancel` | src/syscall.rs:21-58 | the composition restores rip, rsp, rflags, rbx, rbp, r12, r13 and the return value; r14 and r15 survive iff they were the entry stack top and zero |
| `SyscallContext.CalleeSavedLost` | src/syscall.rs:23-33 | concrete r14 and r15 values that do not survive a call, on any page-aligned stack |
| `SyscallContext.Cpu.SyscallEntry` | src/syscall.rs:21-34 | the pushes leave the entry frame below the stack top and rsp at top-80 |
| `SyscallContext.Cpu.RestoreToKstack` | src/task.rs:63-77 | writes the eleven-word frame from top-88 and nothing else |
| `SyscallContext.Cpu.SyscallUserReturn` | src/syscall.rs:47-58 | the pops and sysret give the user state read from the words above rsp |
| `SyscallContext.Cpu.CallAndResume` | src/syscall.rs:21-58 | a whole call, entered on one stack top and restored on any other with memory rewritten in between, returns to the entry state with its own result in rax, the entry top in r14 and zero in r15 |
| `SyscallContext.Cpu.Resume` | src/scheduler.rs:118-135 | laying out a record and returning gives the user state the record determines, whatever memory held |
| `Scheduler.FirstFree` | src/process.rs:78-83 | the first empty slot, with every earlier slot occupied |
| `Scheduler.FreePid` | src/process.rs:545-555 | the least pid of the candidate range that no process has |
| `Scheduler.ReapSlot` | src/process.rs:557-579 | a slot found holds an exited child of the caller that the target admits |
| `SchedulerRuns.BootGood` | src/process.rs:93-105 | the boot state satisfies the scheduler invariant for any stored stack top, related to the process's own or not; its one process has pid 1, no parent, slot 0 of 32, its entry point and stack 0x402000 |
| `SchedulerRuns.PidAlwaysFree` | src/process.rs:545-555 | a table of at most 32 slots always leaves a candidate pid, so `alloc_pid` never fails |
| `SchedulerRuns.CompleteGood` | src/scheduler.rs:86-97 | completing a call keeps the invariant and resumes the front of the queue on its own stack, rotated iff a reschedule was due |
| `SchedulerRuns.ExitGood` | src/scheduler.rs:68-76 | an exit removes exactly the front of the queue and resumes the next process, or idles when none is left |
| `SchedulerRuns.DispatchKeeps` | src/syscall.rs:88-110 | every call keeps the invariant and the running process, and panics iff it is a fork whose stack could be prepared and the table is full |
| `SchedulerRuns.GoodOverRuns` | src/scheduler.rs:36-117 | at every event boundary of every run: no duplicates in the queue, exactly the live slots, front equals current, distinct pids, nobody its own parent, fresh slice |
| `SchedulerRuns.PanicAndIdleExactly` | src/scheduler.rs:99-120 | the kernel panics iff a fork whose stack could be prepared finds the table full, idles iff no live process is left, and otherwise resumes a live process |
| `SchedulerRuns.BoundedWait` | src/scheduler.rs:57-64 | a process at index j runs after exactly j switches, whatever ticks, forks, waits and other calls come in between |
| `SchedulerRuns.SliceEndsOnTime` | src/scheduler.rs:36-64 | a call completing 12 or more ticks after the last rotation always rotates and restarts the clock |
| `SchedulerRuns.NoEarlySwitch` | src/scheduler.rs:36-42 | until 12 ticks have come since the slice began, ticks and calls that neither yield, fork nor exit switch nothing |
| `SchedulerRuns.TicksCounted` | src/scheduler.rs:36-42 | over every run the clock advances by the number of timer interrupts, idle ones included, and by nothing else |
| `SchedulerRuns.PreemptedAfterTwelveTicks` | src/scheduler.rs:36-97 | once 12 timer interrupts have come since a slice began, the next call that returns sends the caller to the back, and whoever waited behind it runs with a fresh slice |
| `SchedulerRuns.SliceIsTwelveTicks` | src/scheduler.rs:36-97 | a process that neither yields, forks nor exits gives way at a call iff 12 interrupts have come since its slice began |
| `SchedulerRuns.NoSliceAfterExit` | src/scheduler.rs:66-97 | after an exit the next process runs with a reschedule due and the old slice's start, so whatever ticks come its first call that returns sends it to the back, and whoever waited behind it runs with a fresh slice |
| `CallResults.TurnStartsSlice` | src/scheduler.rs:36-97 | whoever runs after a yield, a fork that returns a pid or any call with a reschedule due has a slice that starts at that tick: as long as it neither yields, forks nor exits it gives way at a call iff 12 interrupts have come |
| `CallResults.CallsThatTurn` | src/scheduler.rs:44-97 | the queue turns at the end of a call iff a reschedule was due before it, it is a yield, or it is a fork that returns a pid |
| `SchedulerRuns.RotatesToBack` | src/scheduler.rs:57-97 | a call that returns with a reschedule due leaves the queue as it was with the caller moved from front to back |
| `SchedulerRuns.PickTakesFirstAlive` | src/scheduler.rs:99-117 | from any state, the first living process of the queue is picked and those in front of it dropped; with none alive the kernel idles |
| `SchedulerRuns.OthersKeepEntry` | src/process.rs:164-171 | no event changes the table entry of a live process that is not running |
| `SchedulerRuns.ContextSurvives` | src/scheduler.rs:86-135 | over every run, a process resumes from any call but exit with rip, rsp, rflags, rbx, rbp, r12, r13 as it entered, its own return value, the entry stack top in r14 and zero in r15 |
| `SchedulerRuns.TrapResumesOnOwnStack` | src/process.rs:111-118 | after any trap the process that resumes has its own kernel stack stored for the next entry |
| `SchedulerRuns.OwnStackOverRuns` | src/process.rs:93-118 | in every run with at least one call, whatever top boot stored, the next call enters on the running process's own stack |
| `CallResults.Tail` | src/scheduler.rs:86-135 | a call that returns stores its record and result with the caller and changes the table no further; the queue turns, and a slice starts, iff a reschedule is due; the front of the queue runs on its own stack with no reschedule due and the clock unmoved |
| `CallResults.OtherEvents` | src/scheduler.rs:36-42 | a timer interrupt advances the clock by one and asks for a reschedule 12 ticks after the slice began, also while idling; calls reach neither an idle processor nor a stopped kernel |
| `CallResults.ForkReturns` | src/process.rs:443-495 | with a frame whose pointer is below 0x402000, fork returns the least pid from 2 to 1023 that nobody has; exactly one entry has it, in the lowest empty slot, with the caller as parent, the frame with its pointer moved up by 0x1000, and 0 as its own result, queued in front of the caller; whoever was second runs with a slice that starts now |
| `CallResults.ForkReturnsTwice` | src/process.rs:443-495 | whatever happens until then, the parent resumes with the new pid in rax and the child from its frame with 0, its stack pointer being the frame's instruction pointer field |
| `CallResults.ForkRefused` | src/process.rs:446-458 | -12 and no new process when the stack cannot be prepared or the frame's pointer is at or above 0x402000; otherwise a panic iff all 32 slots are taken |
| `CallResults.YieldReturns` | src/syscall.rs:99-102 | yield returns 0, puts the caller last and runs whoever was second with a slice that starts now |
| `CallResults.ExecAndOthersReturn` | src/process.rs:581-620 | exec returns 0 or its error, every other call its own result; only the caller's entry changes |
| `CallResults.ExitLeaves` | src/scheduler.rs:68-76 | exit stores the code with the caller, takes it off the queue and runs whoever was second on its own stack, or idles; a reschedule is due and the clock and the slice's start stay |
| `CallResults.WaitReturns` | src/syscall.rs:122-135 | wait frees the lowest slot of an exited child below which every child has exited and returns its pid, the target if one is named, or -14 for a bad pointer; with no such slot it returns -11 and changes nothing |
| `ProcessHistory.StepWrites` | src/process.rs:164-171 | an event leaves in a live entry the caller's own trap record, or the frame of the fork that made it, or what was there |
| `ProcessHistory.ResumesOwnRecord` | src/scheduler.rs:86-135 | in every run from boot with at least one call, each live process holds the record of its own last call or its fork's frame; neither the bootstrap record nor exec's frame is ever resumed |
| `ProcessHistory.ResumesOwnRegisters` | src/scheduler.rs:99-135 | so the running process has the registers of its own last call with result, entry top and zero in rax, r14 and r15, or those its fork's frame determines |
| `SchedulerRuns.WaitFinds` | src/process.rs:557-579 | wait succeeds iff a matching exited child has no living sibling child in a lower slot, and takes the lowest such |
| `SchedulerRuns.FailedWaitLosesChild` | src/syscall.rs:122-135 | the table changes iff a child can be reaped, also when the bad status pointer turns the result into EFAULT |
| `ProcessHistory.BadStatusLosesChild` | src/syscall.rs:122-135 | a run from boot of a fork and an exit after which wait4 with a bad pointer returns EFAULT and the child's slot is empty |
| `SchedulerRuns.StatusesConserved` | src/process.rs:557-579 | over every run, exit statuses are those that waits reported, those that waits with a bad pointer dropped and those still in the table; none is reaped twice |
| `ProcessHistory.LineageOverRuns` | src/process.rs:443-495 | over every run, a child whose forker is still in the table names that process's pid as its parent |
| `ProcessHistory.ReaperIsForker` | src/process.rs:557-579 | in every run from boot, the process that reaps a child is the one that forked it iff the forker is still in the table |
| `ProcessHistory.StrangerReaps` | src/process.rs:545-579 | for every frame with which a fork can succeed, a run from boot of seven calls after which a process with a reused pid reaps a child that an earlier process forked |
| `ProcessHistory.FirstReapsItsOwn` | src/process.rs:545-579 | in every run from boot in which only pid 1 forks, the process that reaps a child is the one that forked it |
| `KernelTables.Tables.AllocSlot` | src/process.rs:78-90 | the first empty slot, a new one while the table is short, and failure iff the table is full |
| `KernelTables.Tables.AllocPid` | src/process.rs:545-555 | the search computes the least unused pid |
| `KernelTables.Tables.WaitReap` | src/process.rs:557-579 | the scan frees exactly the slot the specification finds and returns its pid and status |
| `KernelTables.Tables.SetSyscallSaved` | src/process.rs:164-171 | changes only the saved record and pending result of the slot |
| `KernelTables.Tables.OnTimerTick` | src/scheduler.rs:36-42 | performs the tick step, which `SchedulerRuns.TicksCounted` and `SchedulerRuns.SliceIsTwelveTicks` count out |
| `KernelTables.Tables.EnqueueNewTask` | src/scheduler.rs:48-55 | performs the enqueue step |
| `KernelTables.Tables.RotateRunnable` | src/scheduler.rs:57-64 | performs the rotation step |
| `KernelTables.Tables.PickNextAndRestore` | src/scheduler.rs:99-135 | the loop drops exited processes off the front, stores the next one's stack top and returns to user mode with the registers its record determines, or idles |
| `KernelTables.Tables.SetCurrentSlot` | src/process.rs:111-118 | the slot is current and its process's stack top, if there is one, is stored for the next entry |
| `KernelTables.Tables.CompleteSyscallAndSchedule` | src/scheduler.rs:86-97 | performs the completion step with the record read off the stack at rsp, and returns with the registers of the process picked |
| `KernelTables.Tables.ExitAndSchedule` | src/syscall.rs:116-120 | performs the exit step and returns with the registers of the process picked |
| `KernelTables.Tables.SysFork` | src/process.rs:443-495 | performs fork's effect on table and queue, the refusal of a pointer at or above 0x402000 and the failing unwrap included, and returns what `CallResults.ForkReturns` says |
| `KernelTables.Tables.SysWait4` | src/syscall.rs:122-135 | performs the wait step with its three results and writes the reaped child's exit code through a good pointer, nothing otherwise |
| `KernelTables.Tables.DispatchCall` | src/syscall.rs:88-110 | performs the dispatch step of every call but exit, the failing unwrap included |
| `KernelTables.Tables.HandleTrap` | src/syscall.rs:21-58 | from the caller's registers at the syscall instruction, over the stored stack top, to the registers of the process that resumes, a trap performs one step of the run system |
| `Keyboard.ScancodeQueue.TryPush` | src/keyboard.rs:37-45 | appends iff fewer than 255 bytes are queued, across wrap-around; a refused push changes nothing |
| `Keyboard.ScancodeQueue.TryPop` | src/keyboard.rs:47-54 | removes and returns the oldest byte, or nothing from an empty ring |
| `Keyboard.RingIsFifo` | src/keyboard.rs:28-55 | over every push/pop sequence, popped bytes followed by the contents are the accepted bytes in order, and at most 255 are held |
| `Keyboard.PlayRing` | src/keyboard.rs:37-54 | the array ring, driven by any push/pop sequence, accepts and returns exactly the bytes of the run and ends with its contents |
| `Tty.KeysAreAscii` | src/keyboard.rs:139-236 | every mapped key, shifted or not, is ASCII, so its encoding is one byte |
| `KeyFacts.ShiftedLetters` | src/tty.rs:121 | with shift held every letter key gives its capital |
| `KeyFacts.EraseUndoesAppend` | src/tty.rs:86-97 | Backspace takes back the key before it below 1024 bytes; at 1024 a key adds nothing |
| `KeyFacts.TextAsTyped` | src/tty.rs:89-97 | text without Enter and Backspace is in the buffer as typed, up to 1024 characters |
| `KeyFacts.LinesAsTyped` | src/tty.rs:78-97 | of texts of at most 1024 characters without Enter and Backspace, each ended with Enter, every one is a line, its codes followed by 10, and text behind the last Enter is the edit buffer |
| `KeyFacts.StreamAsTyped` | src/tty.rs:37-99 | a scancode stream that types such texts, whatever shifts, releases and extended codes are in it, leaves exactly these lines ready and the last text in the buffer; without Enter nothing is ready |
| `KeyFacts.FeedKey` | src/tty.rs:70-98 | Enter queues the line with a newline below 128 lines and drops it from there on, Backspace shortens it by its last byte, and every other key, Tab and Escape included, lengthens it by its code below 1024 bytes and does nothing from there on |
| `KeyFacts.FeedOther` | src/tty.rs:38-77 | an extended code is swallowed with its prefix, the shift keys set and clear their flags, and other releases and keys without a character do nothing |
| `KeyFacts.TypesHi` | src/tty.rs:37-99 | Shift-h, i, Enter queue the bytes 72 105 10 |
| `KeyFacts.TypesTab` | src/tty.rs:37-99 | a, Tab, b, Enter queue the bytes 97 9 98 10 |
| `Tty.TtyState.FeedScancode` | src/tty.rs:37-99 | performs one step of the state machine |
| `Tty.TtyState.Read` | src/tty.rs:132-143 | returns at most one chunk, puts the unread rest back, and EAGAIN only when empty and non-blocking |
| `Tty.StripSnoc` | src/tty.rs:38-49 | the prefix flag tracks exactly the E0 bytes that swallow their successor |
| `Tty.FeedReflects` | src/tty.rs:37-99 | one scancode moves flags and edit buffer as the declarative reading of the longer stream demands and queues the completed line iff there is room |
| `Tty.SessionReflects` | src/tty.rs:37-99 | for every interleaving of scancodes and reads, shift, prefix and edit buffer are the declarative reading of the scancodes |
| `Tty.ScanQueuesTypedLine` | src/tty.rs:79-85 | in every session an Enter queues exactly the line typed, iff fewer than 128 are queued |
| `Tty.UnreadQueue` | src/tty.rs:79-85 | without reads the queue is the first 128 typed lines |
| `Tty.ReadConserves` | src/tty.rs:132-143 | a read takes as much of the first chunk as it has room for, nothing of the next, and nothing only when the queue is empty or it has no room |
| `Tty.StreamConserved` | src/tty.rs:78-143 | for every session, bytes returned followed by queued chunks are the accepted lines in order; chunks end in their only newline and at most 128 are queued |
| `Tty.PlaySession` | src/tty.rs:37-143 | a fresh TTY, driven by any scancodes and reads, ends in the state of the session and has handed out its bytes |

## Left out

- Memory of forked processes: which process an area or a heap page should belong to after a fork is not stated, because the source copies the lists.
- UserMemory.AccessChecksSound: covers the heap and mmap parts of the range checks; the image part treats the image as one gap-free interval, which the loader does not enforce.
- UserMemory.MmapKeepsInv: the mmap bump pointer is an unbounded number; its wrap after 2^64 is not modelled.
- ElfLoader.LoadElfMapped: sums are checked as in a build with overflow checks; a build without them wraps where this model panics. A segment that starts in the lower half of the address space and ends in the upper one is mapped page number by page number until the frames run out; what the x86_64 crate's page iterator does at the gap between the halves is not part of this model.
- PtrVec.ParseUserPtrvec: overflowing address sums and misaligned word reads halt, as in a build with debug checks; a build without them wraps and reads on.
- KernelTables.Tables.SysFork: the child's register frame is an input, because the source takes it from whatever rsp is inside `sys_fork`; that pages and bytes for the child's stack were there is an input here and decided by `ForkStack.MapChildStackAndCopy`.
- SyscallContext.Cpu.SyscallUserReturn: `sysretq` loads rflags from r11 unchanged, which holds for flag values a user program can have; kernel stacks are read and written in whole aligned words.
- Boot.MapUserBlob: the source fills the frame before it maps it; the two orders differ only in a frame that a panic leaves behind.
- Boot.BootKernel: the pages of the bootloader and the two frames that src/main.rs takes and gives back as a self-test are left out; `Boot.BootProcess` starts from any memory.
- The x86_64 crate: `map_to`, `unmap` and `translate_addr` are modelled by their contract on 4 KiB pages, and an address in neither half of the address space as a panic; huge pages, TLB flushes and the contents of page-table frames are not.
- TOTAL_USABLE, the debug accessors of the allocator and the linked-list heap: bookkeeping that no other result needs.
- Interrupts that arrive while a lock is held: each lock-protected operation is one step.
- `src/fs.rs`, `nanosleep`, the rest of boot, GDT, IDT, PIC, PIT, serial and VGA: device setup and I/O.
