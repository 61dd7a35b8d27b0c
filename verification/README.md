# GreenwoodOS: a verified model of its core algorithms

This project models the parts of GreenwoodOS whose correctness is least visible from one function
body, and proves what they promise. `dafny verify dfyconfig.toml` checks everything.

Code that changes state is modelled as methods and classes with the same fields, buffers, loops and
early exits. Each method is proved against a specification on plain values, and what the system
promises is proved about that specification, over all inputs and, where state is involved, over all
runs. Where the code does not do what it is meant to do, the model keeps the code and a theorem says
exactly when the intended behaviour is met.

| Files | What they model |
|---|---|
| `Ext2Volume` | the drive as an array of blocks, the one scratch buffer all operations share, and the inode table |
| `Ext2Cursor`, `Ext2Read`, `Ext2Write`, `Ext2File` | the cursor that `ext2_read` and `ext2_write` step through direct, single- and double-indirect pointers; the closed form of the block map; files as byte sequences |
| `Ext2Alloc`, `Ext2Inode` | bitmap allocation of blocks and inodes, creation of an inode, growth of a file |
| `Ext2Dir` | the chain of directory records: lookup and append |
| `Scheduler`, `SchedulerLaws`, `SchedulerKernel` | the task table, the timer switch and the program window as a state machine; what its steps mean over runs; and the code on its arrays |
| `Viewports`, `ViewportTable` | the desktop's window order with its mutually recursive closing and event delivery, and the tables behind it |
| `Memory`, `MemoryTable` | the 4 MiB region table kept in step with the page directory |
| `Chdir` | changing directory: the in-place path normaliser and the absolute branch |
| `Lexer` | the init-script lexer |
| `Fft` | the in-place FFT in which data and scratch buffer swap roles at each level |
| `Line` | all-octant Bresenham lines |
| `Random` | the linear congruential generator |
| `Tetris` | line clearing, placing and moving pieces |
| `Checksum` | the two computations of the Internet checksum (RFC 1071, section 1; RFC 791, section 3.1) |
| `Pipe` | the pipe buffer |
| `Arithmetic`, `Bytes`, `Options` | facts about quotients; little-endian fields in byte sequences; optional values |

## Main results

- **A file is a byte sequence.** Writing, seeking back and reading returns the data, every other byte
  of the file and every other block is unchanged but the one holding the inode, and the size of a file
  of fewer than 12 blocks becomes the larger of the old size and the end of the write, while nothing else
  of its inode and no other inode changes (`Ext2File.Write`, `Ext2File.WriteSeekRead`). A new file is one that can be so written, and creating and writing it leaves
  the data of all other files alone (`Ext2File.CreatedIsOwned`, `Ext2File.CreateWriteRead`). The
  cursor visits consecutive blocks of the file, from any start, if and only if the call starts before the
  last single-indirect block, or stays inside that one, or starts in the double-indirect range at an
  entry other than the last of a table whose index survives a reduction modulo 255
  (`Ext2Cursor.CursorFollowsMap`).
- **Allocation is safe exactly while the free blocks last**: over every run of allocations and stores,
  the blocks handed out were free and are pairwise different if and only if the run asks for no more
  blocks than are free (`Ext2Alloc.RunFreshExactly`); no marked block that its holder leaves alone then
  changes (`Ext2Alloc.RunSafe`). A full volume hands out block 0 and zeroes it
  (`Ext2Alloc.FreshExactlyWhenNotFull`); growing a file skips its first new block
  (`Ext2Inode.FirstNewBlockSkipped`, `Ext2Inode.GrowthCovered`).
- **Tasks are isolated over every run** of starts, stops, waits, schedule changes and ticks: a resumed
  task finds its registers and FPU image as it left them (`Scheduler.Isolation`,
  `Scheduler.ResumeRestores`), and a task that stays eligible runs within `MAX_TASKS - 1` unlocked ticks
  (`Scheduler.BoundedWaiting`). The running program stays mapped at page 0 all through a run if and only
  if no start gives the running entry to a program that is not mapped (`Scheduler.MappedAlways`); a start
  into the running entry loses the new task's entry context unless the CPU holds the same
  (`Scheduler.EntryContextKept`).
- **A started program runs** within `MAX_TASKS - 1` unlocked ticks, at its entry address and on its own
  stack, unless it is stopped, suspended or made to wait (`SchedulerLaws.StartedRuns`); a stopped one never
  runs again until its entry is given away (`SchedulerLaws.StopIsFinal`). Programs in different slots never
  see the same memory at page 0 (`Scheduler.SlotsNeverShare`).
- **No window of a living program is lost** over any run of opens, closes, clicks and events unless it
  is closed itself, from its opening on (`Viewports.RunKeepsLiving`, `Viewports.OpenedStays`), although every event may close any number of windows
  of dead programs (`Viewports.SettleFront`).
- **The two memory tables agree over every run** of identity-mapped allocations and releases
  (`Memory.AgreeAlways`, `Memory.LiveIsMapped`), and every byte asked for stays usable and nobody else's
  until it is released (`Memory.AllocationLasts`); they do at boot exactly when `Memory.BootAgrees` says.
- **`fft` is the discrete Fourier transform** of all inputs of a length exactly when the length is a
  power of two (`Fft.ExactLengths`).
- **The generator has full period** and each value 0..32767 occurs exactly 2^17 times in it
  (`Random.FullPeriod`, `Random.PeriodIsAPermutation`, `Random.Equidistributed`).
- **Lines** end on their end point, never leave half a pixel, and look the same drawn backwards exactly
  where no tie occurs (`Line.HalfPixel`, `Line.Reversed`). A buffer of width times height cells holds a
  line exactly when no point of it that passes the bounds test lies on the row below or just behind the
  last pixel (`Line.FrameHoldsLine`).
- **Directories** keep their entries: making one adds it to the list, so that it is found and every other
  lookup answers as before (`Ext2Dir.MakeDirEntry`, `Ext2Dir.MakeAndLookup`).
- **Paths**: changing directory along a relative path refines a stack of segments and composes
  (`Chdir.Directory.Chdir`, `Chdir.ChdirComposes`); along an absolute path it does so exactly when that has
  no empty or dot segments (`Chdir.EnteredIsDirectory`, `Chdir.AbsoluteIsWalk`). **Scripts**: rendering
  and lexing is a round trip (`Lexer.RenderLexRoundTrip`).
- **Tetris**: over any game the cells on the board are at most four per piece less ten per cleared line,
  and exactly that many if and only if every piece came to rest where it fits, below the upper edge
  (`Tetris.CellsAreConserved`). **Checksums**: the one in `checksum.c` is that of RFC 1071 exactly when no
  overflow of its accumulator shows, in particular up to 131074 bytes, and an IPv4 header adds up to
  0xFFFF exactly with the stored checksum or the other zero (`Checksum.NetChecksum`,
  `Checksum.HeaderAccepted`). **Pipes** deliver what they accept, in order (`Pipe.BytesAreConserved`).

## Where the code and its intention part

| Behaviour of the code | Theorem |
|---|---|
| a call that starts in the last single-indirect block and runs past it reads disk block 0 next and stays one block behind; a start in the double-indirect range takes its table index modulo 255, and at the last entry of a table it looks one entry in front of one | `Ext2Cursor.CursorFollowsMap`, `Ext2Cursor.TableAstray` |
| seeking from the end adds the size to the head, so it lands at the end only from the start of the file | `Ext2Read.EndSeek` |
| `ext2_extendFile` stores the new pointers one place too far | `Ext2Inode.FirstNewBlockSkipped`, `Ext2Inode.GrowthCovered` |
| a full volume hands out block 0 and zeroes it | `Ext2Alloc.FreshExactlyWhenNotFull`, `Ext2Alloc.RunFreshExactly` |
| `start_task` may reuse the entry of the running task after it was stopped | `Scheduler.EntryContextKept`, `Scheduler.StartKeepsMapped`, `Scheduler.ReuseBreaks` |
| changing to an absolute path does not normalise it: empty and dot segments stay in the directory | `Chdir.EnteredIsDirectory`, `Chdir.AbsoluteIsWalk`, `Chdir.NotADirectory`, `Chdir.DotsStay` |
| `get_virtual(0)` names an empty page slot when no page maps frame 0; a frame may be handed out whose page slot maps another one | `Memory.BootAgrees`, `Memory.BootDisagrees` |
| `MEM_findRegionIdx(0)` finds nothing | `Memory.AllocateTakesLeast` |
| `fft` on other lengths than powers of two is no Fourier transform | `Fft.ExactLengths` |
| a line and its reverse differ at ties | `Line.Reversed`, `Line.TieExample` |
| the `<=` of the bounds test of a line lets through points that a back buffer of width times height cells, as filesystem/demos/boid/main.c:42-44 allocates it, does not hold | `Line.FrameHoldsLine`, `Line.BottomLineSpills` |
| the 32-bit accumulator of `NetChecksumAcc` can overflow | `Checksum.NetChecksum`, `Checksum.OverflowShows`, `Checksum.OverflowHappens` |
| a right move in Tetris tests the square below, so a piece can come to rest in the wall and lose cells | `Tetris.FallStaysValid`, `Tetris.RightMoveLeavesTheBoard` |
| a keyword glued to anything but a blank is read as an identifier | `Lexer.KeywordIsWhole` |
| a partly read pipe has no more room than before, one read empty has all of it | `Pipe.RoomNeedsDrain`, `Pipe.DrainRestores` |

## Model

| member | source | states |
|---|---|---|
| Ext2Volume.Volume.ReadBlock | src/drivers/ext2.c:3-10 | a block id up to and including the block count fills the scratch buffer with that block and zeros behind it; a larger one is refused and leaves the buffer alone |
| Ext2Volume.Volume.WriteBlock | src/drivers/ext2.c:12-18 | exactly the named block becomes the block part of the buffer, under the same guard |
| Ext2Volume.Volume.ReadInode | src/drivers/ext2.c:20-30 | the 128 bytes at the inode's place in its group's table |
| Ext2Volume.Volume.WriteInode | src/drivers/ext2.c:32-45 | read-modify-write: of all blocks only the inode's table block changes, and only in the inode's slot |
| Ext2Volume.Volume.LocateInode | src/drivers/ext2.c:21-27 | the products and quotients of the source find the block and offset given by quotient and remainder by inodes per block |
| Ext2Volume.SlotArithmetic | src/drivers/ext2.c:21-27 | why: the source's offset arithmetic is exact whenever inodes fill blocks |
| Ext2Volume.TableLayout | src/drivers/ext2.c:20-30 | inodes count from 1 and those of a group lie one behind the other in its table |
| Ext2Volume.SlotsApart | src/drivers/ext2.c:20-45 | two inodes in the same table block never overlap |
| Ext2Volume.InodeReadBack | src/drivers/ext2.c:20-45 | a written inode is what reading returns, and every other inode reads as before |
| Ext2Volume.InodeLayout | src/drivers/ext2.h:105-124 | where type, size, sector count and pointers lie in a record, least significant byte first |
| Ext2Cursor.FirstBlock | src/drivers/ext2.c:643-664 | the three opening branches load the block of position 0 and leave the cursor in step with it |
| Ext2Cursor.NextBlock | src/drivers/ext2.c:672-734 | one round of the cursor machine loads the next block of the closed form and steps regularly, across the range changes; past the end of the single-indirect table it loads block 0 |
| Ext2Cursor.LoadIndirect | src/drivers/ext2.c:676-690 | the single-indirect lookup and its index reset |
| Ext2Cursor.LoadDouble | src/drivers/ext2.c:695-703 | the two lookups of the double-indirect range |
| Ext2Cursor.NextDouble | src/drivers/ext2.c:692-716 | a double-indirect round loads the block of the closed form and advances by one |
| Ext2Cursor.CursorFollowsMap | src/drivers/ext2.c:619-738 | from whatever block it starts, a call visits consecutive file blocks if and only if it starts before the last single-indirect block, or stays inside that one, or starts in the double-indirect range at an entry other than the last of a table whose index survives the reduction modulo 255 |
| Ext2Cursor.TableAstray | src/drivers/ext2.c:653-664 | an example with blocks of 4096 bytes: a start in table 1 reads table 4 |
| Ext2Cursor.DoubleRange | src/drivers/ext2.c:653-664 | table and entry of a double-indirect block are in range and determine the block |
| Ext2Cursor.DoubleStartPlace | src/drivers/ext2.c:653-664 | where a start in the double-indirect range really lands, given the index modulo 255 |
| Ext2Cursor.SameBlockId | src/drivers/ext2.c:643-734 | a lookup depends only on the pointers and on the tables it goes through |
| Ext2Cursor.EntryLayout | src/drivers/ext2.c:676-703 | where an entry lies in a table of block pointers |
| Ext2Read.File.Seek | src/drivers/ext2.c:899-915 | the head becomes the offset, the head plus the offset, or the head plus size and offset, and is returned; any other whence gives -1 and moves nothing |
| Ext2Read.EndSeek | src/drivers/ext2.c:908-910 | a seek from the end goes to the size plus the offset if and only if the head is at the start of the file, with an example of another place |
| Ext2Read.SeeksAdd | src/drivers/ext2.c:899-908 | seeks relative to the head add up, wherever the head was put before |
| Ext2Read.Read | src/drivers/ext2.c:619-738 | for every start and length: byte j of the result is the byte of the block the cursor is at, the head advances by the count, the count falls short only where the block map ends, the rest of the caller's buffer is untouched |
| Ext2Read.ReadFrom | src/drivers/ext2.c:643-738 | the copying loop, for a start given as block and offset |
| Ext2Read.Advance | src/drivers/ext2.c:672-734 | stepping the cursor follows the positions of the call |
| Ext2Write.WriteFrom | src/drivers/ext2.c:760-882 | the volume afterwards is the old one with exactly the loaded blocks overlaid by the data, block by block, and the head advances |
| Ext2Write.StageLookup | src/drivers/ext2.c:760-882 | writing data blocks does not disturb the lookups of later blocks |
| Ext2Write.StageKeeps | src/drivers/ext2.c:760-882 | a block no load reaches is as before |
| Ext2File.DeliveredIsFile | src/drivers/ext2.c:619-738 | in an exact call what is read is the file through the closed form of the block map |
| Ext2File.ReadOwned | src/drivers/ext2.c:619-738 | a read inside the mapped blocks returns all bytes asked for, and they are the file's; the tables of the block behind need to be readable only when the call ends exactly with the last of them |
| Ext2File.Write | src/drivers/ext2.c:740-882 | exactly the bytes from the head on change, to the data; size, head and inode on disk are as promised, of the inode only the size differs, of its table block only its record; no block outside the file and that one changes |
| Ext2File.WriteData | src/drivers/ext2.c:760-882 | the same for the part after the growth step |
| Ext2File.GrowTo | src/drivers/ext2.c:746-749 | without a new block, only the inode's record changes, and in it only the size; type and sector count are as before |
| Ext2File.WriteSeekRead | src/drivers/ext2.c:619-915 | write, seek back, read: the data comes back; of the inode only the size differs, of its table block only its record, and no block outside the file and that one changed |
| Ext2File.OwnedCallWorks | src/drivers/ext2.c:619-882 | a call inside a well-formed file follows no null pointer and writes into no table |
| Ext2File.StageIsFile | src/drivers/ext2.c:760-882 | the blockwise effect of a write is the bytewise effect on the file |
| Ext2File.WrittenByte | src/drivers/ext2.c:760-882 | each byte of the file after a write is the data's or the old one |
| Ext2File.ResizeKeepsFile | src/drivers/ext2.c:746-749 | changing the size keeps the file's blocks, contents and ownership |
| Ext2File.NeighboursKept | src/drivers/ext2.c:32-45 | where only that record differs, all other inodes of the table block are as before |
| Ext2File.CreatedIsOwned | src/drivers/ext2.c:324-376 | a new regular file has that type and size and owns all its blocks, apart from its inode's table block, so it is ready to be read and written |
| Ext2File.OtherDataKept | src/drivers/ext2.c:324-882 | creating a file and writing inside it changes no block in use but the bitmaps and the table block of its inode |
| Ext2File.CreateWriteRead | src/drivers/ext2.c:324-915 | create a regular file, write from its start, seek back, read: the data comes back and the data of all other files is as before |
| Ext2Alloc.OrBitSets | src/drivers/ext2.c:410-424 | or-ing a shifted one sets exactly that bit |
| Ext2Alloc.BitIsQuotient | src/drivers/ext2.c:390-418 | bit j is the parity of the quotient by two to the j |
| Ext2Alloc.MarkSets | src/drivers/ext2.c:410-424 | marking sets exactly one bit of the bitmap |
| Ext2Alloc.FirstFree | src/drivers/ext2.c:390-405 | the first clear bit: all before it are set |
| Ext2Alloc.GetFreeBlock | src/drivers/ext2.c:379-407 | the least free block, or 0 when there is none |
| Ext2Alloc.SetBit | src/drivers/ext2.c:414-418 | reading the bitmap, setting one bit and writing it back |
| Ext2Alloc.AllocBlock | src/drivers/ext2.c:410-424 | the new volume and the block handed out |
| Ext2Alloc.AllocateTakesLeast | src/drivers/ext2.c:379-424 | while a block is free: the least one is taken, exactly its bit is set, it is zeroed, nothing else changes, and one block fewer is free |
| Ext2Alloc.FreshExactlyWhenNotFull | src/drivers/ext2.c:379-424 | the block handed out was free if and only if the volume was not full; a full one zeroes block 0 |
| Ext2Alloc.RunSafe | src/drivers/ext2.c:379-424 | over every run of allocations and stores that asks for no more blocks than are free: blocks handed out were free, are pairwise different and stay marked, and marked blocks nobody stores to keep their contents |
| Ext2Alloc.RunFreshExactly | src/drivers/ext2.c:379-424 | over every run: the blocks handed out were free at its start and are pairwise different if and only if the run asks for no more blocks than were free |
| Ext2Inode.GetFreeInode | src/drivers/ext2.c:261-288 | the least free inode from 11 on, or 0 |
| Ext2Inode.FreeInodeIsLeast | src/drivers/ext2.c:261-288 | the inode is the least clear bit from the eleventh inode on, and 0 exactly when there is none |
| Ext2Inode.AllocInode | src/drivers/ext2.c:324-376 | claims, initialises, allocates and stores the pointers as the specification says |
| Ext2Inode.CreateIsSafe | src/drivers/ext2.c:324-376 | the least free inode is used, exactly its bit is set, its blocks are distinct, were free and are zeroed, no other block becomes marked, every other inode's bytes are unchanged, the volume stays sound, and no block changes but the bitmaps, the inode's table block and the new blocks |
| Ext2Inode.CreatedFields | src/drivers/ext2.c:342-373 | type, size and pointers of the created record, zeros behind the pointers used |
| Ext2Inode.CreatedRest | src/drivers/ext2.c:342-355 | sector count, times, upper half of the size; the bytes of no written field are those found on disk |
| Ext2Inode.BlocksForBytes | src/drivers/ext2.c:360-368 | a regular file gets the blocks that hold its bytes, up to twelve, and no more than the one behind; a directory one |
| Ext2Inode.GrantSafe | src/drivers/ext2.c:360-368 | a series of allocations takes distinct free blocks and leaves all marked ones alone |
| Ext2Inode.GrantZeroes | src/drivers/ext2.c:360-368 | every granted block is filled with zeros |
| Ext2Inode.RewriteInode | src/drivers/ext2.c:32-45 | on a sound volume rewriting one inode keeps bitmaps, soundness and all other inodes |
| Ext2Inode.ExtendFile | src/drivers/ext2.c:500-523 | the growth step as the code performs it: size and sector count grow as computed, only they and the newly written pointers differ in the record, the type is as before; nothing changes from twelve blocks on |
| Ext2Inode.ExtendElsewhere | src/drivers/ext2.c:500-523 | growing writes to no block but the block bitmap, the inode's table block and the new blocks |
| Ext2Inode.FirstNewBlockSkipped | src/drivers/ext2.c:510-519 | all pointers up to and including the first new one stay as they were |
| Ext2Inode.GrowthCovered | src/drivers/ext2.c:500-523 | a file that covered its size, with no block behind, covers the new size exactly when growing needed no block |
| Ext2Dir.SameName | src/drivers/ext2.c:76-81 | the comparison through a 20-byte buffer is equality of names |
| Ext2Dir.Lookup | src/drivers/ext2.c:66-88 | the inode of the first entry of that name, or 0 |
| Ext2Dir.PaddedRecord | src/drivers/ext2.c:75-86 | the zero tail behind the block ends the walk exactly at the end of the chain |
| Ext2Dir.RecordLayout | src/drivers/ext2.h:126-132 | where inode, length, type and name lie in a directory record |
| Ext2Dir.MakeDirEntry | src/drivers/ext2.c:290-322 | only the directory's block changes; it then holds the old entries followed by the new one, or for a new directory the new one alone; a non-directory is left alone |
| Ext2Dir.EntryIsAdded | src/drivers/ext2.c:290-322 | why: the block left holds the old entries and the new one behind them |
| Ext2Dir.MakeAndLookup | src/drivers/ext2.c:66-322 | making an entry and looking up: a fresh name is found at the child, every other name as before |
| Ext2Dir.TypeDecides | src/drivers/ext2.c:293-342 | of created inodes exactly those of the directory types are directories |
| Ext2Dir.SeekLast | src/drivers/ext2.c:298-303 | the walk ends at the record that ends the block |
| Ext2Dir.CutLast | src/drivers/ext2.c:298-307 | the last record shrinks to its name, padded to four bytes |
| Ext2Dir.WriteRecord | src/drivers/ext2.c:309-318 | the record fields and the name loop |
| Ext2Dir.AppendAddsEntry | src/drivers/ext2.c:290-322 | the record lengths stay an exact 4-aligned partition of the block and the entry list grows by the new one at its end |
| Ext2Dir.AppendLookup | src/drivers/ext2.c:66-322 | looking up the fresh name finds the child, every other lookup is unchanged |
| Ext2Dir.FindAppended | src/drivers/ext2.c:66-88 | lookup in an extended entry list, in general |
| Scheduler.InvAlways | src/multitasking.c:79-412 | over every run one task is running, the running index names it, and active pids are unique |
| Scheduler.SwitchIsSwitched | src/multitasking.c:320-412 | the steps of a switch add up to one update of entries, images and pages |
| Scheduler.ContextKept | src/multitasking.c:320-412 | every step leaves the context and program slot of all other tasks alone |
| Scheduler.Isolation | src/multitasking.c:58-412 | over every run a task's registers and FPU image do not change between its own computations |
| Scheduler.ResumeRestores | src/multitasking.c:320-412 | a preempted task that runs again sees in the CPU what it left there |
| Scheduler.EntryContextKept | src/multitasking.c:79-164 | a new task starts with its entry context exactly when it did not land in the running entry, or the CPU held the same registers |
| Scheduler.MappedAlways | src/program.c:22-26 | over every run page 0 shows the frame of the running program's slot and every slot's window its own, present, writable and of 4 MiB, all the way, if and only if no start gives the running entry to a program that is not mapped |
| Scheduler.FramesAlways | src/program.c:22-26 | at the end of such a run: the frames and flags of page 0 and of every window, as numbers |
| Scheduler.SlotsNeverShare | src/program.c:22-26 | programs in different slots, running at two times of such runs, have different frames at page 0 |
| Scheduler.StartKeepsMapped | src/multitasking.c:79-164 | a start keeps the mapping exactly when it does not give the running entry to another program |
| Scheduler.ReuseBreaks | src/multitasking.c:79-164 | an example: a start into the stopped running entry loses its entry context and its mapping |
| Scheduler.ScanIsNearest | src/multitasking.c:374-411 | the search returns the nearest eligible entry |
| Scheduler.TickPicksFirst | src/multitasking.c:353-412 | an unlocked tick switches if and only if another task is eligible, and to the first one cyclically; a waiting task is resumed only when its awaited pid is gone |
| Scheduler.BoundedWaiting | src/multitasking.c:353-412 | a task that stays eligible is passed over by fewer than MAX_TASKS - 1 unlocked ticks |
| SchedulerLaws.StopTakesOut | src/multitasking.c:247-301 | a stop makes the entry inactive and its slot free, and changes no other entry |
| SchedulerLaws.StopIsFinal | src/multitasking.c:247-412 | over every run that does not reuse the entry, a stopped task stays inactive and is not resumed |
| SchedulerLaws.StartAdds | src/multitasking.c:79-164 | a start adds a task with a new pid, scheduled always and waiting for nobody; no other entry changes |
| SchedulerLaws.StartedRuns | src/multitasking.c:79-412 | left alone, a started program runs within MAX_TASKS - 1 unlocked ticks, first at its entry address, with cleared registers, on the stack of its entry |
| SchedulerLaws.TickResumes | src/multitasking.c:353-412 | an unlocked tick switches if and only if some task is active, scheduled always or on focus in the focused window, and waits for nobody that is there; it resumes such a task and ends its wait |
| SchedulerLaws.StepsDecide | src/multitasking.c:353-412 | what suspending, resuming, focusing and locking do to the next tick |
| SchedulerLaws.LockHolds | src/multitasking.c:353-372 | while the lock is held the same task runs, over every run |
| SchedulerLaws.SlotsDiffer | src/program.c:28-38 | the first free slot is marked, so that the next search gives another; -1 exactly when none is free |
| SchedulerKernel.Kernel.TaskIdFromPid | src/multitasking.c:226-236 | the first active entry with that pid, or -1 |
| SchedulerKernel.Kernel.TaskGetAvailable | src/multitasking.c:70-77 | the first inactive entry, or -1 |
| SchedulerKernel.Kernel.StartTask | src/multitasking.c:79-164 | the new state and the new pid; -1 and no change on a full table |
| SchedulerKernel.Kernel.StopTask | src/multitasking.c:247-301 | the entry is inactive and its program slot free |
| SchedulerKernel.Kernel.ProgramFindSlot | src/program.c:28-38 | the first free slot is taken, or -1 |
| SchedulerKernel.Kernel.SelectProgram | src/program.c:22-26 | the old slot's window shows its frame again and page 0 the new slot's |
| SchedulerKernel.Kernel.SwitchToTask | src/multitasking.c:320-350 | the context saved, the program selected, the other context loaded |
| SchedulerKernel.Kernel.MayResume | src/multitasking.c:380-398 | the tests on one entry are eligibility |
| SchedulerKernel.Kernel.Dispatch | src/multitasking.c:396-404 | a finished wait is cleared, contexts are switched, the running flag moves |
| SchedulerKernel.Kernel.TaskCallback | src/multitasking.c:353-412 | the search loop with its check bound does one tick of the specification |
| SchedulerKernel.FoundNext | src/multitasking.c:374-411 | the entry the wrapping search stops at is the nearest eligible one |
| Viewports.SettleFront | src/desktop/viewport.c:292-314 | the mutual recursion unrolled: the leading viewports whose owners died are shut and leave, and the first that stays is focused, once |
| Viewports.CloseRemoves | src/desktop/viewport.c:292-314 | closing removes that viewport; of the others only gone ones leave, the living keep order and state |
| Viewports.SendOnlyGone | src/desktop/viewport.c:454-480 | an event removes at most gone viewports |
| Viewports.SendDelivers | src/desktop/viewport.c:454-480 | an event reaches the handler once while the program lives, does nothing without a handler, and closes the window once the program is gone |
| Viewports.CloseSilences | src/desktop/viewport.c:292-314 | a closed window is told nothing any more |
| Viewports.RaiseIsMoveToFront | src/desktop/viewport.c:316-326 | raising is move-to-front up to gone viewports leaving; a living one ends up in front |
| Viewports.RaiseExact | src/desktop/viewport.c:316-326 | with nobody gone, exactly move-to-front, with one focus and one unfocus event |
| Viewports.OpenIsCons | src/desktop/viewport.c:259-286 | opening puts a viewport that was closed in front, with the place, size, title and owner asked for and no handler; it fails exactly when the size does not fit or all are open, and then changes nothing |
| Viewports.AClosedOne | src/desktop/viewport.c:272-280 | a free element implies a closed viewport, so the index is never -1 |
| Viewports.InvStep | src/desktop/viewport.c:259-381 | after every operation the list holds exactly the open viewports, none twice |
| Viewports.Run | src/desktop/viewport.c:259-480 | and so over every run of operations with changing sets of living tasks |
| Viewports.RunKeepsLiving | src/desktop/viewport.c:259-480 | a window whose program lives through the run and that is not closed itself is still open at its end |
| Viewports.OpenedStays | src/desktop/viewport.c:7-480 | so a window stays open, and its program's, from its opening on |
| Viewports.ClickPicksTopmost | src/desktop/viewport.c:346-381 | a click finds the topmost viewport it hits, none exactly when it hits none, and raises a living one |
| Viewports.TitleBoxes | src/desktop/viewport.c:172-183 | which box does what: toggling, the exit event, or only raising |
| Viewports.BodyAndMark | src/desktop/viewport.c:365-378 | a click on the body is told to viewports that want clicks, one on the resize mark only raises |
| Viewports.HitIsFrame | src/desktop/viewport.c:346-400 | the areas of a window make up its frame without the line under the title bar |
| Viewports.BoxesApart | src/desktop/viewport.c:172-183 | the two boxes lie side by side at the right end of the title bar |
| Viewports.ToggleTwice | src/desktop/viewport.c:151-170 | minimizing and restoring gives place and size back, with one event each; in between the window is as wide as its title |
| ViewportTable.ViewportList.constructor | src/desktop/viewport.c:227-247 | an empty list in which every viewport is closed |
| ViewportTable.ViewportList.SendEvent | src/desktop/viewport.c:454-480 | the event is delivered, or the viewport of a dead owner is closed |
| ViewportTable.ViewportList.CloseViewport | src/desktop/viewport.c:292-314 | the table afterwards is the closed list |
| ViewportTable.ViewportList.DropElement | src/desktop/viewport.c:297-311 | the freed element is swapped behind the others |
| ViewportTable.ViewportList.MoveToFront | src/desktop/viewport.c:316-326 | the swaps and the two events are raising |
| ViewportTable.ViewportList.OpenViewport | src/desktop/viewport.c:259-286 | the two searches and the raise are opening |
| ViewportTable.ViewportList.Toggle | src/desktop/viewport.c:151-170 | minimizing or restoring with its event |
| ViewportTable.ViewportList.HandleTitleClick | src/desktop/viewport.c:172-183 | the title bar's boxes |
| ViewportTable.ViewportList.Clicked | src/desktop/viewport.c:346-381 | the click loop and its three hit tests |
| Memory.FindRun | src/memory.c:208-231 | the least start of a sufficient run of usable regions, -1 exactly when there is none or none is asked for |
| Memory.ReserveRun | src/memory.c:233-241 | reserving at identical addresses changes exactly the run's entries in both tables; its pages are present, writable, of 4 MiB, and uncached for the frame buffer |
| Memory.ReserveMaps | src/memory.c:30-52 | reserving leads every address of the virtual page to the same place of the physical block |
| Memory.FreeRun | src/memory.c:243-248 | freeing a run whose addresses nobody else claims changes exactly its entries |
| Memory.AllocateTakesLeast | src/memory.c:208-241 | an allocation takes the least place with room for its bytes, in the fewest blocks that hold them, apart from every live one; it fails exactly when nothing was asked for or there is no room |
| Memory.AllocationLasts | src/memory.c:189-248 | over every run that does not release it, each byte of an allocation is mapped to its own address and lies in no other live allocation |
| Memory.ReleaseFreesExactly | src/memory.c:54-65 | a release frees and unmaps exactly the blocks of that allocation, in spite of stale virtual addresses |
| Memory.AgreeAlways | src/memory.c:30-65 | the two tables agree after every run of allocations and releases |
| Memory.LiveIsMapped | src/paging.c:57-89 | live allocations are disjoint, their addresses are mapped to themselves, and no other page reaches them |
| Memory.AllocateReleaseRestores | src/memory.c:208-248 | allocating and releasing gives back the same usable regions and the same page directory |
| Memory.BootAgrees | src/memory.c:67-146 | the tables agree at boot exactly when every frame that is handed out has an empty page slot that get_virtual does not answer for frame 0 |
| Memory.BootDisagrees | src/memory.c:67-146 | inputs for which the boot tables do not agree: frame 0 mapped through the slot of a frame that is handed out |
| Memory.VirtualUnmapped | src/paging.c:66-74 | get_virtual finds no address for an unmapped frame other than 0 |
| Memory.VirtualLeadsBack | src/paging.c:57-74 | for an address that some page has, get_virtual finds one that get_physical leads back |
| MemoryTable.MemoryManager.ReserveRegion | src/memory.c:30-52 | one region entry and one page entry are set |
| MemoryTable.MemoryManager.ReserveRegionBlock | src/memory.c:233-241 | the loop over the blocks, with addresses modulo 2^32 |
| MemoryTable.MemoryManager.FreeRegion | src/memory.c:54-65 | only the first region that carries the address is freed, and its page deleted |
| MemoryTable.MemoryManager.FreeRegionBlock | src/memory.c:243-248 | the loop over the blocks |
| MemoryTable.MemoryManager.FindRegionIdx | src/memory.c:208-231 | the one-pass counting search returns the least place with room for the bytes, -1 exactly when there is none or none are asked for |
| MemoryTable.MemoryManager.PopulateRegions | src/memory.c:67-146 | the table at boot, region by region |
| MemoryTable.MemoryManager.GetVirtual | src/paging.c:66-74 | the first page slot with the frame of any address |
| Chdir.Directory.Chdir | src/vfs.c:322-380 | success exactly when the walk over the segments fits and the target opens; the buffer then renders the walked stack, and is unchanged otherwise |
| Chdir.Directory.ChdirAbsolute | src/vfs.c:305-320 | an absolute path that opens is taken over as it stands, without its first slash and with one at its end, over a zeroed buffer; otherwise the buffer is unchanged |
| Chdir.Normalise | src/vfs.c:323-364 | the in-place editing of the path buffer is the walk over the segments |
| Chdir.PopSegment | src/vfs.c:344-354 | ".." removes the last segment of the rendering |
| Chdir.PushSegment | src/vfs.c:358-363 | a name is appended with its slash |
| Chdir.Directory.Store | src/vfs.c:373-374 | the new directory is stored over a zeroed buffer |
| Chdir.WalkKeeps | src/vfs.c:322-380 | a walk never leaves the drive, fits the buffer and contains no dot segments |
| Chdir.ChdirComposes | src/vfs.c:322-380 | changing along p and then q is changing along p/q |
| Chdir.UpUndoesDown | src/vfs.c:344-363 | a name followed by ".." leads back if the name fits, and up from the drive root stays there |
| Chdir.DotsAreNeutral | src/vfs.c:336-342 | empty and dot segments do not matter |
| Chdir.EnteredIsDirectory | src/vfs.c:305-320 | an absolute path leaves the rendering of a directory exactly when its segments are a drive letter and plain names |
| Chdir.NotADirectory | src/vfs.c:305-320 | examples: an empty segment, a drive name of two letters |
| Chdir.DotsStay | src/vfs.c:305-320 | an example: a dot segment stays in the directory |
| Chdir.AbsoluteIsWalk | src/vfs.c:305-364 | it leaves what a relative change from the drive root would leave exactly when it has no dot segments |
| Chdir.RenderRoundTrip | src/vfs.c:322-366 | splitting a rendered directory gives its segments back |
| Chdir.RenderInjective | src/vfs.c:322-366 | the string in the buffer determines the stack |
| Chdir.WalkRendered | src/vfs.c:322-380 | walking along a rendered directory from its drive arrives there |
| Chdir.SplitAppend | src/vfs.c:331-334 | a slash separates segments |
| Lexer.Lex | filesystem/OS/init/lexer.c:25-120 | the loop over the text returns its tokens and a final line end, valid exactly when every string was closed; an empty text gives nothing and is invalid |
| Lexer.LexOne | filesystem/OS/init/lexer.c:43-112 | one iteration, with its length, which is never zero |
| Lexer.LexString | filesystem/OS/init/lexer.c:58-82 | a string and what the same iteration reads at its closing quote |
| Lexer.LexWord | filesystem/OS/init/lexer.c:83-112 | keywords before identifiers, anything else skipped |
| Lexer.SkipComment | filesystem/OS/init/lexer.c:48-52 | a comment runs to its line end, which is left to be read |
| Lexer.FindQuote | filesystem/OS/init/lexer.c:59-70 | the search for the closing quote starts behind the first character |
| Lexer.ScanOne | filesystem/OS/init/lexer.c:42-113 | the scan position strictly increases in every iteration |
| Lexer.ScanPiece | filesystem/OS/init/lexer.c:43-112 | one iteration reads exactly one written piece, whatever follows it |
| Lexer.RenderLexRoundTrip | filesystem/OS/init/lexer.c:25-120 | a rendered script, with identifiers of the ten digits and the two times 26 letters, is read back as exactly its tokens, and as valid |
| Lexer.ReadsOn | filesystem/OS/init/lexer.c:25-120 | behind a rendered script, lexing goes on with whatever text follows |
| Lexer.UnclosedStringIsInvalid | filesystem/OS/init/lexer.c:58-82 | an open string makes the text invalid, and the tokens before it are kept |
| Lexer.KeywordIsWhole | filesystem/OS/init/lexer.c:83-97 | a word is taken for a keyword exactly when it is all of it and a blank follows |
| Fft.Run | filesystem/demos/audioFFT/fft.c:7-31 | the data window becomes the recursive transform; no cell outside the two windows changes |
| Fft.TransformHalves | filesystem/demos/audioFFT/fft.c:14-15 | the recursive calls transform both halves in scratch, with the data buffer as their scratch |
| Fft.Deinterleave | filesystem/demos/audioFFT/fft.c:9-12 | even and odd cells go to the two halves of scratch |
| Fft.Combine | filesystem/demos/audioFFT/fft.c:17-30 | the butterflies |
| Fft.TransformIsDft | filesystem/demos/audioFFT/fft.c:7-31 | on power-of-two lengths the transform is the Fourier sum, for every input and output index |
| Fft.SplitSum | filesystem/demos/audioFFT/fft.c:14-30 | a Fourier sum splits into its even and odd halves |
| Fft.UpperHalf | filesystem/demos/audioFFT/fft.c:28-29 | why the upper half takes the difference |
| Fft.ExactLengths | filesystem/demos/audioFFT/fft.c:7-31 | all inputs of a length are transformed correctly if and only if it is a power of two |
| Fft.FromAudio | filesystem/demos/audioFFT/fft.c:39-45 | the signal buffer holds the transform of the samples of one channel, for powers of two their Fourier transform; the rest of both buffers is unchanged |
| Fft.FirstChannel | filesystem/demos/audioFFT/fft.c:39-45 | of two alternating channels the first one is taken, of one channel every sample |
| Random.Generator.Rand | src/drivers/random.c:7-11 | the state steps modulo 2^32 and 15 of its bits are returned |
| Random.Generator.Srand | src/drivers/random.c:13-16 | the seed becomes the state |
| Random.LowBitsPeriod | src/drivers/random.c:5-11 | the low k bits repeat with period exactly 2^k from every seed |
| Random.FullPeriod | src/drivers/random.c:5-11 | two states of a run are equal exactly when their positions agree modulo 2^32 |
| Random.EveryStateReached | src/drivers/random.c:5-11 | every 32-bit state occurs exactly once in one period |
| Random.PeriodIsAPermutation | src/drivers/random.c:5-11 | the states of 2^32 successive calls are pairwise different and are all 32-bit values |
| Random.Equidistributed | src/drivers/random.c:5-16 | each value 0..32767 is returned exactly 2^17 times per period |
| Random.SameTwos | src/drivers/random.c:5-11 | the sum of d powers of the multiplier has as many factors of two as d |
| Random.Displacement | src/drivers/random.c:5-11 | d steps move a state by a multiple of that sum |
| Line.DrawLine | filesystem/demos/boid/gfx.c:10-30 | the error-driven loop terminates and paints exactly the points of the line that pass the bounds test, or nothing when its start fails it, into any buffer that holds the cells of these points |
| Line.LineStep | filesystem/demos/boid/gfx.c:26-28 | the two tests on twice the error move each axis as rounding the ideal line does |
| Line.ArrivesLast | filesystem/demos/boid/gfx.c:25-25 | the exit test holds at the last point and at no earlier one |
| Line.LineEnds | filesystem/demos/boid/gfx.c:10-30 | the line starts and ends at the given points |
| Line.HalfPixel | filesystem/demos/boid/gfx.c:10-30 | every point is within half a pixel of the ideal line on both axes |
| Line.Connected | filesystem/demos/boid/gfx.c:26-28 | neighbours touch and differ |
| Line.NoRepeats | filesystem/demos/boid/gfx.c:10-30 | exactly max(dx, dy) + 1 different points |
| Line.NoOvershoot | filesystem/demos/boid/gfx.c:10-30 | no point leaves the box of the two ends |
| Line.PaintedCells | filesystem/demos/boid/gfx.c:22-24 | a buffer cell changes exactly when a point of the line inside the bounds falls on it |
| Line.CellOrder | filesystem/demos/boid/gfx.c:23-23 | the buffer lists the pixels row by row |
| Line.CellInFrame | filesystem/demos/boid/gfx.c:22-24 | a point that passes the bounds test has its cell in a buffer of width times height cells exactly when it is not on the row below or just behind the last pixel |
| Line.FrameHoldsLine | filesystem/demos/boid/gfx.c:10-30 | such a buffer holds a line exactly when no point of it spills in this way |
| Line.PixelLinesFit | filesystem/demos/boid/gfx.c:10-30 | lines between pixels of the viewport never spill |
| Line.BottomLineSpills | filesystem/demos/boid/gfx.c:22-24 | every line that ends on the row below the viewport spills |
| Line.Reversed | filesystem/demos/boid/gfx.c:10-30 | the reversed line has the same point exactly when neither axis is at a tie |
| Line.TieExample | filesystem/demos/boid/gfx.c:10-30 | an example of a tie, where the reversed line takes the other pixel |
| Line.ErrorBound | filesystem/demos/boid/gfx.c:14-28 | twice the error stays within three extents, so 32-bit arithmetic agrees below extents of 2^29 |
| Tetris.Game.CheckClear | filesystem/Games/tetris/tetris.c:156-189 | the loop that looks at a row again after clearing it terminates, leaves the cleared board and adds 100 per line modulo 256 |
| Tetris.Game.Drop | filesystem/Games/tetris/tetris.c:173-181 | the rows above a full one move down and the top row is empty |
| Tetris.ClearingRemovesLines | filesystem/Games/tetris/tetris.c:156-189 | rows that are not full keep their order at the bottom, empty ones are above, ten cells go per line, no line is full any more, clearing again changes nothing |
| Tetris.FourBits | filesystem/Games/tetris/tetris.c:7-15 | every piece has four cells in every rotation |
| Tetris.TurnTurns | filesystem/Games/tetris/tetris.c:25-38 | a turn moves the cell (a, b) of the square to (3 - b, a), and four turns give the piece back |
| Tetris.Game.IsValidPos | filesystem/Games/tetris/tetris.c:63-87 | every cell of the piece is between the walls, above the floor and on no other cell |
| Tetris.Game.AddBlock | filesystem/Games/tetris/tetris.c:106-123 | the board with the piece's cells added |
| Tetris.PlacedCells | filesystem/Games/tetris/tetris.c:106-123 | exactly the cells of the piece inside the board are filled |
| Tetris.PlacingAdds | filesystem/Games/tetris/tetris.c:106-123 | however far placing has come, it adds at most the cells of the piece so far, and that many exactly when all of them land on empty cells of the board |
| Tetris.LandsWhereValid | filesystem/Games/tetris/tetris.c:63-123 | all cells land exactly when the piece passes the validity test below the upper edge |
| Tetris.LockingAdds | filesystem/Games/tetris/tetris.c:106-123 | a piece adds at most four cells, and four exactly when it is in a valid position below the upper edge |
| Tetris.CellsAreConserved | filesystem/Games/tetris/tetris.c:106-189 | over any game: cells are at most the old ones plus four per piece less ten per cleared line, and exactly that many if and only if every piece came to rest in a valid position below the upper edge |
| Tetris.Game.Move | filesystem/Games/tetris/tetris.c:125-154 | the moves as the code tests them, and the joystick lock that the neutral input resets |
| Tetris.MoveEffects | filesystem/Games/tetris/tetris.c:125-154 | what each input does to a piece, and exactly when it does nothing |
| Tetris.FallIsStraight | filesystem/Games/tetris/tetris.c:90-96 | moving down goes straight through valid positions and stops only above one that is not valid |
| Tetris.ComesToRest | filesystem/Games/tetris/tetris.c:90-96 | after as many moves down as lie between it and the floor a piece can go no further |
| Tetris.FallStaysValid | filesystem/Games/tetris/tetris.c:125-154 | over any sequence of moves a piece stays valid if and only if none of them is a right move that passed the wrong test |
| Tetris.RightMoveLeavesTheBoard | filesystem/Games/tetris/tetris.c:144-149 | an example on the empty board: a right move into the wall, after which the piece locks with fewer than four cells |
| Checksum.NetChecksumAcc | src/networking/checksum.c:10-27 | the sum of the words and an odd last byte, modulo 2^32 |
| Checksum.SumSplits | src/networking/checksum.c:10-27 | accumulation splits over prefixes of even length |
| Checksum.NetChecksumFinal | src/networking/checksum.c:29-36 | for every 32-bit sum the two-step fold is the full one's complement fold, complemented and swapped |
| Checksum.FoldAll | src/networking/ip.c:25-27 | folding until no carry is left gives the residue modulo 0xFFFF |
| Checksum.SwapFolds | src/networking/checksum.c:34-35 | swapping the folded little-endian sum is folding the sum in network order |
| Checksum.NetChecksum | src/networking/checksum.c:4-8 | the checksum of RFC 1071, section 1, of the data in network order, exactly when no overflow of the accumulator shows; always for at most 131074 bytes |
| Checksum.OverflowShows | src/networking/checksum.c:10-36 | the sum modulo 2^32 folds like the exact sum if and only if the number of overflows is a multiple of 0xFFFF and they leave no zero |
| Checksum.OverflowHappens | src/networking/checksum.c:10-27 | an input whose overflow shows: two bytes more than the bound, all 255 |
| Checksum.HeaderChecksum | src/networking/ip.c:17-30 | the complement of the folded sum of the ten header words |
| Checksum.StoreChecksum | src/networking/ip.c:62-69 | with the result stored in the cleared field the header adds up to 0xFFFF, and nothing else in the packet changes |
| Checksum.HeaderAccepted | src/networking/ip.c:17-30 | a header adds up to 0xFFFF exactly with that value in its field, or with the other zero |
| Pipe.Buffer.constructor | src/drivers/pipe.c:4-24 | an empty open pipe of the given capacity |
| Pipe.Buffer.ReadBytes | src/drivers/pipe.c:26-49 | the oldest bytes are delivered; heads start over when all are |
| Pipe.Buffer.WriteBytes | src/drivers/pipe.c:51-64 | as many bytes as fit behind the write head are accepted |
| Pipe.Buffer.CloseSide | src/drivers/pipe.c:66-90 | the side is closed; 1 and an emptied pipe exactly when both sides are closed, -1 for any other side |
| Pipe.BytesAreConserved | src/drivers/pipe.c:26-64 | over any interleaving what was accepted is what was delivered followed by what is held |
| Pipe.ReadDelivers | src/drivers/pipe.c:26-49 | a read delivers the oldest bytes, as many as asked for as far as there are |
| Pipe.WriteAccepts | src/drivers/pipe.c:51-64 | a write accepts all of the data if it fits, and otherwise fills the pipe up |
| Pipe.WrittenIsRead | src/drivers/pipe.c:26-64 | what is written into an empty pipe with room for it is what two reads deliver together |
| Pipe.RoomNeedsDrain | src/drivers/pipe.c:29-64 | over any run the used part grows by at most what was accepted, and by exactly that if and only if no read emptied a pipe that held something |

## Left out

- Ext2Volume.Volume.ReadBlock: drive errors and the null return they cause; the device holds one block more than the block count because the guard admits that id.
- Ext2Volume.Volume.WriteBlock: drive errors and the 0 return they cause.
- Ext2Cursor.FirstBlock: starts at the last entry of a double-indirect table, where the code reads in front of the scratch buffer; what lies there is not part of this model (`Ext2Cursor.CursorFollowsMap` covers these starts).
- Ext2Read.File.Seek: targets below zero, which the code stores as they are; no read or write from there is modelled.
- Ext2Read.Read: the starts that `Ext2Cursor.FirstBlock` leaves out; block pointers the call follows must be on the volume, because the code follows a null pointer otherwise.
- Ext2Read.ReadFrom: as `Ext2Read.Read`.
- Ext2Write.WriteFrom: as `Ext2Read.Read`; and no block written may be a table that a lookup of the same call goes through, because the code rereads its tables after every block.
- Ext2File.ReadOwned: calls that are not exact ones, because they read other blocks (`Ext2Cursor.CursorFollowsMap`); `Ext2Read.Read` says what they read.
- Ext2File.Write: only for writes that need no new block and whose call is an exact one, because growth by a block does not work in the code (`Ext2Inode.GrowthCovered`) and other starts read other blocks (`Ext2Cursor.CursorFollowsMap`).
- Ext2File.WriteData: as `Ext2File.Write`.
- Ext2File.WriteSeekRead: as `Ext2File.Write`.
- Ext2File.CreateWriteRead: data of at most the size given at creation that ends before the last block of the new file does, for the same reasons.
- Ext2File.GrowTo: growth that needs a new block; `Ext2Inode.ExtendFile` models it.
- Ext2Alloc.GetFreeBlock: one block group, because the code indexes the bitmap with the volume-wide block number.
- Ext2Alloc.AllocBlock: one block group, as `Ext2Alloc.GetFreeBlock`.
- Ext2Inode.GetFreeInode: one block group. The read of the inode bitmap of group 4 that `ext2_get_freeInodeIdx` starts with has no effect on its result and is omitted.
- Ext2Inode.AllocInode: a free inode must exist; without one the code goes on with inode 0.
- Ext2Dir.SameName: names in the directory have at most 19 bytes, the size of the source's comparison buffer.
- Ext2Dir.Lookup: well-formed chains of records with names of at most 19 bytes.
- Ext2Dir.MakeDirEntry: there is room for the record; the code does not check.
- Ext2: path resolution, listing, truncation, creating directories.
- SchedulerKernel.Kernel.TaskCallback: the first dispatch after start-up, which uses running index -1; `task_fork`, exception handlers, and the index changes while an event handler runs are not modelled either.
- SchedulerKernel.Kernel.StartTask: name, console, window ownership, directory, descriptors and the values pushed on the new stack.
- SchedulerKernel.Kernel.StopTask: closing of windows, consoles and files.
- Viewports.Run: event handlers do not change the list.
- ViewportTable.ViewportList.SendEvent: the task lock, the running index and the program selection around a handler call, which belong to the scheduler.
- ViewportTable.ViewportList.constructor: the region of the front buffer. The `vp` pointers of unused elements start as null; `viewport_init_sys` leaves them unset and no operation reads them before they are set.
- Memory.AgreeAlways: reservations at other than identical addresses and calls with a failed region index are modelled (`MemoryTable.MemoryManager.ReserveRegionBlock`) but not part of the runs; mapping of program slots over page 0 is in `Scheduler`.
- Chdir.Directory.Chdir: relative paths, absolute ones are in `Chdir.Directory.ChdirAbsolute`; whether a link can be followed is a parameter. The directory it starts from is a drive letter with plain segments; an absolute change can leave another one, with empty segments or a longer drive name (`Chdir.EnteredIsDirectory`, `Chdir.NotADirectory`).
- Chdir.Directory.ChdirAbsolute: paths longer than the buffer, which the code does not check, and a drive with the letter zero.
- Lexer.Lex: the limit of 100 tokens, which the code does not check; one zero character is taken to follow the text.
- Fft.Run: exact reals in place of floats; cosine and sine are a parameter with the laws of roots of unity.
- Fft.FromAudio: as `Fft.Run`.
- Line.DrawLine: unbounded integers, see `Line.ErrorBound`; a write behind the back buffer has no meaning in the model, so lines that spill (`Line.FrameHoldsLine`) need a larger buffer.
- Random.Generator.Rand: `unsigned long` has 32 bits, as the source file says.
- Tetris.CellsAreConserved: positions are unbounded integers where the code has 8 bits.
- Pipe.Buffer.constructor: allocation failure and the two descriptors.
- Pipe.Buffer.ReadBytes: null pointers and counts that are negative.
- Pipe.Buffer.WriteBytes: null pointers and counts that are negative.
- Hardware drivers, interrupt stubs, graphics output, networking protocols above the checksum, the bump allocator, string helpers and the user programs other than those above.
