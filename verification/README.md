# A model of a small 32-bit x86 kernel

The project models three parts of the kernel and proves what they promise.

**Frames, page tables and tasks** (`paging.c`, `task.c`, the mapping loop of `elf.c`).
`Machine` has physical memory as 2^20 frames of 1024 words and the two-level walk
`Translate`. `Paging` says what each operation does to that memory, to the set of
frames in use and to the heap bounds. Every operation answers `None` when no frame
below 512 is clear: only the first 512 pages are identity mapped and `allocPage`
never reports exhaustion. `Kernel.Pager` is the same code as it runs: memory,
bitmap and bounds are fields changed in place, and pointers go through the walk of
the active directory, but for the source of the stack copy in `clonePageDirectory`.
`Tasks.Scheduler` is the circular list of task records. `System` writes a run as a sequence of steps: allocations, heap requests
of at most a page, fresh pages mapped at 0x400000 or above, forks, switches, and
stores of the running task at 0x400000 or above. A run starts at boot and may take,
map and write pages before the first task is made. Table frames are shared between
directories, so mapping in one directory can show in others; `Mapping` says exactly
where. `Isolation`, `Frames`, `Clones`, `Scheduling` and `Elf` hold the results over whole runs.

**Formatted console output** (`string.asm`, `screen.asm`, `memory.asm`). `Strings` and
`Screen` work on byte arrays with explicit indices and four-byte stores. The abstract
terminal is an unbounded log of lines.

**The in-memory filesystem and the VFS** (`ramfs.c`, `vfs.c`). `Trees` and `Paths` are
the directory tree and its path names as values; `RamFiles` and `Vfs` are the linked
records and file blocks on the heap. `VfsState` has the state as a value and the steps;
each method of `Vfs.FileTable` makes one of them, and `VfsRuns` is about all runs.

Where the code and its comments differ, the model follows the code:

- `allocPage` allocates one page, not several (`paging.c:50-54`).
- `itos` never stores the terminator its comment announces (`string.asm:139-141`); the
  zero bytes come from the last four-byte store. It can also write four bytes past
  `itosBuf`, into `hexBuf`, which does no harm.
- The character that arrives with the cursor past the last column only starts a new
  line and is lost (`screen.asm:60-72`).
- `clonePageDirectory` reads the parent's stack frame at the frame's own address
  (`paging.c:155-158`), which `mapPage` took out of the identity window: that read
  faults on every clone of a directory whose stack page is mapped
  (`Isolation.StackSourceFaults`; `Isolation.OwnAddressReached` says exactly which
  frames are reached). The model copies the frame, as intended, and the results on
  clones and forks are about this intended copy.
- Scrolling stores 80 double words, so it also writes one row beyond the screen
  (`screen.asm:98-101`); video memory has that row in the model.

Properties that hold only under a condition, with the exact condition:

- `mapPage` reaches the frame it was given unless the page is mapped at its own
  address below 0x1F4000, where it undoes itself (`Mapping.MapPageReaches`, with an
  instance in `Mapping.OwnPageUndone`).
- A `kmalloc` block lies inside its heap page exactly for requests of at most 4096
  bytes (`Ownership.KmallocInsidePage`, `Ownership.BlockTooLong`).
- A frame is reached at its own address exactly when it is below 512 and was never
  mapped above the first table (`Isolation.OwnAddressReached`). Mapping another frame
  in its place does not bring it back (`Elf.RemappedFrameIsLost`).
- A forked child returns 0 exactly when no other fork came before its first turn;
  otherwise it returns its own id (`Scheduling.ForkReturns`, with an instance in
  `Scheduling.SecondForkSpoilsResult`).
- The pages `loadELF` maps cover all segments unless the first header with the highest
  address is empty and another segment at that address is longer than the rest of
  its page (`Elf.CoverageExactly`, with an instance in `Elf.EmptyHeaderHidesSegment`).
- `kprintf` leaves the expansion in `printBuf` unless it is empty, when the old
  contents stay (`Strings.Formatter.Format`) and are printed (`Strings.Formatter.Kprintf`).
- `strlen` is the length exactly for non-empty strings (`Strings.Strlen`).
- A new directory or file is found under its path exactly when its name was unused
  in that directory (`Paths.NewDirectoryPath`, `Paths.NewFilePath`; `Paths.DotIsTaken`).
- `x/..` leads back exactly when `x` was made there as a directory, or at the root
  for its own dot entries (`Trees.UpAndDown`, `Trees.UpFromBelow`).
- The path scan is plain splitting at slashes exactly for paths that are not "/", do
  not start with two slashes, and have no two slashes followed by a third or by the
  end (`Paths.ScanIsSplitting`). "/" is resolved all the same; in any other such path
  findDir misses what splitting would find exactly when that is something and no file
  is reached before the empty component, in the tree any run builds
  (`Paths.ResolveIsSplitting`, `VfsRuns.ResolveAfterAnyRun`, `Paths.DeadEndInstance`,
  `Paths.DeadEndBehindFile`).
- `seek` and `read` reach the same record exactly for descriptors from 1 up
  (`Vfs.FileTable.SeekNode`, `Vfs.FileTable.ReadNode`, `Vfs.FileTable.DescriptorZero`).

## Model

| member | source | states |
|---|---|---|
| Paging.FirstClear | paging.c:54-75 | the naive bit-by-bit scan: the first frame not in use |
| Bitmap.SetAdds | paging.c:30-48 | setting one bit of the bitmap puts exactly that frame in use |
| Bitmap.UsedMeans | paging.c:30-48 | frame f is in use if and only if bit f % 32 of word f / 32 is set |
| Kernel.Pager.FindClear | paging.c:55-72 | the scan with its whole-word skip terminates at the lowest clear bit of any bitmap with one, below 512 where the naive scan stops |
| Kernel.Pager.AllocPage | paging.c:54-75 | sets the lowest clear bit of the bitmap, every smaller one being set, and no other; the zero-fill through the page's own address clears that frame and nothing else |
| PagingInvariants.AllocIsLowest | paging.c:54-75 | a frame is found if and only if one below 512 is clear, and every smaller one is then in use |
| Kernel.Pager.NewHeapPage | paging.c:89-95 | a fresh frame becomes the page the heap is carved from |
| Kernel.Pager.Malloc | paging.c:97-108 | the bump allocator, with the new page when the request does not fit and 32-bit sums |
| Kernel.Pager.InstallEntry | paging.c:121-132 | through the active directory, the stores reach the table, the slot and the identity entry, also when the directory edited is the active one |
| Kernel.Pager.MapPageAt | paging.c:110-135 | for any frame and any address above the first table every access reaches what it names, and the state becomes the specified one |
| Kernel.Pager.CopySlots | paging.c:144-152 | the copy loop takes exactly the non-empty slots equal to the kernel's, never the stack's |
| Kernel.Pager.ClonePageDirectory | paging.c:137-162 | new directory, the intended copy of the stack page and its mapping, in the code's order |
| Kernel.Pager.GeneratePageTable | paging.c:220-248 | from zeroed globals and any bitmap: with frame 0 and frames 160..511 put in use besides, kernel directory, identity table, heap page |
| Kernel.ReservedFrames | paging.c:228-232 | the boot puts frame 0 and frames 160..511 in use, and every other bit stays as it was |
| Kernel.Pager.StartPaging | paging.c:296-311 | once the tables are active the whole paging invariant holds |
| Frames.BootNeedsThree | paging.c:228-248 | the boot succeeds if and only if three frames below 512 are clear; then the first task starts too |
| Frames.BootLayout | paging.c:233-248 | they are taken lowest first: directory, table, heap page, whose start is the first free byte |
| Frames.ThreeStart | paging.c:220-248 | with three clear frames some run does start, whatever the memory holds |
| Ownership.BootEstablishes | paging.c:220-248 | the boot state satisfies the invariant for every memory and every bitmap |
| Mapping.MapPageTranslates | paging.c:110-135 | for every directory and address the translation after mapPage: the frame's own identity page goes, the target page of every directory sharing the table becomes the frame, all else is unchanged |
| Mapping.MapPageReaches | paging.c:110-132 | the target translates to the frame if and only if the two pages differ or the frame is at or above 0x1F4000 |
| PagingInvariants.MapPageKeepsStructure | paging.c:110-135 | sharing between directories survives mapPage of any frame at any address |
| PagingInvariants.NewDirectoryKeepsStructure | paging.c:137-152 | a clone, also of a clone, links only the kernel's tables |
| PagingInvariants.AllocIsFresh | paging.c:54-75 | an allocated frame was clear, had no role, is zeroed, and no other frame changes |
| Ownership.KmallocKeepsSound | paging.c:97-108 | for requests of at most a page, blocks stay inside heap frames and pairwise disjoint, and every other invariant stays |
| Ownership.KmallocInsidePage | paging.c:97-108 | the block lies inside its heap page if and only if the request is at most 4096 bytes |
| Ownership.KmallocPointer | paging.c:97-108 | the pointer is the next free byte and no frame comes into use while the request fits; else it is the start of the lowest clear frame, the only one that does; the next free byte is then behind the block |
| Ownership.SuccessiveBlocks | paging.c:97-108 | two requests that fit are next to each other |
| Ownership.MapFreshKeepsSound | paging.c:110-132 | mapping a fresh frame keeps identity window, private pages, roles and sharing |
| Ownership.CloneKeepsSound | paging.c:137-162 | cloning keeps all of them |
| SystemInvariants.ForkKeeps | task.c:26-46 | fork keeps the invariant, gives the child a directory of its own, and changes no role |
| SystemInvariants.MapTaskPageKeeps | task.c:99-112 | so does mapping a fresh page for a task; an unknown id only uses up the frame |
| SystemInvariants.RunKeeps | paging.c:54-162 | every run keeps the whole invariant, and no frame ever changes its role except that a page gets mapped |
| Frames.RunFromBoot | ckernel.c:10-31 | from boot, through whatever pages the kernel takes, maps and writes before it, initTasks, and any run, the invariant holds and every waiting task has a context |
| Frames.OneUse | paging.c:54-162 | a frame in use as task directory, referenced table, heap frame or mapped page has its bit set and exactly one of these uses |
| Frames.NeverHandedOutTwice | paging.c:54-75 | from boot through any run the frames allocPage returned, in whatever step and however many in one step, were clear at boot and are all different; no other frame came into use |
| Frames.RunGrows | paging.c:54-162 | the same from any state on: a run hands out only clear frames, each once |
| Frames.BlocksAfterAnyRun | paging.c:97-108 | all kmalloc blocks are inside one heap frame each and never overlap |
| Frames.WindowAfterAnyRun | paging.c:54-132 | in every task's directory all directories, tables, heap frames and clear frames are at their own address |
| Frames.SharingAfterAnyRun | paging.c:137-162 | a slot is empty, or the kernel's outside the stack slot, or holds a table no other task points to |
| Frames.StacksAfterAnyRun | paging.c:144-161 | no address of one task reaches a frame behind another task's stack slot |
| Isolation.SharingOfTables | paging.c:137-162 | the same trichotomy for any two directories of any well-structured state |
| Isolation.KernelFramesReached | paging.c:54-132 | stores of the kernel through any directory reach the frame they name |
| Isolation.StackFramesArePrivate | paging.c:144-161 | a frame behind the stack slot of one directory is behind no address of another |
| Isolation.HighPagesAreDistinct | paging.c:110-132 | above the first table no page of a directory has a second address |
| Isolation.OwnAddressReached | paging.c:129-131 | a frame is reached at its own address if and only if it is below 512 and was never mapped; one that was ever mapped faults |
| Elf.RemappedFrameIsLost | elf.c:158-163 | after a page is mapped a second time the first frame is behind no address of any task, its own included |
| Isolation.StackSourceFaults | paging.c:155-158 | the address the clone copies from faults in every directory when the source's stack page is mapped |
| Isolation.CloneViews | paging.c:137-162 | with the intended copy, the new directory sees a copy of the stack page; no stack page of any other directory changes |
| Isolation.ForkCopiesStack | task.c:26-46 | with the intended copy, right after fork the child's stack page equals the parent's and lies in another frame |
| Clones.CloneTranslates | paging.c:137-162 | every address of a clone: the kernel's frame behind each slot of the source that is the kernel's and not the stack's, the stack page at 0xE0000000, a fault everywhere else |
| Clones.CloneTakes | paging.c:137-162 | a clone takes three frames, lowest first: directory, stack page, stack table |
| Clones.ForkAfterAnyRun | task.c:26-46 | the same of the child of a fork in every state a run reaches |
| Isolation.NonInterference | paging.c:144-161 | after any run, every page of a task's stack slot is what this task's own stores and mappings made of it |
| Tasks.Scheduler.constructor | task.c:14-24 | a ring of one task on the kernel's directory |
| Tasks.Scheduler.LastTask | task.c:35-38 | the walk from the running task ends at the last record of the ring |
| Tasks.Scheduler.Fork | task.c:26-60 | the records stay one cycle; the child is last, has the next id and the recorded context; the parent passes the test of its id and gets the child's |
| Tasks.Scheduler.Switch | task.c:62-93 | saves the running task's context, moves one place round, activates that directory, loads that record; nothing with one task |
| Tasks.Scheduler.GetPid | task.c:95-97 | the id is the place in the ring |
| Tasks.Scheduler.MapTaskPageAt | task.c:99-112 | the walk finds the record of the id; the page is mapped in its directory; an unknown id is reported |
| Scheduling.RoundRobin | task.c:62-93 | between two turns of a task every other one present gets exactly one turn, and the wait is between the number of tasks and that plus the forks meanwhile |
| Scheduling.TurnsUntil | task.c:26-93 | the exact sequence of turns until a task's next, from any point of a growing ring |
| Scheduling.RecordsHoldLastSaved | task.c:68-77 | after any run a record holds the context of the last switch-out, or the fork's |
| Scheduling.ContextConserved | task.c:62-90 | what a switch loads is that context, and never an unfilled record |
| Scheduling.ForkReturns | task.c:42-60 | at its first turn the child resumes the forked context and returns 0 if and only if nobody forked in between, else its own id |
| Elf.FindHighest | elf.c:142-156 | the search keeps the first header with the greatest address |
| Elf.MapSegments | elf.c:142-163 | the loop makes one map for each page of the span, whole pages and the remainder |
| Elf.MapStep | elf.c:158-163 | one map: that page becomes a fresh zeroed frame, every other high address and its contents stay |
| Elf.LoadedPages | elf.c:158-163 | consecutive pages, all mapped, to zeroed frames that were clear before and are all different |
| Elf.PageCountIsCeiling | elf.c:158-163 | the number of pages is the span divided by 4096, rounded up |
| Elf.CoverageExactly | elf.c:142-163 | for non-overlapping segments every byte is covered if and only if the chosen header is not empty or no segment at its address is longer than the rest of its page |
| Elf.EmptyHeaderHidesSegment | elf.c:153-155 | an empty header before a segment at the same address leaves that segment unmapped |
| Elf.CoveredByteMapped | elf.c:142-163 | a covered byte translates to the frame of its page |
| Bytes.Kmemset | memory.asm:14-31 | the bytes asked for get the value, no other changes |
| Bytes.Kmemcpy | memory.asm:34-51 | a forward byte copy for any overlap: a source byte already written is copied as it then is, so with the destination inside the source the gap repeats |
| Screen.Console.ClearScreen | screen.asm:15-28 | all cells blank, the cursor stays |
| Screen.Console.Scroll | screen.asm:89-101 | every row shows the one below; the last row and the one beyond the screen are blank |
| Screen.Console.NewLine | screen.asm:77-109 | the screen shows the log with one more line, scrolled when full, and the registers point at its start |
| Screen.Console.Puts | screen.asm:30-121 | for tab-free strings the screen, cursor and offset are those of the log fed with the string |
| Screen.FeedConcat | screen.asm:52-121 | printing two strings in a row is printing their concatenation |
| Screen.ScreenIsLog | screen.asm:30-121 | equal logs give equal screens and cursors |
| Screen.ScreenShowsLog | screen.asm:30-121 | the bytes at a row and column are the character and colour of the last 25 lines of the log, blanks elsewhere |
| Screen.LogIsLayout | screen.asm:52-88 | the log of a text is the text split at newlines and wrapped at 80, one character lost at each wrap |
| Screen.EightyFirstIsLost | screen.asm:60-88 | after a full row the next character only starts a new line |
| Numbers.DecimalRoundTrip | string.asm:74-145 | a decimal numeral followed by any non-digit reads back as its number |
| Numbers.DecimalLength | string.asm:111-145 | a 32-bit numeral has at most eleven characters |
| Numbers.DigitAt | string.asm:111-145 | every digit of a numeral is the one its place asks for, the first of several not zero |
| Numbers.FirstDigitCounts | string.asm:74-104 | a digit in front of others counts for its place |
| Numbers.RolNibbles | string.asm:166-175 | rotating a word by four bits rotates its nibbles |
| Numbers.HexRoundTrip | string.asm:152-242 | stox of itox is the word, or its low 16 or 8 bits for 's' and 'b' |
| Numbers.HexAt | string.asm:152-198 | 8, 4 or 2 upper-case digits, each the one its place asks for |
| Numbers.BothCasesRead | string.asm:205-242 | digits of either case read as their value |
| Strings.Formatter.Itos | string.asm:111-145 | the signed numeral with a terminator, all stores within 14 bytes |
| Strings.Formatter.Stoi | string.asm:74-104 | the value of sign and digits up to the first other byte, in 32 bits |
| Strings.Formatter.Itox | string.asm:152-198 | the upper-case hexadecimal numeral for the kind, with a terminator, within nine bytes |
| Strings.Formatter.Stox | string.asm:205-242 | the value folded from the bytes up to the terminator, with signed comparisons |
| Strings.Formatter.DecimalThereAndBack | string.asm:74-145 | stoi of itos is the word, for every 32-bit word |
| Strings.Formatter.HexThereAndBack | string.asm:152-242 | stox of itox likewise, for every kind |
| Strings.DecimalConversion | string.asm:396-411 | `%d` and `%i` print the signed value in decimal |
| Strings.HexConversion | string.asm:413-438 | `%x` prints 8, 4 or 2 upper-case hexadecimal digits of the word |
| Strings.OtherConversions | string.asm:381-394 | `%s` prints the string, any other letter the byte |
| Strings.PlainText | string.asm:336-348 | text without directives stands for itself |
| Strings.OneDirective | string.asm:350-379 | a directive stands for its argument's text, an escape for a tab or a newline |
| Strings.ExpandConcat | string.asm:336-438 | two formats in a row with their arguments in a row stand for the two texts in a row |
| Strings.Formatter.AddStr | string.asm:385-394 | the string and its terminator arrive by overlapping four-byte stores |
| Strings.Formatter.Format | string.asm:324-443 | printBuf up to its first zero byte is the expansion of the format, if and only if that is not empty or the buffer began with zero; a long one goes on into substrBuf, of which nothing behind it changes |
| Strings.Formatter.Kprintf | string.asm:324-449 | the console's log is fed the expansion, or of an empty one what printBuf held before |
| Strings.Strlen | string.asm:54-67 | the first zero byte after position 0, which is the length if and only if the string is not empty |
| Strings.Strcmp | string.asm:22-47 | 0 if and only if the strings are equal, else 1 |
| Trees.DotIsNeutral | ramfs.c:134-168 | taking out a "." never changes what a path resolves to |
| Trees.DotDotCancels | ramfs.c:134-168 | taking out `x/..`, x a directory there, never changes it either |
| Trees.UpAndDown | ramfs.c:134-168 | `x/..` leads back if and only if x is a directory made there, or a dot entry at the root |
| Trees.AddDirKeeps | ramfs.c:47-75 | a new directory keeps every dot entry right, the tree ranked from the root, and every chain as it was or longer |
| Trees.AddFileKeeps | ramfs.c:87-103 | so does a new file |
| Trees.ExtendsKeepsPaths | ramfs.c:47-103 | in a grown tree everything that resolved resolves to the same |
| Paths.PathsSurvive | ramfs.c:47-103 | the same for path strings |
| Paths.NewDirectoryPath | ramfs.c:47-75 | the new path leads to the new directory if and only if the name was unused |
| Paths.NewFilePath | ramfs.c:87-103 | the new path leads to the new file if and only if the name was unused |
| Paths.StopsExactly | ramfs.c:144-155 | the scan takes an empty component if and only if the path is "/", starts with two slashes, or has two slashes followed by a third or the end |
| Paths.ScanIsSplitting | ramfs.c:144-155 | the scanned components are those of splitting at every slash and dropping empty parts, if and only if the path is not of that kind |
| Paths.ResolveIsSplitting | ramfs.c:134-168 | findDir's result is that of splitting if and only if the path is "/", or not of that kind, or names nothing, or reaches a file before its first empty component |
| VfsRuns.ResolveAfterAnyRun | ramfs.c:47-168 | so in the tree any run from the fresh ramfs builds with non-empty names |
| Paths.DotInPath | ramfs.c:134-168 | taking "./" out of a path string never changes what it resolves to |
| Paths.DotDotInPath | ramfs.c:134-168 | nor does taking out `x/../`, x a directory there |
| Paths.CanonicalPath | ramfs.c:144-166 | names joined by single slashes, with or without one in front or behind, are scanned as exactly these names |
| Paths.ScanTurn | ramfs.c:145-155 | one turn of the index juggling takes one component and leaves the rest |
| RamFiles.RamFs.constructor | ramfs.c:22-34 | the root directory with its two dot entries |
| RamFiles.RamFs.FindDir | ramfs.c:134-168 | the scan returns what folding the components from the root resolves to: a file's entry, a directory, or -1 |
| RamFiles.RamFs.FindName | ramfs.c:156-158 | the walk along a chain stops at the first entry of that name |
| RamFiles.RamFs.Append | ramfs.c:68-72 | the walk to the end links one entry there and leaves all others alone |
| RamFiles.RamFs.MkDir | ramfs.c:47-75 | under a directory the linked entries become those of the tree with the new directory |
| RamFiles.RamFs.MkFile | ramfs.c:87-103 | likewise for a file, with a block no other file has |
| RamFiles.RamFs.WriteFS | ramfs.c:105-115 | the block's first bytes become the data, its rest and every other file stay |
| RamFiles.RamFs.WritePath | ramfs.c:105-132 | writeFS on what openFS returned: that file's bytes are overwritten, all other files stay |
| RamFiles.RamFs.ReadFS | ramfs.c:117-128 | the buffer gets the bytes of the block from the position on |
| RamFiles.LastWriteWins | ramfs.c:105-115 | after any writes a byte is what the last write reaching it put there |
| RamFiles.UnreachedByte | ramfs.c:105-115 | a byte beyond the end of every write is as it was before them |
| Vfs.FileTable.RegisterFS | vfs.c:49-65 | the mount table grows at its end, nothing else changes |
| Vfs.FileTable.SelectFS | vfs.c:78-101 | the longest mount point that is a proper prefix ending before a slash, first registered on ties; the root filesystem if and only if none is |
| VfsState.ChosenUnique | vfs.c:83-96 | there is at most one such choice |
| VfsState.SelectedIsLongest | vfs.c:78-101 | any other system mounted at the name up to a slash has a shorter mount point, or the same and was registered later; the root is left only when there is none |
| Vfs.FileTable.Open | vfs.c:67-103 | one record is added, the chosen filesystem opened it, and the descriptor is its place; nothing else changes |
| Vfs.FileTable.SeekNode | vfs.c:130-135 | seek reaches record fd |
| Vfs.FileTable.ReadNode | vfs.c:110-114 | read reaches record fd from another start, and record 1 for descriptor 0 |
| Vfs.FileTable.Seek | vfs.c:130-138 | one position changes, nothing else |
| Vfs.FileTable.Read | vfs.c:105-117 | the bytes of the record's file from its position on; the state stays |
| Vfs.FileTable.MkDir | ramfs.c:47-75 | a step that adds the directory to the tree and keeps all open files and all bytes |
| Vfs.FileTable.MkFile | ramfs.c:87-103 | a step that adds the file and its block and keeps the rest |
| Vfs.FileTable.WriteSeekRead | vfs.c:105-138 | a client: after any writes, seek and read return the bytes the writes left at that position |
| Vfs.FileTable.InitVFS | vfs.c:29-47 | the state every run starts in: the root directory alone, the root filesystem, the sentinel |
| VfsRuns.RunGrows | vfs.c:67-138 | through any run of open, seek, read, write, mkDir, mkFile and registerFS the tree stays well formed and only grows, every file has its block, records keep file and filesystem |
| VfsRuns.DescriptorStable | vfs.c:67-138 | descriptor k is the k-th opened file in the state after any run, with the position its last seek gave it |
| VfsRuns.ContentIsWrites | ramfs.c:105-115 | after any run a file's bytes are what the writes to that file, in order, made of them |
| VfsRuns.ReadAfterAnyRun | vfs.c:105-138 | after any run an opened file is still behind its path and its descriptor, and a read returns the bytes at its last seek that the writes to it left |

## Left out

- Kernel.Pager.ClonePageDirectory: the stack copy is made on physical memory, as intended; the page fault the code's read raises whenever the parent's stack page is mapped (`paging.c:155-158`) is stated by `Isolation.StackSourceFaults` and is not a step of the model.
- Isolation.CloneViews: about that intended copy.
- Isolation.ForkCopiesStack: about that intended copy.
- Tasks.Scheduler.MapTaskPageAt: the physical page is one fresh from allocPage, as in the calls of `elf.c`, and the address is at or above 0x400000; `syscalls.c:23` passes the address of the function instead.
- Screen.Console.Puts: strings without tabs.
- Strings.Formatter.AddStr: a non-empty string, because `strlen` is wrong on the empty one.
- Strings.Formatter.Kprintf: an expansion without tabs.
- Vfs.FileTable.SelectFS: a name with a slash behind its first byte needs a registered filesystem besides the root one; without it the code follows -1 as a pointer (`vfs.c:91-92`).
- RamFiles.RamFs.WritePath: paths of files.
- Vfs.FileTable.MkDir: parents that are directories, as for RamFs.MkDir.
- Vfs.FileTable.MkFile: parents that are directories, as for RamFs.MkDir.
- Vfs.FileTable.Read: files of the ramfs whose bytes from the position on are in the block.
- Kernel.Pager.MapPageAt: addresses below 0x400000 are covered by the physical-memory results only, because a mapping there may remove the kernel's own identity pages.
- `freePage` (`paging.c:81-87`): nothing calls it.
- Reading the multiboot memory map, `numTables` and `displayMmap`: they only produce the bitmap, which is arbitrary here.
- `moveStack` beyond taking, mapping and writing its page, TLB and control-register effects, hardware accessed and dirty bits, the user bit's protection: only the C-level fields and memory are modelled.
- Stores of a running task below 0x400000: kernel mode does not stop them, and they can break any kernel structure.
- Task records are objects of their own, not words of the heap page kmalloc returned; their fields other than id, directory, link and the nine registers are not modelled. The saved flags register is loaded into a register that is overwritten at once (`task.c:89`), so it is left out.
- The call of `switchTasks` is commented out at `timer.c:24`; the switch itself is the step.
- Memory is written by words where whole pages are filled or copied; byte order inside a word does not matter there.
- Tabs, `backspace` and the hardware cursor of `screen.asm`: tabs break the relation between offset and column.
- Strings.Formatter.Format: formats that end inside a directive, arguments that do not fit their letter, and empty strings are not covered, because the code then reads past its data. Expansions of more than 357 bytes are not covered, because they go on into `itosBuf`; between `printBuf` and it only `substrBuf` is overwritten, which nothing reads (`string.asm:452-453`).
- `substr` and `appendStrs`.
- RamFiles.RamFs.FindDir: components are at most 24 bytes, the size of the name buffer; the end of a chain is tested before the name behind it is read, where the code reads first (`ramfs.c:156`).
- RamFiles.RamFs.MkFile: parents that are missing or are files, as for MkDir.
- RamFiles.RamFs.MkDir: parents that are missing or are files are not covered; the code links the new entries into the wrong place then.
- `listDir` and `lsDir`, the sample entries `initramfs` makes, and the bytes it writes from past a string literal.
- Vfs.FileTable.Open: the copy of the name has room for its terminator, which the code's has not (`vfs.c:82`); a driver's open is a number passed in; names with a slash need a registered filesystem, as for SelectFS.
- Reading files of driver filesystems (`atapi.c`).
- The rest of `elf.c`: header parsing, file reads, padding copies, the jump.
- `syscalls.c`, interrupts, GDT and IDT, keyboard, prompt, boot code.
