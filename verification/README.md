# Verification of the qword kernel's core

qword is a small x86_64 kernel. This project models the parts of it that are data structures and
state machines and proves what they are for:

- **echfs** (`EchfsModel`, `EchfsSpec`, `Echfs`): a write-back block cache per file over linked chains
  in an on-disk FAT. Each file behaves as a byte array of its own over every run of operations.
  `EchfsLaws` says in positions and bytes what reads, writes and seeks do.
- **AHCI cache** (`Ahci`): a round-robin write-back cache that cannot be told from the raw disk.
- **Memory** (`Pmm`, `Runs`, `Ledger`, `PageTables`, `PageLayout`, `SpaceModel`, `KernelModel`, `Memory`): one bitmap of
  physical pages, a page-granular heap on it, and four-level page tables changed in place, deep-copied
  by fork and freed again. One invariant covers them all: blocks, tables and pages are apart from each
  other and with the reserved pages they are the set bits, over every mixed run of calls.
- **Scheduler** (`Sched`, `SchedLaws`), **events** (`Event`) and **request monitor** (`Urm`): step systems over any
  number of CPUs, threads and senders.
- **Terminal** (`TermModel`, `TermLaws`, `EscapeLaws`, `Terminal`, `ScreenLaws`): an escape-sequence machine
  that redraws only changed cells, with laws for text, lines and every control sequence, byte by byte.
- **Hash trie** (`HashTrie`), **reference-counted slots** (`Dynarray`) and **paths** (`Paths`, `PathLaws`).
- **Initial user stack** (`ElfStack`), **MT19937** (`Rand`) and **calendar arithmetic** (`Time`).

`Bytes` holds the block and byte-range lemmas that the two caches share, `Options` the optional value.

Code that updates state in place is a class with methods (or a method on an array) proved against a
specification written as functions on values; what the kernel promises is then proved about those
functions over whole runs. The modules named `...Laws` and `PageLayout` state what the specification
functions compute in terms of bytes, cells, fields and numbers. Where the code does not do what it is evidently meant to do, the code is
modelled as it stands and a lemma states exactly when it meets the intention: the size recorded
through a second handle (`EchfsSpec.WriteSizeExact`), a kill after a wait (`Sched.KillExact`), cursor
parameters out of range (`TermModel.PutKeepsExactly`), a page table freed while linked
(`Memory.Machine.UnmapPage`), the wrap of the page search (`Memory.Machine.PmmAlloc`), a fork of too many
pages (`Memory.Machine.ForkAddressSpace`), colliding names
(`HashTrie.TwinCannotBeAdded`), a dump past an empty level (`HashTrie.Table.HtDump`), a second removal
(`Dynarray.RemoveExactly`), two awaiters of one event (`Event.NeverOverdrawnExactly`), stale slashes in
a path buffer (`Paths.BufferServesExactly`, `Paths.BufferServesRelativeExactly`), the range of the Julian
day formula (`Time.JdnCountsDays`) and the epoch before 1970 (`Time.EpochIncreasesExactly`). That the
failing inputs are met in practice is shown from a fresh state: `Echfs.ShrinkThroughSecondHandle`,
`TermModel.ZeroHomeEscapes`, `TermModel.OverflowEscapes`, `Memory.Machine.UnmapOnlyPage`, `Memory.ReachWrap`,
`HashTrie.UnlistableTable`, `Event.TwoAwaitersOverdraw`.

Device transfers, memory allocation and random seeds are inputs: a transfer or allocation may fail at
any point (counted, so that an operation is proved to fail only because of one), and a table that needs
seeds gets the sequence of those it will draw. A section that holds a lock is one step.

`dafny verify dfyconfig.toml` checks the whole project.

## Model

| member | source | states |
|---|---|---|
| `EchfsModel.ChainUnique` | root/src/kernel/fs/echfs/echfs.c:707-720 | two chains of the FAT with one start are the same chain, so the walk of a file is determined by the FAT |
| `EchfsModel.ChainDistinct` | root/src/kernel/fs/echfs/echfs.c:707-720 | a chain that reaches its end repeats no block, so every chain walk ends |
| `EchfsModel.AppendBlock` | root/src/kernel/fs/echfs/echfs.c:227-247 | linking a free entry behind a file keeps every chain, keeps the chains pairwise disjoint, and takes exactly that entry from the free ones; free entries plus chain lengths stay constant |
| `EchfsModel.EraseChain` | root/src/kernel/fs/echfs/echfs.c:250-265 | zeroing a whole chain keeps every other chain and frees exactly that chain |
| `EchfsModel.ContentsDetermined` | root/src/kernel/fs/echfs/echfs.c:286-362 | cache slots, allocation map and device leave exactly one possible contents for a file |
| `EchfsModel.GrowStore` | root/src/kernel/fs/echfs/echfs.c:333-349 | one more block keeps the whole store well formed, keeps the existing contents of the file and touches no other file |
| `EchfsModel.EraseStore` | root/src/kernel/fs/echfs/echfs.c:250-284 | erasing keeps the store well formed, frees exactly the chain of the file and conserves blocks |
| `EchfsModel.RemountKeepsContents` | root/src/kernel/fs/echfs/echfs.c:169-200 | when every file is written back, dropping all caches loses nothing |
| `EchfsSpec.StepByte` | root/src/kernel/fs/echfs/echfs.c:364-479 | one operation changes a byte of a file only by writing that byte, and drops none unless it empties the file |
| `EchfsSpec.CoveredByte` | root/src/kernel/fs/echfs/echfs.c:419-479 | a write makes the bytes it transfers, whether or not the file reached so far before |
| `EchfsSpec.FilesAreByteArrays` | root/src/kernel/fs/echfs/echfs.c:286-479 | over every run of reads, writes, seeks, opens, creations and write-backs, each byte of each file, from any state of the run in which it exists and until the file is emptied, is what the last write over it put there; caching, eviction, growth and write-back of any file never change it |
| `EchfsSpec.ByteOfLastWrite` | root/src/kernel/fs/echfs/echfs.c:286-479 | over every run from any state, whether the file or the byte existed at its start or not: a byte whose last write is known, in a file not emptied since, is what that write put there |
| `EchfsSpec.ReadsReturnLastWritten` | root/src/kernel/fs/echfs/echfs.c:364-417 | over every run from any state, a read that succeeds returns byte for byte what was last written, unless the file was emptied since |
| `EchfsSpec.ReadsReturnFirstContents` | root/src/kernel/fs/echfs/echfs.c:364-417 | bytes that nothing in the run wrote are read as they were when it began |
| `EchfsSpec.BlocksConserved` | root/src/kernel/fs/echfs/echfs.c:227-284 | over every run, free FAT entries plus all chain lengths stay constant |
| `EchfsSpec.WriteSizeExact` | root/src/kernel/fs/echfs/echfs.c:468-474 | the size recorded after a write is the right one exactly when the end remembered by the handle and the size of the file lie on the same side of the end of the write |
| `Echfs.ShrinkThroughSecondHandle` | root/src/kernel/fs/echfs/echfs.c:468-474 | from a fresh device: a second handle, opened while the file was empty, shrinks a file of 100 bytes to 10, unless an allocation failed |
| `EchfsSpec.ClipExact` | root/src/kernel/fs/echfs/echfs.c:380-381 | for all 64-bit positions, ends and counts: a read either stays inside the end of its handle or runs past all 64-bit positions, and it stays inside exactly if it starts there and position plus count do not overflow |
| `Echfs.Mount.AllocateEmptyBlock` | root/src/kernel/fs/echfs/echfs.c:227-247 | takes the first free entry, marks it as the end of a chain and links it behind the previous block, and changes nothing else |
| `Echfs.Mount.FindBlock` | root/src/kernel/fs/echfs/echfs.c:286-295 | finds the slot in use that holds the block, or there is none |
| `Echfs.Mount.CacheBlock` | root/src/kernel/fs/echfs/echfs.c:297-362 | a miss brings the block into a slot, growing the file if needed, and changes no existing byte of any file; it fails exactly when no buffer could be allocated, and then changes nothing |
| `Echfs.Mount.EvictSlot` | root/src/kernel/fs/echfs/echfs.c:306-320 | takes the slots round robin and writes the victim back first if it is dirty |
| `Echfs.Mount.GrowTo` | root/src/kernel/fs/echfs/echfs.c:333-349 | grows the chain until it has the block, keeping contents and the other files |
| `Echfs.Mount.Read` | root/src/kernel/fs/echfs/echfs.c:364-417 | returns the range of the file that the 64-bit clip grants and advances the handle; fails with EIO exactly when a buffer allocation failed; changes no byte of any file |
| `Echfs.Mount.Write` | root/src/kernel/fs/echfs/echfs.c:419-479 | changes exactly the written range of exactly that file (which range that is: `EchfsLaws.WriteAtPosition`, `EchfsLaws.WriteAtEnd`); position, end and size of handle and file as the code sets them; fails with EIO exactly when a buffer allocation failed, having written the prefix it reports |
| `Echfs.Mount.FreeChain` | root/src/kernel/fs/echfs/echfs.c:252-265 | the walk that zeroes the FAT zeroes exactly the chain |
| `Echfs.Mount.Erase` | root/src/kernel/fs/echfs/echfs.c:250-284 | the file is empty afterwards, its chain is free, nothing else changed |
| `Echfs.Mount.SynchroniseCachedFile` | root/src/kernel/fs/echfs/echfs.c:169-200 | entry and dirty blocks reach the device and nothing visible changes |
| `Echfs.Mount.Sync` | root/src/kernel/fs/echfs/echfs.c:202-225 | afterwards a fresh mount of the device shows the same contents, if the cached files could be listed or there are none; otherwise nothing is written |
| `Echfs.Mount.WalkChain` | root/src/kernel/fs/echfs/echfs.c:707-719 | the walk ends and yields the chain |
| `Echfs.Mount.CacheFile` | root/src/kernel/fs/echfs/echfs.c:678-727 | caching a file sets its allocation map to its chain and changes no contents |
| `Echfs.Mount.Open` | root/src/kernel/fs/echfs/echfs.c:788-871 | opens, or empties and opens, under an unused handle |
| `Echfs.Mount.Create` | root/src/kernel/fs/echfs/echfs.c:816-838 | adds an empty file and touches no other |
| `Echfs.Mount.Seek` | root/src/kernel/fs/echfs/echfs.c:873-936 | moves the handle to the 64-bit position, at or past the end (and so below zero) only if it is writable, and returns the position cut to an int, or -1 |
| `Echfs.Mount.DoAll` | root/src/kernel/fs/echfs/echfs.c:364-479 | any sequence of operations, as far as their demands are met, is a run of the specification that keeps the invariant |
| `EchfsLaws.WriteAtPosition` | root/src/kernel/fs/echfs/echfs.c:438-479 | without O_APPEND a write that succeeds puts its bytes at the position of the handle and changes no other byte of any file; position and end move behind them |
| `EchfsLaws.WriteAtEnd` | root/src/kernel/fs/echfs/echfs.c:438-479 | with O_APPEND it puts them at the end that the handle knows, wherever the position is, and changes no byte below |
| `EchfsLaws.WriteFails` | root/src/kernel/fs/echfs/echfs.c:438-479 | a write that fails leaves the bytes it transferred at the same place and its position in front of them |
| `EchfsLaws.ReadAtPosition` | root/src/kernel/fs/echfs/echfs.c:364-417 | a read returns the bytes from the position on, as many as asked for or as are left before the end, and moves the position behind them |
| `EchfsLaws.SeekMoves` | root/src/kernel/fs/echfs/echfs.c:873-936 | where each kind of seek goes, and when it is refused |
| `EchfsLaws.SeekBackAndForth` | root/src/kernel/fs/echfs/echfs.c:873-936 | a step back takes back a step forward |
| `EchfsLaws.SeekWriteSeekRead` | root/src/kernel/fs/echfs/echfs.c:364-479 | over a run: what is written at a position is read back from it |
| `Ahci.VisibleDetermined` | root/src/kernel/devices/storage/sata/sata.c:385-437 | slots and disk leave exactly one possible visible contents |
| `Ahci.CleanIsDisk` | root/src/kernel/devices/storage/sata/sata.c:498-520 | with no dirty slot the disk is what is visible |
| `Ahci.Drive.constructor` | root/src/kernel/devices/storage/sata/sata.c:271-271 | a drive with no slot in use shows its disk |
| `Ahci.Drive.FindBlock` | root/src/kernel/devices/storage/sata/sata.c:385-393 | finds the slot in use that holds the block, or there is none |
| `Ahci.Drive.PickSlot` | root/src/kernel/devices/storage/sata/sata.c:395-416 | an empty slot, or the next one round robin with its dirty contents written back; fails exactly when that transfer fails |
| `Ahci.Drive.CacheBlock` | root/src/kernel/devices/storage/sata/sata.c:395-437 | a miss never changes what is visible, keeps at most one slot per block, and fails exactly when a transfer fails |
| `Ahci.Drive.Read` | root/src/kernel/devices/storage/sata/sata.c:439-466 | returns what is visible; fails exactly when a transfer fails |
| `Ahci.Drive.Write` | root/src/kernel/devices/storage/sata/sata.c:468-496 | afterwards the bytes transferred are visible, one by one, from the position on and every other byte is as before; when a transfer fails, they are exactly the prefix before it |
| `Ahci.Drive.Flush` | root/src/kernel/devices/storage/sata/sata.c:498-520 | a flush that succeeds leaves the disk equal to what was visible |
| `Ahci.Drive.DoAll` | root/src/kernel/devices/storage/sata/sata.c:439-520 | every history of reads, writes and flushes gets the answers of a raw disk, over any hits, misses and evictions, and after a last flush that succeeds the disk holds what the history made of it |
| `Ahci.RawAt` | root/src/kernel/devices/storage/sata/sata.c:468-496 | one operation changes exactly the bytes that it wrote, each to the one it was given |
| `Ahci.WrittenByte` | root/src/kernel/devices/storage/sata/sata.c:439-520 | after every history a byte is what the last write over it put there |
| `Ahci.UnwrittenByte` | root/src/kernel/devices/storage/sata/sata.c:439-520 | and as it was at the start if none did |
| `Ahci.ReadsReturnLastWritten` | root/src/kernel/devices/storage/sata/sata.c:439-496 | in every history a read that succeeds returns, byte for byte, what the last write over each byte put there |
| `Ahci.ReadsReturnFirstContents` | root/src/kernel/devices/storage/sata/sata.c:439-496 | or what the disk held at first, if nothing wrote it |
| `Ahci.SuccessIsComplete` | root/src/kernel/devices/storage/sata/sata.c:468-496 | a write succeeds exactly when it wrote all its bytes, and exactly when no transfer failed |
| `Sched.LockHeldByExactlyOne` | root/src/kernel/proc/task.c:250-308 | the lock of a live thread is held exactly when a CPU has it current, and then only one has |
| `Sched.NextUnique` | root/src/kernel/proc/task.c:167-216 | there is only one first eligible thread in cyclic order |
| `Sched.KillExact` | root/src/kernel/proc/task.c:515-569 | a kill keeps the table, count and lock invariant exactly when the slot still holds a thread and the CPU noted before the wait is the one that runs it now, or it runs nowhere and that CPU is idle |
| `Sched.KillAfterWaitCanBreak` | root/src/kernel/proc/task.c:525-542 | a CPU that picks the thread up during the wait of a kill is left running a freed thread |
| `Sched.StepKeeps` | root/src/kernel/proc/task.c:250-308 | create, enable, fork, kill and reschedule on any CPU keep the invariant |
| `Sched.WaitStepExact` | root/src/kernel/proc/task.c:515-569 | noting the CPU for a kill keeps the invariant, and freeing the thread after the wait keeps it exactly when what was noted is still right |
| `Sched.WaitingKills` | root/src/kernel/proc/task.c:515-569 | over every run in which kills note the CPU, wait and free later, interleaved with every other step: the invariant holds throughout exactly if every kill is still safe when it frees its thread |
| `Sched.RunKeepsOk` | root/src/kernel/proc/task.c:250-308 | in every reachable state used slots are a prefix, the count is the number of live slots and each lock is held by exactly the CPU that runs the thread |
| `Sched.FairRun` | root/src/kernel/proc/task.c:167-308 | in every run of steps that makes and kills no thread, a thread eligible whenever a CPU reschedules is run by that CPU after at most as many of its reschedules as there are threads |
| `Sched.RunReschedules` | root/src/kernel/proc/task.c:250-308 | what a CPU runs before, between and after its reschedules in such a run, whatever the other CPUs and the environment do in between, is a sequence of searches each starting after the last choice |
| `Sched.Fair` | root/src/kernel/proc/task.c:167-216 | for such a sequence of searches: an eligible thread is chosen within as many as there are threads |
| `Sched.FairFrom` | root/src/kernel/proc/task.c:167-216 | each choice of another thread brings the search strictly closer |
| `Sched.SearchRewinds` | root/src/kernel/proc/task.c:167-216 | the rewind at a slot never used skips no live thread and happens once |
| `Sched.SearchPasses` | root/src/kernel/proc/task.c:167-216 | each live thread is met at most once |
| `Sched.SearchFinds` | root/src/kernel/proc/task.c:167-216 | the thread taken is the first eligible one in cyclic order after the current one |
| `Sched.SearchEnds` | root/src/kernel/proc/task.c:167-216 | a search that met as many threads as there are has met them all and none was eligible |
| `Sched.Scheduler.TaskGetNext` | root/src/kernel/proc/task.c:167-216 | ends, returns the first eligible thread in cyclic order or -1 when none is, and takes its lock and one count of its event (in the fields of the threads: `SchedLaws`) |
| `Sched.Scheduler.TaskResched` | root/src/kernel/proc/task.c:250-308 | releases the current thread, runs the next or idles, and keeps the invariant |
| `Sched.Scheduler.Reserve` | root/src/kernel/proc/task.c:573-597 | reserves the first free slot and keeps the invariant |
| `Sched.Scheduler.Enable` | root/src/kernel/proc/task.c:747-752 | turns the reserved slot into a thread, or gives it up when memory ran out |
| `Sched.Scheduler.Fork` | root/src/kernel/proc/syscalls.c:574-598 | puts the new thread in the first free slot and keeps the invariant |
| `Sched.Scheduler.TaskTkill` | root/src/kernel/proc/task.c:515-569 | the new state, and exactly when it still satisfies the invariant |
| `SchedLaws.NeverChosen` | root/src/kernel/proc/task.c:185-208 | a thread that sleeps, is paused, is held by a CPU, or waits without abort for an event not triggered is never chosen |
| `SchedLaws.IdleOnlyIfAllBlocked` | root/src/kernel/proc/task.c:173-215 | when no thread is chosen every thread is in one of those states |
| `SchedLaws.NobodyIsSkipped` | root/src/kernel/proc/task.c:173-215 | and so is every thread between the current one and the choice, going up and around |
| `SchedLaws.FreshIsChosen` | root/src/kernel/proc/task.c:167-216 | a thread just created is chosen at every time if it is the only one |
| `SchedLaws.SleeperWakes` | root/src/kernel/proc/task.c:185-187 | a sleeping thread that is the only one is chosen exactly from its wake-up time on |
| `SchedLaws.WaiterWakes` | root/src/kernel/proc/task.c:197-207 | a waiting thread that is the only one is chosen exactly after a trigger or an abort |
| `SchedLaws.TimePasses` | root/src/kernel/proc/task.c:185-187 | time alone never makes the scheduler idle |
| `SchedLaws.ReschedChanges` | root/src/kernel/proc/task.c:250-308 | every slot, event and CPU after a reschedule: the current thread is let go, the next one locked and active here with one trigger of its event used up, and nothing else changes |
| `SchedLaws.RunsOn` | root/src/kernel/proc/task.c:250-308 | a thread that gives up its CPU runs on if no other can |
| `SchedLaws.NewThread` | root/src/kernel/proc/task.c:587-597 | a new thread goes into the first free slot, awake and unlocked, and no other slot changes |
| `SchedLaws.KillChanges` | root/src/kernel/proc/task.c:515-569 | a kill empties the slot, drops the CPU noted and touches nothing else |
| `Sched.Scheduler.constructor` | root/src/kernel/proc/task.c:40-68 | the empty task table satisfies the invariant |
| `TermModel.TargetExactly` | root/src/kernel/devices/term/tty/output.inc:214-316 | in 32-bit arithmetic, for all parameters: a cursor sequence lands inside the grid exactly unless its parameters are out of the range given for its final byte |
| `TermModel.CsiKeepsExactly` | root/src/kernel/devices/term/tty/output.inc:191-343 | a control sequence byte keeps a terminal in a good state exactly unless it completes such a sequence |
| `TermModel.PutKeepsExactly` | root/src/kernel/devices/term/tty/output.inc:345-441 | a byte that fits the parameter table keeps cursor, saved cursor, grid and parser good exactly unless it completes such a sequence, and those put the cursor outside |
| `TermModel.ParameterRead` | root/src/kernel/devices/term/tty/output.inc:191-196 | the digits of a parameter are read as the number they write, wrapped to an int |
| `TermModel.OverflowEscapes` | root/src/kernel/devices/term/tty/output.inc:218-273 | on a new terminal of at least two rows the parameters 2147483647 (down), 4294967296 (position) and 3000000000 (up) pass every clamp and put the cursor outside |
| `TermModel.ZeroHomeEscapes` | root/src/kernel/devices/term/tty/output.inc:265-273 | on a new terminal of any size the bytes ESC [ 0 H put the cursor above the first row |
| `Terminal.CursorsStayInside` | root/src/kernel/devices/term/tty/output.inc:191-441 | over every run of bytes and switches, none of which completes such a sequence, every cursor stays inside its grid |
| `Terminal.Terminals.constructor` | root/src/kernel/devices/term/tty/tty.c:150-208 | blank terminals, and the screen shows the first |
| `Terminal.Terminals.PlotCharGrid` | root/src/kernel/devices/term/tty/output.inc:48-59 | stores the cell, and draws it exactly when the terminal is on the screen |
| `Terminal.Terminals.ClearCursor` | root/src/kernel/devices/term/tty/output.inc:61-71 | leaves the screen showing the grid alone |
| `Terminal.Terminals.DrawCursor` | root/src/kernel/devices/term/tty/output.inc:73-82 | leaves the screen a full redraw |
| `Terminal.Terminals.Refresh` | root/src/kernel/devices/term/tty/output.inc:84-96 | draws the whole current terminal |
| `Terminal.Terminals.Scroll` | root/src/kernel/devices/term/tty/output.inc:98-122 | every row moves up by one, the last is blank, and the screen follows |
| `Terminal.Terminals.Clear` | root/src/kernel/devices/term/tty/output.inc:124-141 | blanks every cell and homes the cursor |
| `Terminal.Terminals.SetCursorPos` | root/src/kernel/devices/term/tty/output.inc:155-161 | moves the cursor; the screen is a full redraw again |
| `Terminal.Terminals.SelectGraphics` | root/src/kernel/devices/term/tty/output.inc:163-189 | the colours after a graphics sequence, by folding its parameters |
| `Terminal.Terminals.EraseToCursor` | root/src/kernel/devices/term/tty/output.inc:275-292 | blanks exactly the cells before the cursor |
| `Terminal.Terminals.ControlSequenceParse` | root/src/kernel/devices/term/tty/output.inc:191-343 | one byte of a control sequence has its specified effect and the screen stays a full redraw |
| `Terminal.Terminals.PutChar` | root/src/kernel/devices/term/tty/output.inc:345-441 | one byte has its specified effect on the terminal and the screen stays a full redraw of the current one |
| `Terminal.Terminals.Process` | root/src/kernel/devices/term/tty/output.inc:366-441 | after any sequence of bytes to any terminals and any switches, the screen equals a full redraw of the current terminal although only changed cells are drawn |
| `Terminal.ApplyKeeps` | root/src/kernel/devices/term/tty/input.inc:277-284 | one byte or switch keeps every terminal good |
| `TermLaws.NewTerminal` | root/src/kernel/devices/term/tty/tty.c:166-208 | a new terminal is blank, with its cursor in the first cell |
| `TermLaws.Text` | root/src/kernel/devices/term/tty/output.inc:424-437 | a byte that is shown fills the cell of the cursor in the current colours, and the cursor goes on row by row; behind the last cell the rows move up by exactly one, with a blank last row |
| `TermLaws.NewLine` | root/src/kernel/devices/term/tty/output.inc:405-411 | a new line begins at column 0 of the next row; in the last row the rows move up instead |
| `TermLaws.Motion` | root/src/kernel/devices/term/tty/output.inc:389-423 | return goes to column 0 of the same row, backspace one cell back, and NUL and bell do nothing |
| `TermLaws.Tabulator` | root/src/kernel/devices/term/tty/output.inc:394-398 | a tab goes to the next column that is a multiple of 8, if there is one |
| `TermLaws.BackspaceUndoes` | root/src/kernel/devices/term/tty/output.inc:413-437 | backspace undoes the advance of the cursor |
| `TermLaws.TextLiesRowByRow` | root/src/kernel/devices/term/tty/output.inc:424-437 | text of any length on a new terminal lies row by row: cell i holds the i-th byte behind the rows that had to go, of which there are as many as needed |
| `TermLaws.LinesLie` | root/src/kernel/devices/term/tty/output.inc:405-437 | lines on a new terminal: line i stands in row i from column 0 on; of more lines than rows the last ones stand there; everything else is blank |
| `EscapeLaws.ParametersRead` | root/src/kernel/devices/term/tty/output.inc:191-213 | every parameter of a control sequence is read as the number its digits write, 1 if it was left out before a semicolon |
| `EscapeLaws.Dropped` | root/src/kernel/devices/term/tty/output.inc:345-364 | an escape byte with anything but a bracket behind it is dropped with it |
| `EscapeLaws.Steps` | root/src/kernel/devices/term/tty/output.inc:218-249 | for the final bytes A to F: the cursor goes that many rows or columns, 1 by default, and stops at the edge; nothing else changes |
| `EscapeLaws.Lines` | root/src/kernel/devices/term/tty/output.inc:250-264 | for d, G and the backquote: row or column by number from 0, if there is such a one |
| `EscapeLaws.Home` | root/src/kernel/devices/term/tty/output.inc:265-274 | for H and f: row and column from 1, or the last ones |
| `EscapeLaws.SaveRestore` | root/src/kernel/devices/term/tty/output.inc:307-316 | the cursor saved by s is the one restored by u |
| `EscapeLaws.Erase` | root/src/kernel/devices/term/tty/output.inc:275-299 | for J: 1 blanks what is before the cursor, 2 everything and homes the cursor, another number nothing |
| `EscapeLaws.GraphicsParameter` | root/src/kernel/devices/term/tty/output.inc:163-189 | for m: no parameter resets the colours, and what one parameter does |
| `EscapeLaws.GraphicsParameters` | root/src/kernel/devices/term/tty/output.inc:163-189 | one more parameter changes the colours that those before it leave |
| `EscapeLaws.NamedColours` | root/src/kernel/devices/term/tty/output.inc:163-189 | three sequences with their colours |
| `EscapeLaws.Region` | root/src/kernel/devices/term/tty/output.inc:303-306 | for r: the scrolling region is noted |
| `EscapeLaws.Unknown` | root/src/kernel/devices/term/tty/output.inc:334-343 | an unknown final byte only ends the sequence |
| `EscapeLaws.PlainMode` | root/src/kernel/devices/term/tty/output.inc:317-330 | h and l without a question mark change nothing |
| `EscapeLaws.PrivateMode` | root/src/kernel/devices/term/tty/output.inc:317-333 | with one, h sets and l clears the cursor-key mode, whatever the number between |
| `ScreenLaws.ScreenCell` | root/src/kernel/devices/term/tty/output.inc:73-96 | the screen shows each character in its colours, and the one under the cursor in those of the cursor |
| `ScreenLaws.OwnBytes` | root/src/kernel/devices/term/tty/output.inc:366-381 | over every run each terminal is what its own bytes make of it, whatever is sent to the others |
| `ScreenLaws.LastSwitch` | root/src/kernel/devices/term/tty/input.inc:277-284 | on the screen is the terminal last switched to |
| `PageTables.SplitJoin` | root/src/kernel/mm/vmm.c:13-25 | joining four indices and splitting the address are inverse to each other |
| `PageTables.NextPath` | root/src/kernel/mm/vmm.c:139-142 | the address one page further on leads to the next page: carries between the four indices |
| `PageTables.WalkIsLeaf` | root/src/kernel/mm/vmm.c:135-188 | the walk of the hardware from the root and the entry of the tree agree on every page |
| `PageTables.LinkTable` | root/src/kernel/mm/vmm.c:150-158 | linking a zeroed frame used by no table adds an empty table and changes the translation of no page |
| `PageTables.StoreLeaf` | root/src/kernel/mm/vmm.c:186-188 | storing a page table entry changes the translation of that page only |
| `PageTables.TreeFrame` | root/src/kernel/mm/vmm.c:75-131 | an address space does not see changes of frames that are none of its tables |
| `PageLayout.SizesAgree` | root/src/kernel/mm/mm.h:8-10 | a table of 512 entries of 8 bytes is a page of 4096, for the allocator and the tables alike; the pool of a fork is 16 MiB |
| `PageLayout.Masks` | root/src/kernel/mm/vmm.c:94-113 | the two masks of the code cut a word into its lowest 12 bits and the rest |
| `PageLayout.EntryByMasks` | root/src/kernel/mm/vmm.c:186-188 | an entry that holds a frame with flags, read by the masks: the flags are its lowest 12 bits and the rest is the address of the frame |
| `PageLayout.OrIsSum` | root/src/kernel/mm/vmm.c:188-188 | address or flags is address plus flags |
| `PageLayout.PresentBit` | root/src/kernel/mm/vmm.c:147-147 | an entry is present exactly if its lowest bit is set |
| `PageLayout.IndexValues` | root/src/kernel/mm/vmm.c:139-142 | the four indices of an address are its bits 12 to 47, nine each |
| `PageLayout.AddressIsNumber` | root/src/kernel/mm/vmm.c:135-142 | for every address of the lower half, its page number times 4096 is the address without its lowest 12 bits |
| `PageLayout.ForkByMasks` | root/src/kernel/mm/vmm.c:94-114 | for every page of the parent, the entry of the child has the same lowest 12 bits and its frame the same contents |
| `SpaceModel.NeededMore` | root/src/kernel/mm/vmm.c:135-188 | a set of pages needs at least the tables that any part of it needs |
| `SpaceModel.TooManyTables` | root/src/kernel/mm/vmm.c:102-114 | a fork that cannot have a table shows that the pages of the parent need more tables than there are free frames |
| `SpaceModel.TooManyPages` | root/src/kernel/mm/vmm.c:103-105 | a page left when the pool is used up shows that the parent has more pages than the pool |
| `SpaceModel.CopyStep` | root/src/kernel/mm/vmm.c:102-114 | the fork invariant after one more page |
| `SpaceModel.PoolReturned` | root/src/kernel/mm/vmm.c:123-123 | giving back the rest of the pool accounts for every frame |
| `SpaceModel.ForkCanBeFreed` | root/src/kernel/mm/vmm.c:41-131 | what a fork holds, each frame once, is what freeing it gives back |
| `Ledger.Acquire` | root/src/kernel/mm/pmm.c:128-157 | pages taken from the free ones by a new owner keep every page free, reserved or held by exactly one owner |
| `Ledger.Extend` | root/src/kernel/mm/pmm.c:128-157 | so do further pages taken by an owner |
| `Ledger.Release` | root/src/kernel/mm/pmm.c:174-184 | what an owner gives back was free for nobody else and is free afterwards |
| `Pmm.ScanFound` | root/src/kernel/mm/pmm.c:133-150 | the run at which the search stops is the first at or after its start |
| `Pmm.AgainFound` | root/src/kernel/mm/pmm.c:133-150 | after coming back to the first page, the search stops at the first run of all, or at one across the end of the bitmap |
| `Pmm.AgainEnds` | root/src/kernel/mm/pmm.c:133-145 | a search that has come round and found nothing has met every run there is before its start |
| `Pmm.MarkedPages` | root/src/kernel/mm/pmm.c:33-51 | setting a run takes its pages from the set of free ones, clearing it gives them back |
| `Pmm.TakeOne` | root/src/kernel/mm/pmm.c:128-157 | a single page is found exactly when one is free at or after the search position, and no free page is passed |
| `Pmm.BitmapDetermined` | root/src/kernel/mm/pmm.c:27-31 | two bitmaps with the same free pages are the same, so a free set that is restored is a bitmap that is restored |
| `Pmm.WrapWithFreePages` | root/src/kernel/mm/pmm.c:134-137 | the faulty wrap is met although two adjacent pages are free behind the search |
| `Pmm.BlockShape` | root/src/kernel/lib/alloc.c:11-31 | a block takes the fewest pages of 4096 bytes that hold it and one in front, and starts zeroed |
| `Memory.ReachWrap` | root/src/kernel/mm/pmm.c:134-137 | a fresh machine comes to that state by one allocation and one release |
| `Memory.Machine.constructor` | root/src/kernel/mm/pmm.c:54-125 | no block, no address space, and the pages in use reserved: the invariant holds |
| `Memory.Machine.PmmAlloc` | root/src/kernel/mm/pmm.c:128-157 | finds the first run of free pages at or after the search position (for a run of 4096 pages also before it) and marks exactly it; says that there is none exactly when it started at the first page or came back to it; otherwise it comes to the end of the bitmap in the wrong place |
| `Memory.Machine.SetBitmap` | root/src/kernel/mm/pmm.c:33-51 | sets or clears exactly the given bits |
| `Memory.Machine.PmmAllocz` | root/src/kernel/mm/pmm.c:159-171 | the run that the search finds, zeroed, and nothing else changed |
| `Memory.Machine.AllocPage` | root/src/kernel/mm/pmm.c:159-171 | one zeroed page from those ahead of the search; fails exactly when none is |
| `Memory.Machine.EnsureTable` | root/src/kernel/mm/vmm.c:146-158 | the next table, created if absent, with no translation changed; fails exactly when it is absent and no frame is free at or after the search position |
| `Memory.Machine.MapPage` | root/src/kernel/mm/vmm.c:135-228 | the entry is the address of the frame plus the flags; changes the translation of no other page, and takes exactly the missing tables from the free frames; succeeds exactly when there are as many as are missing, and reports a failure exactly when the first table is missing, no frame is ahead and the search started at the first page |
| `Memory.Machine.RemapPage` | root/src/kernel/mm/vmm.c:316-361 | changes the flags of one page and keeps its frame; fails exactly when the page has no table |
| `Memory.Machine.UnmapPage` | root/src/kernel/mm/vmm.c:230-313 | removes one translation; the address space keeps its tables exactly when the page table still has a present entry (else exactly that table is freed while it stays linked) |
| `Memory.Machine.UnmapOnlyPage` | root/src/kernel/mm/vmm.c:269-280 | a new address space with one page comes to that: after the page is unmapped its table is free and still linked |
| `Memory.Machine.CopyPage` | root/src/kernel/mm/vmm.c:102-114 | one page of the parent copied to the next frame of the pool and mapped at the address joined from its indices, with the same flags |
| `Memory.Machine.ForkPage` | root/src/kernel/mm/vmm.c:102-114 | one entry of a page table is copied; a panic shows more pages than the pool, a missing table more tables than frames |
| `Memory.Machine.ForkBelow` | root/src/kernel/mm/vmm.c:92-121 | everything below a table is copied, with the same two ways to fail |
| `Memory.Machine.ForkInto` | root/src/kernel/mm/vmm.c:87-131 | the copy into an empty address space is done exactly when pool and tables can be had and the parent has at most 4096 pages; with pool and tables it panics exactly when it has more |
| `Memory.Machine.ForkAddressSpace` | root/src/kernel/mm/vmm.c:75-131 | the child maps exactly the lower-half pages of the parent with the same flags and contents, on frames of its own, shares the upper half of the kernel, and what it took is what record, tables and pages account for; done, and panicked, exactly under a condition on bitmap and parent before the call |
| `Memory.Machine.FreeBelow` | root/src/kernel/mm/vmm.c:48-69 | frees exactly the tables and pages below a table, each once |
| `Memory.Machine.FreeAddressSpace` | root/src/kernel/mm/vmm.c:41-73 | exactly the tables, pages and record of the address space become free, and everything else is as it was |
| `Memory.Machine.ForkThenFree` | root/src/kernel/mm/vmm.c:41-131 | a fork that is freed again leaves the bitmap, every block and every address space exactly as they were |
| `Memory.Machine.NewAddressSpace` | root/src/kernel/mm/vmm.c:27-39 | a record and a zeroed root that maps nothing; done exactly when the two searches find their pages |
| `Memory.Machine.AllocAt` | root/src/kernel/proc/syscalls.c:625-675 | fresh zeroed pages in one run of frames at consecutive unmapped addresses; every other page, translation, block and address space is as it was; done exactly when the run is found and the pages ahead suffice for the missing tables |
| `Memory.Machine.MapRange` | root/src/kernel/proc/syscalls.c:657-664 | the loop over the pages: it comes to its end exactly when the tables that the whole range needs can be had |
| `Memory.Machine.Remap` | root/src/kernel/mm/vmm.c:316-361 | changes the flags of one mapped page and keeps the invariant, every frame, every other translation and everybody else |
| `Memory.Machine.Kalloc` | root/src/kernel/lib/alloc.c:11-31 | a zeroed block on pages that were free, and nothing else changed; or a reported failure, exactly when the search fails cleanly |
| `Memory.Machine.Kfree` | root/src/kernel/lib/alloc.c:33-37 | exactly the pages of the block become free |
| `Memory.Machine.Krealloc` | root/src/kernel/lib/alloc.c:39-71 | the first bytes, up to the smaller size, are kept, every other block and every address space is untouched, with the exact condition for each outcome |
| `Memory.Machine.Do` | root/src/kernel/lib/alloc.c:11-71 | one allocation, release, resize, new address space, mapping of pages, change of flags, fork or drop keeps the invariant exactly when no search goes astray and a fork has what it needs |
| `Memory.Machine.Perform` | root/src/kernel/lib/alloc.c:11-71 | over every sequence of allocator and address-space calls the invariant holds in every state, up to the first call that a caller may not make or that goes wrong; when that is, is stated exactly |
| `KernelModel.SetBitsAreHeld` | root/src/kernel/mm/pmm.c:23-51 | the invariant: the bit of a page is set exactly if it is reserved or held by a block or an address space, and no page is held twice |
| `KernelModel.Undisturbed` | root/src/kernel/mm/vmm.c:27-228 | over every such run, a block or address space that no call names keeps its bytes, its tables, its pages and what is in them |
| `KernelModel.SameTranslation` | root/src/kernel/mm/vmm.c:135-188 | and with them every translation |
| `KernelModel.BlockAdded` | root/src/kernel/lib/alloc.c:11-31 | a new block on a free run is apart from every block, table and page |
| `KernelModel.BlockDropped` | root/src/kernel/lib/alloc.c:33-37 | giving a block back frees exactly its pages and keeps the invariant |
| `KernelModel.FreshMapped` | root/src/kernel/proc/syscalls.c:657-664 | with one more page of the run mapped, the kernel to which the rest of the run is still free satisfies the invariant |
| `KernelModel.TablesLack` | root/src/kernel/proc/syscalls.c:657-664 | a table that cannot be had for one page shows that the pages ahead did not suffice for the range |
| `KernelModel.FlagsKept` | root/src/kernel/mm/vmm.c:316-361 | changing the flags of a page that stays present keeps the invariant |
| `KernelModel.PageAdded` | root/src/kernel/proc/syscalls.c:650-665 | a page mapped in an address space, with the tables it needed, keeps all its frames apart |
| `KernelModel.ForkMade` | root/src/kernel/mm/vmm.c:75-131 | the child of a fork keeps every block, table and page apart |
| `KernelModel.NothingLeft` | root/src/kernel/mm/vmm.c:41-131 | once the child is freed, blocks and address spaces are those from before the fork |
| `HashTrie.HashStr` | root/src/kernel/lib/ht.h:12-20 | the slot is (33^len * seed + H(name) mod 2^64) mod 4095 + 1, where H does not depend on the seed |
| `HashTrie.HashLinear` | root/src/kernel/lib/ht.h:12-20 | the accumulator is 33^len * seed + H(name) mod 2^64 |
| `HashTrie.TwinsAlwaysCollide` | root/src/kernel/lib/ht.h:12-20 | two names of equal length and equal H share a slot at every level for every seed |
| `HashTrie.SeedForHits` | root/src/kernel/lib/ht.h:12-20 | for every name and every 64-bit word there is a seed whose accumulator is that word |
| `HashTrie.TwinsExactly` | root/src/kernel/lib/ht.h:12-20 | two names of one length are twins exactly if no seed ever separates them |
| `HashTrie.TwinsExist` | root/src/kernel/lib/ht.h:12-20 | "ab" and "bA" are such a pair |
| `HashTrie.TwinCannotBeAdded` | root/src/kernel/lib/ht.h:139-165 | while a name is stored, no such twin of it is stored, and adding one fails whatever seeds and however many levels are available |
| `HashTrie.StoreLookup` | root/src/kernel/lib/ht.h:141-143 | a store changes what is found under one name and under no other |
| `HashTrie.SplitLookup` | root/src/kernel/lib/ht.h:152-164 | a level split changes nothing that can be looked up |
| `HashTrie.ListedOnce` | root/src/kernel/lib/ht.h:33-54 | no name is listed twice |
| `HashTrie.DumpListsTheMap` | root/src/kernel/lib/ht.h:33-54 | listing all levels lists the elements of the map, each exactly once |
| `HashTrie.LeadsUnlessEmpty` | root/src/kernel/lib/ht.h:33-54 | with no empty sub-level the dump yields a list exactly when the table holds something |
| `HashTrie.Table.constructor` | root/src/kernel/lib/ht.h:56-69 | a new table is the empty map |
| `HashTrie.Table.HtGet` | root/src/kernel/lib/ht.h:71-97 | looks up the map |
| `HashTrie.Table.HtRemove` | root/src/kernel/lib/ht.h:99-126 | removes the name from the map and returns its element |
| `HashTrie.Table.HtAdd` | root/src/kernel/lib/ht.h:132-171 | adds the element to the map, or fails and leaves the map unchanged; it succeeds exactly when the name is absent and its slot is empty or some seed on offer separates it from the element there |
| `HashTrie.Table.DumpLevel` | root/src/kernel/lib/ht.h:33-54 | appends the elements of a level and all below it to the buffer, or yields nothing, with the exact condition |
| `HashTrie.UnlistableTable` | root/src/kernel/lib/ht.h:26-54 | from a new table: two names that collide are added and removed and a third is added behind them; the table is not empty and its dump yields nothing |
| `HashTrie.Table.HtDump` | root/src/kernel/lib/ht.h:26-54 | yields the elements of the map, each once, exactly when memory suffices and no empty sub-level comes before the first element |
| `Dynarray.HeldIsNeverReused` | root/src/kernel/lib/dynarray.h:32-103 | over every run, while a reference is out the slot keeps its element, whoever adds, removes or drops |
| `Dynarray.ElementLives` | root/src/kernel/lib/dynarray.h:32-69 | over every run from its addition on, an element is present until its first removal, and gone exactly when it was removed and as many references were given back as handed out |
| `Dynarray.AddTakesLowest` | root/src/kernel/lib/dynarray.h:71-103 | an addition takes the lowest free slot, with 256 more slots if there was none |
| `Dynarray.RemoveExactly` | root/src/kernel/lib/dynarray.h:32-49 | removal keeps the counter equal to presence plus references exactly when the element was not removed before |
| `Dynarray.SecondRemoveFreesHeld` | root/src/kernel/lib/dynarray.h:32-49 | a second removal frees an element that is still held |
| `Dynarray.Table.DoAdd` | root/src/kernel/lib/dynarray.h:71-103 | takes the lowest free slot, never a held one; a failed growth leaves the recorded length too large, exactly when the table is full and cannot grow |
| `Dynarray.Table.GetElem` | root/src/kernel/lib/dynarray.h:60-69 | hands out a reference exactly when the element is present |
| `Dynarray.Table.DoUnref` | root/src/kernel/lib/dynarray.h:51-58 | gives a reference back; the cell is freed exactly when it was removed and this was the last reference; the counter stays right exactly when there was a reference to give |
| `Dynarray.Table.DoRemove` | root/src/kernel/lib/dynarray.h:32-49 | the element is gone for new references and freed exactly when nobody holds it; the counter stays right exactly when the element was not removed before |
| `Dynarray.Table.DoAll` | root/src/kernel/lib/dynarray.h:32-129 | any sequence of calls that callers may make is a run of the plain view, and the counters agree with it at the end |
| `Dynarray.Table.HoldThrough` | root/src/kernel/lib/dynarray.h:32-129 | so over any calls a held cell stays, with its element, until its last holder lets go |
| `Dynarray.Table.Search` | root/src/kernel/lib/dynarray.h:105-129 | the first present element that satisfies the condition, with a reference; or there is none |
| `Event.CountsConserved` | root/src/kernel/lib/event.h:9-26 | triggers are neither lost nor made up, for any number of threads |
| `Event.TwoAwaitersOverdraw` | root/src/kernel/lib/event.h:9-13 | two threads that read the same count both take it, and the count becomes -1 |
| `Event.NeverOverdrawnExactly` | root/src/kernel/lib/event.h:9-26 | no more awaits return than triggers were made, in every run, exactly with at most one awaiting thread |
| `Urm.RunKeepsInv` | root/src/kernel/sys/urm.c:203-234 | over every run, what was sent is what was handled followed by the queue, and the event count runs ahead of the queue by 0 or 1 while the monitor waits |
| `Urm.HandledInOrder` | root/src/kernel/sys/urm.c:203-234 | in every run from the start requests are handled in send order, each once, and the monitor is never left blocked while the queue is not empty |
| `Urm.EveryRequestIsServed` | root/src/kernel/sys/urm.c:203-234 | a request is handled within a bounded number of turns of the monitor, however many requests are sent in between |
| `Urm.Drains` | root/src/kernel/sys/urm.c:203-234 | left alone, the monitor handles everything and goes to sleep on a count of zero |
| `Urm.RequestMonitor.SendRequest` | root/src/kernel/sys/urm.c:32-48 | appends the request and raises the event |
| `Urm.RequestMonitor.TakeFirst` | root/src/kernel/sys/urm.c:210-231 | dispatches the first request by its type and moves the others up by one |
| `Urm.RequestMonitor.AwaitStep` | root/src/kernel/lib/event.h:9-21 | each step of waiting, and of being woken by the scheduler |
| `Urm.RequestMonitor.Do` | root/src/kernel/sys/urm.c:203-234 | any interleaving of sends and monitor steps is a run of the specification |
| `Urm.DispatchedAsSent` | root/src/kernel/sys/urm.c:210-222 | in every run the k-th call runs the new program if the k-th request sent was an execve, ends the process if it was an exit, and nothing else |
| `Paths.AbsoluteIsNormalised` | root/src/kernel/fd/vfs/vfs.c:78-142 | the component fold yields a normalised path |
| `Paths.AbsoluteIdempotent` | root/src/kernel/fd/vfs/vfs.c:78-142 | normalising again changes nothing |
| `Paths.MachineIsFold` | root/src/kernel/fd/vfs/vfs.c:97-141 | working a component at a time in the buffer is folding over the components: empty and "." dropped, ".." pops with the root fixed |
| `Paths.BufferServesExactly` | root/src/kernel/fd/vfs/vfs.c:107-119 | the result is right for every absolute path that fits exactly when the buffer held no slash where a backward scan may start |
| `Paths.BufferServesRelativeExactly` | root/src/kernel/fd/vfs/vfs.c:83-119 | the same for every relative path that fits and every normalised directory, with the exact places at which a slash spoils some path |
| `Paths.ShortPathsPopAway` | root/src/kernel/fd/vfs/vfs.c:83-119 | a path too short to leave the last directory for one with a longer name starts no backward scan just behind the directory |
| `Paths.StaleSlashSpoils` | root/src/kernel/fd/vfs/vfs.c:107-112 | a slash left at index k makes "/aa.../.." come out as "/aa..." instead of "/" |
| `Paths.BackUp` | root/src/kernel/fd/vfs/vfs.c:109-110 | the backward scan stops at the last slash and never passes the start |
| `Paths.AtComponent` | root/src/kernel/fd/vfs/vfs.c:101-128 | the code at the start of a component, in terms of that component |
| `Paths.Normalise` | root/src/kernel/fd/vfs/vfs.c:95-141 | the character loop leaves the text of the component machine, terminated |
| `Paths.GetAbsolutePath` | root/src/kernel/fd/vfs/vfs.c:78-142 | for every path and normalised directory the buffer holds the component fold, given no stale slash; and in any case the text of the component machine |
| `Paths.GetMountpoint` | root/src/kernel/fd/vfs/vfs.c:28-74 | the longest matching mount point, or none matches |
| `Paths.MountedExactly` | root/src/kernel/fd/vfs/vfs.c:46-62 | on normalised names a mount point matches exactly when its directories lead those of the path, and the local path names the directories that remain |
| `PathLaws.WalkInOrder` | root/src/kernel/fd/vfs/vfs.c:78-142 | a path is walked in order: the part behind a slash starts where the part before it ended |
| `PathLaws.FromRoot` | root/src/kernel/fd/vfs/vfs.c:86-102 | a slash at the front starts at the root, and two are as good as one |
| `PathLaws.NameGoesDown` | root/src/kernel/fd/vfs/vfs.c:124-139 | a name goes down into that directory |
| `PathLaws.DotStays` | root/src/kernel/fd/vfs/vfs.c:81-106 | the empty path and a dot stay |
| `PathLaws.DotsGoUp` | root/src/kernel/fd/vfs/vfs.c:107-119 | two dots go back up to where a name went down from, and from the root nowhere |
| `PathLaws.MountAndLocal` | root/src/kernel/fd/vfs/vfs.c:46-62 | mount point and local path together are the path |
| `ElfStack.DigitsRoundTrip` | root/src/kernel/proc/task.c:685-705 | a word stored byte by byte is read back |
| `ElfStack.PushStrings` | root/src/kernel/proc/task.c:656-671 | each string lies, terminated, below the one before it |
| `ElfStack.StorePointers` | root/src/kernel/proc/task.c:691-704 | each pointer word is the user address of its string |
| `ElfStack.PushAux` | root/src/kernel/proc/task.c:685-689 | the auxiliary vector |
| `ElfStack.ImageIsAbi` | root/src/kernel/proc/task.c:681-705 | the words and strings together are the stack that the ABI asks for |
| `ElfStack.BuildStack` | root/src/kernel/proc/task.c:630-722 | rsp is 16-byte aligned for every count; argc, the argument and environment vectors with their end markers and the auxiliary vector are in place; and every pointer designates, at its user address, an unclobbered terminated copy of its string |
| `ElfStack.WordsOfTheStack` | root/src/kernel/proc/task.c:681-705 | word by word: the count, a zero behind each vector, and each tag of the auxiliary vector with its value behind it |
| `ElfStack.StringsOfTheStack` | root/src/kernel/proc/task.c:656-705 | every argument and variable is read as it was given through its pointer, up to its zero |
| `ElfStack.WordBytes` | root/src/kernel/proc/task.c:685-705 | a word is the sum of its eight bytes, the lowest first |
| `ElfStack.BottomOf` | root/src/kernel/proc/task.c:632-635 | the stack of the first thread ends at 0x800000000000, each further one lies 36 KiB lower |
| `Rand.Generator.Srand` | root/src/kernel/lib/rand.c:31-37 | the state holds the first 624 terms of the sequence of the seed |
| `Rand.Generator.Refill` | root/src/kernel/lib/rand.c:44-59 | the in-place refill in three parts replaces 624 terms by the next 624 |
| `Rand.NextTerm` | root/src/kernel/lib/rand.c:45-56 | whichever side of the moving front the neighbours are on, they are the terms the recurrence asks for |
| `Rand.Generator.Rand32` | root/src/kernel/lib/rand.c:39-70 | the k-th word after seeding is the tempered term 624 + k of the recurrence, for every seed and k |
| `Rand.Generator.Draw` | root/src/kernel/lib/rand.c:39-70 | any number of draws are consecutive tempered terms |
| `Rand.TemperIsBijection` | root/src/kernel/lib/rand.c:63-66 | tempering has an inverse on both sides |
| `Rand.Recurrence` | root/src/kernel/lib/rand.c:44-59 | from word 624 on: the recurrence with its constants |
| `Rand.FirstWords` | root/src/kernel/lib/rand.c:31-37 | the first words of seed 5489 |
| `Rand.FirstOutput` | root/src/kernel/lib/rand.c:39-70 | from word 397 of that seed on, the first output is the known 3499211612 |
| `Time.JdnCountsDays` | root/src/kernel/lib/time.c:22-27 | for every valid date from year 1 the formula overflows an int exactly beyond the last year, and otherwise is the day count |
| `Time.NextDayNextNumber` | root/src/kernel/lib/time.c:22-27 | the next calendar day has the next number, over months, leap years and centuries |
| `Time.EpochCountsSeconds` | root/src/kernel/lib/time.c:29-38 | the epoch is the number of seconds since 1970 as a 64-bit word |
| `Time.EpochIncreasesExactly` | root/src/kernel/lib/time.c:29-38 | a later moment has a larger epoch exactly unless the two lie on different sides of 1970 |
| `Time.DayIs86400` | root/src/kernel/lib/time.c:29-38 | one day later is 86400 seconds later |
| `Time.KnownDays` | root/src/kernel/lib/time.c:22-27 | the Julian day numbers of 1 January 1970 and 2000 |
| `Time.KnownSeconds` | root/src/kernel/lib/time.c:29-38 | the epochs of three known moments |

## Left out

- echfs directories, `echfs_unlink`, `echfs_close`, `echfs_mkdir`, path resolution and free-id search: files are numbered and their directory entries are records; the reference counts of unlink and close do not hold as written.
- echfs on a full device: the FAT scan has no bound in the code, so operations require enough free entries for what they may allocate; the growth of `alloc_map` and of handle tables is taken to succeed, and device transfers of echfs do not fail (the code ignores their results).
- 64-bit overflow of block numbers and of the end of a write; that of a read's clip is modelled.
- Echfs.Mount.Read: needs room for what the clip grants and positions below 2 to the 64th; by `EchfsSpec.ClipExact` that leaves out exactly the reads that start past the end or whose count overflows, for which the code goes on past all positions.
- Echfs.Mount.Sync: whether the table of cached files can be listed is a parameter; `HashTrie.Table.HtDump` says exactly when it can. One mount, its files in the order of their numbers.
- Port setup, command slots and `ahci_rw` itself: a transfer of one block succeeds or fails and then leaves buffers and disk alone. The unchecked allocation of a cache buffer is taken to succeed, and a disk is a whole number of cache blocks.
- ide.c, nvme, pipe.c, fat32.c, iso9660.c, devfs.c, part.c, networking and drivers: the same cache shape again, read-only plumbing, or hardware.
- Sched.WaitingKills: a waiting kill is for whatever thread its slot holds when it ends.
- Sched.Scheduler.TaskGetNext: does not model a current task in the last slot of the table, for which the code indexes one past the table.
- Sched.Scheduler.TaskResched: the same, for the current task of a CPU.
- Sched.Scheduler.Fork: requires a free slot, because the code takes one for granted.
- Sched.FairRun: assumes that the task set does not change and that the last slot of the table is not in use.
- Sched.Fair: assumes the same of a sequence of searches.
- Sched.FairFrom: likewise.
- Process tables, per-process thread tables, register and FPU context, cr3, interrupts between processors and the time statistics of the scheduler.
- Terminal.Terminals.ControlSequenceParse: requires that the byte does not complete a sequence that takes the cursor out of the grid (`TermModel.LeavesGrid`), for which the code goes on with a cursor outside, and at most 256 parameters, which the code does not check.
- Terminal.Terminals.PutChar: the same.
- Overflow of an `int` is undefined in C; the terminal takes it to wrap around, and a display to have at most 4095 pixels a side, as its description has 12 bits for each.
- Terminal glyphs and pixels: the screen is an array of cells with colours. The parameters written back after clamping (never read again) are not modelled; a graphics sequence that jumps out of its inner loop with an unset index is taken to end.
- Terminal input, keyboard scancodes and line discipline, except the switch of the current terminal.
- Memory.Machine.MapPage: does not model what follows when one of the two allocations that the code leaves unchecked fails; the outcome `Stuck` says exactly when that is. The clean-up behind the labels `fail2` and `fail3` is unreachable in the code.
- Memory.Machine.ForkAddressSpace: neither does it model what follows when record, root, pool or a table cannot be had, none of which the code checks; that is the outcome `Stuck`.
- Memory.Machine.PmmAlloc: does not model what happens after a search has gone astray, and takes every search for more than 4096 pages that comes to the end of the bitmap for one, although it may still come to a free run. The bitmap is a sequence of booleans, not of 32-bit words.
- Memory.Machine.AllocAt: requires pages that are not mapped, because the code maps over a mapped page, which is then held by nobody, and at least one page. Finding an address when the caller gives none is not modelled.
- Memory.Machine.Krealloc: does not model sizes within 4095 of 2 to the 64th, for which the rounding in the code wraps and a block of size 0 is taken to be large enough.
- Memory.Machine.NewAddressSpace: the clean-up when the root cannot be had is unreachable, because a search that follows another does not start at the first page.
- Memory.Machine.UnmapPage: not part of the mixed run, because the frame of an unmapped page is held by nobody; it is proved for every well-formed address space by itself.
- The contents of a block and of a page are kept apart: blocks have bytes, pages have words.
- The loops of fork and free over four levels are one recursive method each, a loop per level.
- `init_pmm` and the e820 map: the bitmap in use at the start is a parameter.
- HashTrie.Table.HtDump: when memory for the very first element cannot be had, the code gives a null pointer back to the heap, which reads below address 0; the model yields nothing.
- HashTrie.Table.DumpLevel: the same.
- HashTrie.Table.HtAdd: levels are indices into the sequence of those obtained so far, in place of tagged pointers.
- Dynarray.Table.DoAll: makes only the calls that callers may make. Indices are inside the table, as the code does not check them; 32-bit overflow of the counter is not modelled.
- Urm.RequestMonitor.AwaitStep: the monitor thread is not killed, so its wait is not aborted. What the handlers of the two request types do is not modelled beyond which is called with what, and reallocation of the queue is taken to succeed.
- Paths.GetMountpoint: when nothing matches, the code reads the entry of the mount table before the first; the model yields none.
- Paths.GetAbsolutePath: requires a normalised current directory, which its own result is, and a buffer that is large enough. The lock that `vfs_get_mountpoint` leaves held when the dump fails is not modelled.
- ElfStack.BuildStack: requires everything to fit, which the code does not check.
- Rand.FirstOutput: takes word 397 of the seed as given; the words up to it are not computed one by one.
- `init_rand`, `rand64`, `ksleep`, `add_timeval` and `add_usage`: hardware seeds and easy members.
- Memory ordering, lock spinning and translation caches.
