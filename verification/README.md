# Verified models of a small x86 teaching kernel and three of its user programs

The kernel shows three text terminals, runs at most six processes on them, and reads a
read-only file system; on top of it run, among others, a blinking-text demo and a grep.
Each machine is modelled by itself, as an independent specification on values (sequences,
stacks, arithmetic laws), and as classes and methods that update the same fields and
buffers as the source, proved equal to the specification step by step.

- `Screen.dfy`, `Console.dfy`: `terminal_putc` and `clear` on a scrolling 80 x 25 page, and
  three terminals swapped between VIDEO and their backing pages. A page is 2048 cells, each
  a character byte with its attribute byte. A terminal's *logical screen* is VIDEO if it is
  displayed, its backing page otherwise.
- `Processes.dfy`, `Kernel.dfy`: execute, halt and the timer tick. `Processes` has three
  stacks of processes and the round-robin schedule; `Kernel` has pid_array, the process
  control blocks, the terminal structs and the maps, and proves that they stand for the
  stacks after every run. A saved esp/ebp pair is an opaque token. `Descriptors.dfy` adds
  the processes' file descriptors, `Loader.dfy` how a file's blocks make it a program,
  `FileReads.dfy` the read of a file through two processes' descriptors, and `Output.dfy`
  joins the processes with the console: whose output each terminal shows.
- `Blink.dfy`, `BlinkList.dfy`: the blink entries as a sequence with their countdown law,
  and the linked list threaded through the 2000-slot pool.
- `Files.dfy`: block gathering, the return value of repeated reads with its special file,
  and name lookup.
- `Grep.dfy`: grep through a sliding 1024-byte buffer against a whole-file line search.
- `Rtc.dfy`: three virtual clock dividers on one 1024 Hz interrupt.
- `LineEditor.dfy`: the keyboard line buffer and the read that collects a line.
- `Args.dfy`, `Command.dfy`: the command line of the emulated execute and getargs, that of
  the kernel's own, and when the two agree.
- `Numbers.dfy`: itoa, strrev and the printf number formats. `Arithmetic.dfy` holds the
  few facts on division the others use.

## Where the code does less than it promises

For each of these the code is kept as it is, and the exact condition is proved.

- A flag of 2 (a pending scroll at the last cell) survives a backspace and `clear`, so the
  next character may scroll too early: `PrintsIdeallyIff`, `BackspaceLeavesStaleFlag`. After
  a `clear` of a full screen the first character is scrolled away: `ClearLeavesStaleFlag`.
- After an execute or halt curr_pid names the running process exactly when the ticks since
  are a multiple of three: `CurrPidIsFreshIff`, with a first stale run in
  `CurrPidGoesStale`. While it does not, file reads are served from another process's
  descriptor, which they do not move: `ReadsServedFrom`, `FileReads.ReadCall`.
- close_call frees a descriptor of a file without operations and then calls a null one:
  `ProcessFiles.CloseCall`.
- An executable whose later data blocks are out of range makes execute return after it took
  a pid that no control block describes: `UnloadableImageIff`, and `ExecutedFileIff` for
  the blocks of the file.
- Displaying a terminal whose shell has not started runs that shell on the active terminal;
  the user video page stays right exactly when that is the one displayed:
  `ProcessTable.OpenTerminal`.
- ADD of location 0 puts a slot on the list that counts as free, unless the pool is full:
  `List.IoctlAdd`.
- SYNC always shows the off character, since `cmovl` after `testb` with 1 never moves:
  `SyncShownIff`.
- A read of an ordinary file returns min(n, file length) wherever it starts, although the
  documentation speaks of the bytes read: `OrdinaryReadExactIff`, `OrdinaryFileRebuiltIff`.
  Reads of the special file are right while nothing else is read, and otherwise exactly
  when position and count match: `SpecialReadExactIff`.
- A read that meets a missing block returns -1 and adds that to the file position:
  `FileSystem.ReadCall`.
- An inode number that does not exist gets past read_data's check exactly when it is the
  inode count; the first data block is then read as an inode: `FileSystem.ReadData`, with
  such a disk in `PhantomInode`.
- grep cuts a line after every 1024 bytes: `BufferedIsWholeIff`.
- terminal_read takes the text of the active terminal but the length of the displayed one,
  and never looks at nbytes: it writes behind a buffer exactly when that length is greater:
  `TerminalRead`. A line entered before the read began is never returned: `ReturnsIff`. Keys
  pressed after Enter but before the read goes on overwrite the line, unless they spell a
  beginning of it: `TypeAheadIff`, `ReadFinds`.
- getargs_call is documented to refuse a buffer that is too small; it cuts the text instead
  and leaves no NUL exactly when the text is as long as the buffer or longer. For a negative
  size it copies the whole text: `GetArgsCall`.
- execute_call copies the argument text into 128 bytes of the control block without a
  check; from 128 characters on, the text or its NUL replaces terminal_on: `ParseCall`,
  `SpillExample`.
- The emulated getargs writes one NUL just behind nbytes exactly when the first few
  operands, joined by blanks, are nbytes long; the call then reports failure: `GetArgs`,
  `OverrunFails`, `OverrunExample`.
- The kernel and the emulator take a command apart differently when blanks lead, when a
  newline ends a word before others, or when blanks repeat: `EmulatorAgreesIff`.

## Model

| member | source | states |
|---|---|---|
| `Screen.Apply` | student-distrib/lib.c:270-362 | Every character and every `clear` keeps the cursor inside 80 x 25 and the flag at 0 or 2, leaves flag 2 on the last cell, and writes none of the page behind the 25 rows. |
| `Screen.Feed` | student-distrib/lib.c:270-362 | The same after every stream of characters and clears, backspaces included. |
| `Screen.ScrollUp` | student-distrib/lib.c:419-450 | Scrolling moves every row up by one, fills the last with attributed spaces and leaves the slack of the page alone. |
| `Screen.WrapSnoc` | student-distrib/lib.c:326-330 | One more character extends the endless 80-column sheet by one cell or one row; a full row opens a new one. |
| `Screen.RenderBreak` | student-distrib/lib.c:278-294 | A line break on a screen that shows the last 25 rows of a sheet shows the last 25 rows of the sheet with one more row. |
| `Screen.RenderPrintable` | student-distrib/lib.c:314-338 | A printable character does so too, in the last cell of the screen as elsewhere. |
| `Screen.ScrollingRefinement` | student-distrib/lib.c:270-362 | From a cleared screen with flag 0, any stream without backspaces leaves exactly the last 25 rows of the wrapped text, the cursor at its end, spaces in rows opened by scrolling and NULs in initial rows never reached. |
| `Screen.PrintsIdeallyIff` | student-distrib/lib.c:314-352 | A terminal prints every character as one that scrolls exactly at the last cell would, if and only if flag 2 is up only on the last cell. |
| `Screen.BackspaceLeavesStaleFlag` | student-distrib/lib.c:296-312 | Filling the last cell and backspacing leaves flag 2 behind, and the next character scrolls too early. |
| `Screen.ClearLeavesStaleFlag` | student-distrib/lib.c:65-77 | So does `clear` on a full screen: the first character is stored in the top left cell and scrolled off at once, so that it is nowhere on the screen and the cursor is on the bottom row. |
| `Screen.BreakGoesDown` | student-distrib/lib.c:278-294 | Line feed and carriage return put the cursor at the start of the next row; on the bottom row every row moves up by one instead and a row of blanks comes in. |
| `Screen.BackspaceBlanks` | student-distrib/lib.c:296-312 | On every screen a backspace takes one from the linear cursor 80 y + x (0 stays 0) and blanks the cell at the new cursor; every other cell and the flag are kept. |
| `Screen.BackspaceUndoesPrintable` | student-distrib/lib.c:296-344 | A printable character that scrolls nothing and then a backspace leave the old page and cursor, with a blank at the cursor. |
| `Screen.NoStaleFlag` | student-distrib/lib.c:346-361 | Without backspaces and clears flag 2 is never up away from the last cell. |
| `Console.NonInterference` | student-distrib/terminal.c:151-208 | After any interleaving of characters, clears and terminal switches each terminal's screen, cursor and flag are those of a private screen fed only its own operations. |
| `Console.OthersInvisible` | student-distrib/lib.c:270-276 | Dropping all characters meant for other terminals changes nothing on this one. |
| `Console.ShowsOwnText` | student-distrib/lib.c:270-362 | A terminal cleared while displayed and then sent text shows the last 25 rows of that text, whatever else runs and whichever terminal is displayed. |
| `Console.Video.ShiftUpByOne` | student-distrib/lib.c:419-450 | The in-place column loops scroll exactly the terminal's own page and touch nothing else. |
| `Console.Video.LineBreak` | student-distrib/lib.c:278-294 | A line break moves the cursor to the next row, or marks a pending scroll in the last one. |
| `Console.Video.Erase` | student-distrib/lib.c:296-312 | Backspace takes one from the linear cursor (0 stays 0) and blanks the cell it reaches, in the terminal's own page, of which no other cell changes. |
| `Console.Video.Print` | student-distrib/lib.c:314-344 | Printing carries out a pending scroll first, stores at the old cursor, wraps, and scrolls at once on flag 2. |
| `Console.Video.Putc` | student-distrib/lib.c:270-362 | terminal_putc on the shared memory is one step of the three-screen view: its own terminal only. |
| `Console.Video.Clear` | student-distrib/lib.c:65-77 | `clear` empties the displayed terminal and no other. |
| `Console.Video.Save` | student-distrib/terminal.c:151-158 | The displayed page is copied whole to its terminal's backing page. |
| `Console.Video.Restore` | student-distrib/terminal.c:167-170 | The backing page is copied whole to VIDEO. |
| `Console.Video.OpenTerminal` | student-distrib/terminal.c:179-208 | Switching terminals changes no logical screen, cursor or flag; numbers above 2 are refused. |
| `Console.Video.TerminalWrite` | student-distrib/terminal.c:59-84 | Writing a buffer feeds its bytes in order to one terminal and leaves the other two alone. |
| `Processes.StepKeepsInv` | student-distrib/system_calls.c:30-98 | Every tick, execute and halt keeps three disjoint stacks, each standing on its terminal's own shell, with a saved context for every terminal that waits. |
| `Processes.RunKeepsInv` | student-distrib/system_calls.c:182-242 | The same after every run. |
| `Processes.PhaseStep` | student-distrib/pit.c:64-101 | Only a tick moves the active terminal, by one modulo 3, and shells come up in order 0, 1, 2. |
| `Processes.RefusedChangesNothing` | student-distrib/system_calls.c:154-202 | An execute of a file that is no program, or with no pid free, leaves every terminal and the schedule as they were. |
| `Processes.BaseShellRestarts` | student-distrib/system_calls.c:38-52 | A base shell that halts is started again: its terminal runs that shell and nothing else, and the other terminals are untouched. |
| `Processes.ExecutePushes` | student-distrib/system_calls.c:182-242 | An execute adds one process to the active terminal's stack, a base shell or the lowest free pid, and touches no other terminal. |
| `Processes.HaltReturnsToItsExecute` | student-distrib/system_calls.c:54-96 | A process started on a terminal and halted after any activity that never halts below it, with anything running elsewhere, resumes the context of the very execute that started it, restores the terminal's chain and frees the pid. |
| `Processes.LowFramesKept` | student-distrib/system_calls.c:69-76 | As long as a terminal never drops below h processes its lowest h stay the same. |
| `Processes.ParkedIsLastOut` | student-distrib/pit.c:106-110 | A terminal's parked context is always the one saved when it was last switched out. |
| `Processes.ContextPreservation` | student-distrib/pit.c:106-129 | After any mix of ticks, executes and halts from power-on, the context a tick loads is exactly the one saved when that terminal was last switched out. |
| `Processes.RoundRobin` | student-distrib/pit.c:64-114 | Once terminal 0 runs, n ticks advance the active terminal by n modulo 3, whatever runs between, and two ticks bring up the two other shells. |
| `Processes.OwnerLags` | student-distrib/system_calls.c:112-118 | The terminal that ran the last execute or halt lags behind the active one by exactly the ticks since, modulo 3. |
| `Processes.ThreeTicksScheduleAll` | student-distrib/pit.c:114-114 | Any run with three ticks hands the processor to every terminal. |
| `Processes.PoolConservation` | student-distrib/system_calls.c:191-202 | The terminals together never hold more than the three shared pids, and execute finds none free exactly when all three are held. |
| `Kernel.ParentChain` | student-distrib/system_calls.c:228-239 | From a terminal's pid, parent_process_id walks down its stack, ends at the terminal's own shell, and that shell has no parent. |
| `Kernel.ChainsDisjoint` | student-distrib/system_calls.c:228-242 | The parent chains of two terminals share no process. |
| `Kernel.PidArrayIsChains` | student-distrib/system_calls.c:186-203 | pid_array[3..5] is set exactly for the pids on some chain. |
| `Kernel.CurrPidIsFreshIff` | student-distrib/file_system.c:226-246 | After any run from power-on curr_pid, which file reads go by, names the running process if and only if the ticks since the last execute or halt (a tick that starts a shell being one) are a multiple of three. |
| `Kernel.CurrPidGoesStale` | student-distrib/pit.c:104-129 | Power-on, a shell, and three ticks are a run after which it does not. |
| `Kernel.OutputGoesToActive` | student-distrib/terminal.c:68-74 | The running process's control block names the active terminal, so that is where terminal_write prints. |
| `Kernel.ProcessMemoryApart` | student-distrib/task.c:7-52 | Two pids share no byte of their 4 MB user frames and none of their kernel memory (control block, and stack below it down to the next control block), and no frame meets kernel memory. |
| `Kernel.StackRoom` | student-distrib/task.c:7-21 | A process's kernel stack starts 4 bytes below its control block and stays in its own memory exactly up to 7884 bytes. |
| `Kernel.LiveProcessesApart` | student-distrib/task.c:7-52 | In every reachable state any two living processes, on one terminal or two, have user memory, control block and kernel stack of their own. |
| `Kernel.AddressesAre` | student-distrib/task.c:7-52 | As numbers: 4 MB user frames from 8 MB on, control blocks and stacks 8 KB apart down from 8 MB, and the video page or the backing page behind it. |
| `Kernel.DrawsOnOwnScreen` | student-distrib/paging.c:57-75 | The user video page of a terminal is exactly the page that holds its logical screen, displayed or not. |
| `Kernel.VideoPagesApart` | student-distrib/paging.c:57-75 | The user video pages of two terminals share no byte. |
| `Kernel.ExecAgrees` | student-distrib/system_calls.c:112-300 | execute_call on the kernel's data is a push, a base shell's start, or a refusal on the stacks. |
| `Kernel.HaltAgrees` | student-distrib/system_calls.c:30-98 | halt_call is a pop, or the restart of a base shell. |
| `Kernel.HaltResumes` | student-distrib/system_calls.c:83-96 | A halt that pops resumes the context kept by the matching execute. |
| `Kernel.TickAgrees` | student-distrib/pit.c:51-142 | pit_intr is a tick of the schedule, and leaves the user page and esp0 naming the active terminal's process. |
| `Kernel.TickLoads` | student-distrib/pit.c:120-123 | What it loads is what the next terminal was parked with. |
| `Kernel.RunRefines` | student-distrib/system_calls.c:182-242 | In every reachable state pid_array, control blocks, terminal structs and maps stand for the three stacks. |
| `Kernel.SavedContextSurvives` | student-distrib/pit.c:106-129 | On the data: after any run from power-on the next terminal's control block holds exactly the context saved when it was last switched out. |
| `Kernel.HaltUndoesExecute` | student-distrib/system_calls.c:54-96 | On the data: after any balanced run the halt finds the context of its own execute, puts the terminal's pid and parentpid back and clears the pid. |
| `Kernel.UnloadableImageIff` | student-distrib/system_calls.c:194-220 | An image with the right magic that cannot be loaded leaves data that stand for three stacks if and only if no pid was free to take. |
| `Loader.LoadImage` | student-distrib/system_calls.c:148-220 | A file with bytes is a program if and only if its first four are there and are 7F 45 4C 46 and all its blocks exist, unloadable if only a block is missing, and no program otherwise; an empty one is judged by what the buffer held. What is loaded is the whole file. |
| `Loader.ProgramIff` | student-distrib/system_calls.c:154-220 | The same of the classification the process tree is stepped with: the literal bytes, and the blocks, decide it in both directions. |
| `Loader.EmptyFileIff` | student-distrib/system_calls.c:154-170 | An empty file passes exactly when the buffer already held the magic; a number that names no inode is no program. |
| `Loader.ExecutedFileIff` | student-distrib/system_calls.c:205-220 | Executing a file from a running process leaves three stacks of processes if and only if it is no program, all its blocks exist, or no pid was free. |
| `Loader.MissingBlockExample` | student-distrib/system_calls.c:205-220 | A file of 5000 bytes with the magic and only its first block is a file on which that fails. |
| `Descriptors.DescriptorsSurvive` | student-distrib/system_calls.c:388-434 | A process keeps its descriptors through any run in which its terminal never falls back to it, whatever other processes open, close, read, execute and halt. |
| `Descriptors.ParentFilesAtHalt` | student-distrib/system_calls.c:61-67 | A new process starts with the two streams alone, and at its halt the process that executed it still has its descriptors. |
| `Descriptors.StepKeepsTable` | student-distrib/system_calls.c:244-267 | Every single event changes only the table of the running process and that of a new one. |
| `Descriptors.CloseUndoesOpen` | student-distrib/system_calls.c:374-466 | Whatever a process called before, closing what it just opened restores every descriptor but for the operations pointer of the free one. |
| `Descriptors.OpenedUntilClosed` | student-distrib/system_calls.c:388-434 | An opened descriptor is exactly the file it was opened for, at position 0 and engaged, the other seven are kept; and over any calls that do not close it, it stays engaged with that kind and inode. |
| `Descriptors.StartsWithStreams` | student-distrib/system_calls.c:244-267 | Whichever way a process comes up, by a tick, a restart or an execute, descriptor 0 is the standard input, 1 the standard output, and the other six are free. |
| `Descriptors.ProcessFiles.OpenCall` | student-distrib/system_calls.c:388-434 | The lowest free descriptor of 2 to 7 gets exactly the kind, the inode, position 0 and the engaged mark, the other seven are kept, and -1 is returned exactly when all six are in use. |
| `Descriptors.ProcessFiles.CloseCall` | student-distrib/system_calls.c:445-466 | -1 exactly for a stream or a free descriptor, and then nothing changes; otherwise the named one alone is cleared but for its operations, and a null operation is called exactly when its file has none. |
| `Descriptors.ProcessFiles.CloseAll` | student-distrib/system_calls.c:61-67 | Halt frees all eight descriptors, the streams too. |
| `Descriptors.RunNothingHeld` | student-distrib/system_calls.c:61-74 | In every run no free pid of the pool holds a descriptor. |
| `Descriptors.ReadsServedFrom` | student-distrib/file_system.c:231-239 | After any run from power-on and any calls of the running process since, a read takes inode and position from the process's own descriptor if the ticks since the last execute or halt are a multiple of three, and otherwise from one that stays as it was, whatever the process reads. |
| `FileReads.ReadCall` | student-distrib/system_calls.c:599-623 | The bytes delivered are those at the position of the descriptor of the process curr_pid names; the position that moves, by the value returned, is the running process's own, and no other descriptor changes. |
| `FileReads.OpenAndRead` | student-distrib/system_calls.c:388-434 | The first read after an open, while curr_pid is fresh, delivers the bytes the opened file starts with, and the descriptor then stands behind them. |
| `Output.ScreensBelongToChains` | student-distrib/terminal.c:59-84 | After any run of ticks, executes, halts, output, echo, clears and switches each terminal's screen is that of a private screen fed exactly the output of the processes on its own chain, with the keys echoed and the clears while it was displayed. |
| `Kernel.ProcessTable.constructor` | student-distrib/task.c:28-33 | At power-on the pool is free, and whatever the control blocks hold, as long as none of pids 3 to 5 already claims to be alive, the data stand for three empty stacks. |
| `Kernel.ProcessTable.FindFreePid` | student-distrib/system_calls.c:191-202 | The scan finds the lowest free shared pid, or 6. |
| `Kernel.ProcessTable.ExecuteCall` | student-distrib/system_calls.c:112-300 | What an execute makes of pid_array, the terminal structs, the saved contexts, the maps and the tree fields of the control blocks, and -1 exactly when the file is no program, cannot be loaded, or no pid is free. |
| `Kernel.ProcessTable.HaltCall` | student-distrib/system_calls.c:30-98 | What a halt makes of the same, and the context it resumes. |
| `Kernel.ProcessTable.SwitchOut` | student-distrib/pit.c:106-114 | The running process's context is saved in its own control block and the next terminal becomes active. |
| `Kernel.ProcessTable.PitIntr` | student-distrib/pit.c:51-142 | The whole new state of a tick and the context it loads; the user video page then shows the active terminal. |
| `Kernel.ProcessTable.OpenTerminal` | student-distrib/terminal.c:179-208 | A switch runs a missing shell on the active terminal, and leaves the user video page right exactly when the terminal shown is the active one. |
| `Blink.PhaseLaw` | fish/blink.S:60-90 | n ticks after it was added an entry is on if and only if n modulo on + off is below on, and its countdown is the distance to the next toggle; for all 16-bit lengths, where 0 and those over 32768 last one tick. |
| `Blink.PhaseOverRuns` | fish/blink.S:49-99 | The same, status and countdown, whatever is added, removed or synced elsewhere in between. |
| `Blink.SyncedOverRuns` | fish/blink.S:240-275 | Two entries just synced keep equal status and countdown until an operation writes or removes one of them. |
| `Blink.StepElsewhere` | fish/blink.S:187-237 | An operation at another location leaves an entry alone but for ticks. |
| `Blink.RefusedIff` | fish/blink.S:105-170 | ADD changes nothing if and only if the location is off the 2000 cells or 2000 entries are there. |
| `Blink.RemoveUndoesAdd` | fish/blink.S:187-237 | Removing what was just added gives back the list, entry by entry. |
| `Blink.RemoveTakesOne` | fish/blink.S:187-237 | REMOVE takes out the first entry at the location and no other. |
| `Blink.SyncCopiesOne` | fish/blink.S:240-300 | SYNC gives the second entry the lengths, countdown and status of the first; its location and characters stay, and so does every other entry. |
| `Blink.MissingChangesNothing` | fish/blink.S:187-300 | REMOVE and SYNC change nothing when an entry they name is missing. |
| `Blink.ScreenFollowsEntries` | fish/blink.S:74-86 | Without SYNC and with one entry a location, every entry's cell shows its current character after any run. |
| `Blink.SyncShownIff` | fish/blink.S:277-285 | After SYNC the cell is right if and only if the copied status is off or both characters are the same. |
| `BlinkList.FullIff` | fish/fish.c:160-170 | The list never holds more than 2000 entries, and holds 2000 exactly when no slot is free. |
| `BlinkList.List.Malloc` | fish/fish.c:160-170 | The lowest slot with location 0, or none when there is none. |
| `BlinkList.List.FindHelper` | fish/blink.S:351-379 | The first entry at the location, in list order; the walk ends. |
| `BlinkList.List.IoctlAdd` | fish/blink.S:105-184 | A non-zero location is added in front and its on character shown, and fails exactly when it is off the screen or 2000 slots are live; location 0 leaves a list of the live slots if and only if the pool was full. |
| `BlinkList.List.FindPrev` | fish/blink.S:206-212 | The walk for the predecessor ends at the pointer that holds the entry. |
| `BlinkList.List.IoctlRemove` | fish/blink.S:187-237 | Removing unlinks exactly the first entry at the location and frees its slot; the list stays acyclic and holds exactly the live slots. |
| `BlinkList.List.IoctlSync` | fish/blink.S:240-300 | The second entry takes over the first one's lengths, countdown and status, and its off character is shown. |
| `BlinkList.List.TickSlot` | fish/blink.S:64-86 | One entry counts down with 16-bit wrap-around and toggles when the result is not positive. |
| `BlinkList.List.Tasklet` | fish/blink.S:49-99 | One tick reaches every entry of the list exactly once, in order. |
| `BlinkList.Pushed` | fish/blink.S:159-162 | Linking a free slot in front keeps the list acyclic and equal to the live slots. |
| `BlinkList.Unlinked` | fish/blink.S:214-222 | So does moving a pointer past a slot and freeing it. |
| `Files.GatheredIsSlice` | student-distrib/file_system.c:165-205 | Bytes gathered one at a time through the block numbers are that slice of the concatenated blocks; with offset 0 and the file's length, the whole image. |
| `Files.FileSystem.Gather` | student-distrib/file_system.c:169-205 | The copy loop crosses any number of block boundaries, and fails exactly when some block number in the range does not exist. |
| `Files.FileSystem.ReadData` | student-distrib/file_system.c:129-215 | What is copied, what is returned and what happens to the counter; a number that is no inode is served if and only if it is the inode count and the first data block, taken for an inode, has the bytes. |
| `Files.FileSystem.ReadCall` | student-distrib/system_calls.c:599-623 | A read hands out what one step of the reader machine does and adds the value returned to the position, or meets a missing block and moves the position back by one. |
| `Files.PhantomInode` | student-distrib/file_system.c:142-163 | On a disk with one empty file and one block, inode 1 reads as a file of one byte. |
| `Files.ReadAppends` | student-distrib/system_calls.c:613-620 | What a read delivers does not depend on the pieces before, and the pieces of a run of reads concatenate. |
| `Files.SpecialFileRebuilt` | student-distrib/file_system.c:150-160 | From position 0 and count 0 every read of n bytes of the special file returns min(n, what is left), so after k reads the pieces are the first min(n k, length) bytes. |
| `Files.SpecialReadExactIff` | student-distrib/file_system.c:207-214 | For any position and count one read of the special file reports the bytes that were left if and only if the read starts past the end, or n (count + 1), as a 32-bit value, passes the end and is where this read ends, or does not and the read starts at 0 or stays inside the file. |
| `Files.OrdinaryReads` | student-distrib/file_system.c:207-214 | k reads of n bytes of an ordinary file stop at a whole number of reads, past the end of the file. |
| `Files.OrdinaryFileRebuiltIff` | student-distrib/file_system.c:207-214 | Reading an ordinary file to its end in steps of n gives the file if and only if one read covers it or n divides its length. |
| `Files.OrdinaryReadExactIff` | student-distrib/file_system.c:207-214 | One read reports the bytes that were left if and only if it starts at 0, stays inside the file, or starts at or past the end. |
| `Files.Strncmp` | student-distrib/lib.c:699-716 | 0 exactly when the first n bytes agree up to a NUL. |
| `Files.ReadDentryByName` | student-distrib/file_system.c:28-81 | The last slot whose name equals the argument, of at most 32 bytes; missing exactly when the name is empty or no slot has it. |
| `Files.NamedIff` | student-distrib/file_system.c:53-60 | A slot has a name exactly when its 32 bytes start with it and a NUL follows, unless the name fills them all. |
| `Files.WordBytes` | student-distrib/file_system.h:26-29 | A 32-bit word read from a block has the four bytes there, lowest first. |
| `Grep.BufferedIsWholeIff` | syscalls/ece391grep.c:21-60 | For every pattern the buffered search prints what a whole-file line search would, if and only if no line is longer than 1024 bytes. |
| `Grep.PiecesOfShortLines` | syscalls/ece391grep.c:29-57 | With lines that fit, the pieces the buffer cuts match as the lines do, in order and once each. |
| `Grep.DoOneFile` | syscalls/ece391grep.c:9-66 | The sliding-window program terminates, keeps every index in its buffer, and prints exactly the pieces of the file of which the pattern is a part, a + pattern + b for some a and b, in order. |
| `Grep.OccursIff` | syscalls/ece391grep.c:42-51 | The search by positions finds a pattern in a line if and only if the line is a + pattern + b for some a and b. |
| `Grep.MatchingParts` | syscalls/ece391grep.c:40-51 | What is found in pieces one behind another is found in order, each piece of which the pattern is a part once, and no other. |
| `Grep.PrintedIff` | syscalls/ece391grep.c:40-51 | A line is printed if and only if it is one of the pieces and the pattern is a part of it. |
| `Grep.LinesAreLines` | syscalls/ece391grep.c:29-32 | No line of the whole-file search holds a newline. |
| `Grep.LinesRebuild` | syscalls/ece391grep.c:29-32 | Each ended by a newline, the lines are the file again, with a final newline if it had none. |
| `Grep.SearchBuffer` | syscalls/ece391grep.c:28-57 | The inner loop prints the complete lines' matches and keeps an incomplete one at the front: printed lines and what is still to be found do not change together. |
| `Grep.Contains` | syscalls/ece391grep.c:40-51 | A line is found exactly when it is a + pattern + b for some a and b, and the pattern is not empty. |
| `Grep.MoveToFront` | syscalls/ece391grep.c:33-39 | The overlapping copy keeps the window of bytes still to be searched. |
| `Rtc.RateCode` | student-distrib/rtc.c:34-63 | The accepted frequencies are exactly the powers of two from 2 to 1024, and each code divides 32768 Hz to that frequency. |
| `Rtc.DividerLaw` | student-distrib/rtc.c:107-121 | After n ticks there were (n + target - counter) / target interrupts, the counter is in 1..target, and a read is released at the first of them. |
| `Rtc.FreqPerSecond` | student-distrib/rtc.c:90-97 | Any 1024 hardware ticks carry exactly freq interrupts. |
| `Rtc.RateGivesFreq` | student-distrib/rtc.c:90-97 | Written with any accepted frequency, an initialised clock interrupts exactly that often in every 1024 hardware ticks from then on; any other value leaves it as it was. |
| `Rtc.RateOverRuns` | student-distrib/rtc.c:90-129 | Over whole runs: after such a write, and anything on the other terminals since, every stretch with 1024 hardware ticks brings exactly that many interrupts. |
| `Rtc.OffStays` | student-distrib/rtc.c:111-113 | A terminal that is not initialised never has an interrupt, and its clock is left alone. |
| `Rtc.OwnTicksOnly` | student-distrib/rtc.c:111-121 | What happens on other terminals never reaches a terminal's clock. |
| `Rtc.ReadReturnsOnTime` | student-distrib/rtc.c:165-170 | A read returns after exactly as many ticks as the counter held, whatever the other terminals do. |
| `Rtc.AlwaysSafe` | student-distrib/rtc.c:90-129 | 1 <= counter <= target <= 1024 on every terminal after every run. |
| `Rtc.Driver.RtcIntr` | student-distrib/rtc.c:107-129 | One interrupt is one tick of each initialised terminal's divider and of no other. |
| `Rtc.Driver.ChangeFreqVirt` | student-distrib/rtc.c:90-97 | For an accepted frequency the active terminal's counter and target become 1024 / freq, and no other terminal's change; an invalid frequency changes nothing. |
| `Rtc.Driver.StartRead` | student-distrib/rtc.c:165-167 | A read arms the active terminal's flag. |
| `Rtc.Driver.RtcWrite` | student-distrib/rtc.c:182-197 | -1 and no change for an invalid frequency; otherwise 4, with counter and target 1024 / freq on the active terminal alone. |
| `LineEditor.EraseUndoesTyping` | student-distrib/keyboard.c:212-241 | As many backspaces as characters typed give back the text before, when every character fit. |
| `LineEditor.BackspaceUndoesIff` | student-distrib/keyboard.c:212-251 | One backspace undoes one character if and only if the line held fewer than 127. |
| `LineEditor.Typed` | student-distrib/keyboard.c:212-217 | Characters that fit are appended to the text as typed, in order. |
| `LineEditor.IgnoredIff` | student-distrib/keyboard.c:212-251 | A key leaves the text as it is if and only if it has no character, is Backspace or Enter on an empty line, or any other on a line of 127 characters. |
| `LineEditor.SinceLastReset` | student-distrib/keyboard.c:218-230 | The text depends only on what came after the last Enter or write. |
| `LineEditor.Line.PrintKeycode` | student-distrib/keyboard.c:207-257 | tempbuf[0..length) is the edited text after every key, and Enter publishes it with a newline, 128 bytes at most; the bytes behind it as the type-ahead law has them. |
| `LineEditor.Line.ResetByWrite` | student-distrib/terminal.c:81-83 | A write empties the line being edited. |
| `LineEditor.Line.ClearTempBuff` | student-distrib/keyboard.c:263-272 | Clearing keeps the length, so a typed text is kept exactly when it was empty. |
| `LineEditor.TerminalRead` | student-distrib/terminal.c:17-51 | The read returns the published line if and only if the displayed terminal's length is the active one's, as when they are the same; whatever nbytes says, memory behind the buffer is written exactly when that length is greater than nbytes, and what is written there and returned is stated. |
| `LineEditor.Line.BeginRead` | student-distrib/terminal.c:26-30 | A read begins by forgetting that a line was entered. |
| `LineEditor.ReturnsIff` | student-distrib/terminal.c:26-30 | After that, keys end the wait if and only if Enter is among them: an Enter before the read does not count. |
| `LineEditor.ReadFinds` | student-distrib/terminal.c:26-41 | What the read finds when it goes on is the line as it stood at the last Enter since it began, if and only if the keys since that Enter spell a beginning of it. |
| `LineEditor.TypeAheadIff` | student-distrib/keyboard.c:207-241 | A published line that keys without Enter follow still reads as published if and only if the text they spell is a beginning of that line and none of it was erased on the way. |
| `Numbers.DigitsRoundTrip` | student-distrib/lib.c:474-485 | Reading the digits back gives the number, in every radix from 2 to 36. |
| `Numbers.ItoaRoundTrip` | student-distrib/lib.c:458-492 | For every 32-bit value and radix: itoa's text reads back, has no leading zero, and at most 32 digits, 8 in radix 16. |
| `Numbers.DigitsAre` | student-distrib/lib.c:461 | The 36 digits are the characters 0 to 9 and A to Z, in this order, and each reads back as its value. |
| `Numbers.Strrev` | student-distrib/lib.c:498-513 | In-place reversal of exactly the string, nothing else changed. |
| `Numbers.Itoa` | student-distrib/lib.c:458-492 | The buffer holds the value's digits, most significant first. |
| `Numbers.PutHexPadded` | student-distrib/lib.c:158-170 | `%#x` prints exactly 8 digits that read back to the value. |
| `Numbers.PutSigned` | student-distrib/lib.c:186-202 | `%d` prints the magnitude's digits, behind a minus sign exactly for negative values, the most negative one included. |
| `Args.SplitUndoesJoin` | fish/ece391emulate.c:131-157 | Splitting the joined line gives every argument back. |
| `Args.ArgvParts` | fish/ece391emulate.c:78-83 | The program's own argument is "./" and the text up to the first blank or newline; the others come from the text behind it. |
| `Args.BeforeAWord` | fish/ece391emulate.c:84-90 | Blanks before a word are skipped; a newline or the end there ends the arguments. |
| `Args.WordThenRest` | fish/ece391emulate.c:91-97 | A word ends at the first blank or newline behind it, or with the text, and the arguments go on behind that. |
| `Args.JoinOfSplit` | fish/ece391emulate.c:84-98 | Joining the arguments of a line collapses its blanks, as a single pass over its characters would. |
| `Args.ArgumentsAcross` | fish/ece391emulate.c:86-97 | Splitting goes on behind a newline exactly when the newline ends a word. |
| `Args.FinalNewline` | fish/ece391emulate.c:87-90 | A newline at the end of the line changes no argument. |
| `Args.FewArguments` | fish/ece391emulate.c:91-97 | A text of n characters has at most (n + 1) / 2 arguments. |
| `Args.SplitAgain` | fish/ece391emulate.c:67-100 | Name and joined arguments, split again, give the same argv for every command. |
| `Args.SplitCommand` | fish/ece391emulate.c:67-100 | A command over 1023 characters is refused; any other leaves exactly its argv as strings in the buffer, NULL-ended and inside the 1024 slots. |
| `Args.ParseArguments` | fish/ece391emulate.c:86-97 | The parsing loop enters all remaining arguments, in order, and spoils none entered before. |
| `Args.GetArgs` | fish/ece391emulate.c:131-157 | 0 exactly when the joined line and its NUL fit in nbytes, and then the buffer holds that line; the byte behind nbytes becomes NUL exactly when some first operands joined are nbytes long, and nothing behind it changes. |
| `Args.OverrunFails` | fish/ece391emulate.c:139-155 | A call that writes behind nbytes reports failure. |
| `Args.OverrunExample` | fish/ece391emulate.c:139-143 | One operand of two characters and nbytes 2 are such a call. |
| `Command.PartsFound` | student-distrib/system_calls.c:124-179 | However a command is spaced, its name and its argument text are found again. |
| `Command.EveryCommand` | student-distrib/system_calls.c:124-179 | Every command has such parts, so the two determine each other. |
| `Command.ParseCall` | student-distrib/system_calls.c:120-276 | A command over 1023 characters is refused; any other leaves its name in the name buffer and its argument text in the control block, and terminal_on behind that text as it was if and only if text and NUL fit in 128 bytes (or the byte written happens to be the same). |
| `Command.SpillExample` | student-distrib/system_calls.c:269-276 | With any text of 128 characters terminal_on becomes 0. |
| `Command.SameArgumentsIff` | fish/ece391emulate.c:84-97 | The emulator and the kernel find the same words, for every command, if and only if no word follows leading blanks and no line with a word follows a first newline that ends a word. |
| `Command.GetArgsCall` | student-distrib/system_calls.c:479-519 | The stored text with its NUL if it is shorter than nbytes, otherwise its first nbytes bytes, and for a negative nbytes the whole text without a NUL; -1 exactly when there is no text or nbytes is 0. |
| `Command.EmulatorAgreesIff` | fish/ece391emulate.c:131-157 | For every command the emulated getargs and the kernel's hand out the same text if and only if they find the same words and every blank in the text is followed by a character that is none. |

## Left out

- Port I/O, controller programming, the hardware cursor, TLB flushes and the stack switching of `iret`/`leave`/`ret`: only the values saved and restored are kept.
- Boot code, descriptor tables, exception printers and interrupt wiring.
- Interrupts inside a call: each call, tick and key is one atomic step; a read's waiting loop becomes the flag it waits for.
- The scancode table and the modifier keys: the line editor starts from decoded characters.
- The keyboard's echo: characters it prints are `Write` events of the console.
- A negative terminal number handed to open_terminal, which the source does not check.
- The directory and device stubs and write_call's dispatch: each property would be readable from one body.
- `vidmap_call`, `set_handler_call`, `sigreturn_call` and the blink list's FIND operation.
- `memcpy`, `memset` and `memmove`: replaced by their byte-copy meaning.
- Kernel.ProcessTable.ExecuteCall: the control block's descriptors are in `Descriptors` and its command text in `Command`; the mark `active`, which nothing reads, and the clearing of the line buffer are not part of its state.
- Kernel.ProcessTable.HaltCall: likewise; the reset of the terminal's clock is a `Rate` step of the clock model.
- Kernel.OutputGoesToActive: control blocks are records, so an argument text that spills over terminal_on, which `Command` treats, is not seen here.
- Console.Video.TerminalWrite: takes the terminal as a parameter; that it is the one in the running process's control block is part of `Output`.
- Kernel.ProcessTable.constructor: control-block memory in which one of pids 3 to 5 already calls itself alive is excluded; no code clears it.
- The shell's own image: the kernel's own starts of a shell assume it loads; an image that does not load is analysed for a terminal whose shell already runs.
- Loader.LoadImage: the special file is taken not to be a program, since its reads report other lengths.
- Inode numbers of 128 and more, which execute narrows to a signed byte.
- Files.FileSystem.ReadData: a read inside the file asks for at least one byte and ends within the 1023 block numbers of an inode; a zero-length read runs through the address space, and past the last block number lies another inode. The special file is present, so that the inode it compares is defined, and a disk without data blocks has no first one to read as an inode.
- Files.FileSystem.ReadCall: takes one descriptor, as when curr_pid is fresh; `FileReads.ReadCall` takes two.
- Files.ReadDentryByName: the directory has the 64 slots the loop visits.
- LineEditor.TypeAheadIff: keys only; a write to the terminal between Enter and the read is not part of it.
- Grep.DoOneFile: only reads that return min(requested, remaining) and succeed, of files without NUL bytes, with the byte behind the buffer not initially a newline; the file-name prefix of each printed line and the argument reading of its main are not modelled. The kernel's own read, which reports min(n, file length) at every position, hands a longer file's last read over past its end, into the NULs that fill the block.
- Args.GetArgs: takes a buffer of at least nbytes + 1 bytes, for the NUL described above.
- Command.ParseCall: the stored text is written by execute only after the image is loaded; of the memory behind the field only the first byte is described.
- Starting the program, waiting for it and the emulator's other calls.
- Numbers: the unpadded `%x`, `%u`, `%c` and `%s` formats, which print itoa's text or a string as it is.
