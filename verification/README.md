# Verified model of a small x86 teaching kernel and its user programs

The project models, in Dafny, the parts of the repository that hold state, loops and
machine arithmetic, and proves what they promise over every input and every run.

| file | models |
|---|---|
| `Kernel.dfy`, `Processes.dfy`, `RoundRobin.dfy`, `Sessions.dfy` | process creation and termination, the scheduler, the address layout |
| `Grep.dfy` | the streaming line search of `grep` in a 1024-byte buffer |
| `FileSystem.dfy`, `Disk.dfy` | `read_data`, `read_fs` and the loop of `cat` on the block file system; what they give for an image that holds given inode records |
| `Blink.dfy`, `BlinkRuns.dfy`, `Frames.dfy`, `Loading.dfy` | the blink list of `fish` in its fixed pool, its timer, the frame reader, and what the list and the screen hold once the frames are loaded |
| `Keyboard.dfy`, `Typing.dfy` | the scancode handler, the three edited lines, `keyboard_read`; what the keys do, by the scancodes alone |
| `Console.dfy`, `Tape.dfy` | `putc`, `tab`, `backspace`, `clear`, `scroll_up` on video memory; the screen after any printed text in closed form |
| `Echo.dfy` | keyboard handler and console together: when the screen shows the edited line |
| `Memory.dfy`, `Numbers.dfy` | `memcpy`, `memmove`, `memset`; `itoa`, `strrev` and the number formats of `printf` |
| `Args.dfy` | the command splitter and `ece391_getargs` of the emulation layer |
| `Bytes.dfy`, `Arith.dfy` | C strings and their library loops; division facts |

Code that updates globals or buffers is a class or a method over arrays, proved against
a specification function on values (`Machine.Execute` against `Exec`, `Driver.KeyboardHandler`
against `Handled`, `Screen.Putc` against `Put`, `Fish.Tick` against `Ticked`, `MemCpy`
against `Copied`). The lemmas are about those functions: invariants of every step, then
of every run, and refinement of an independent definition (lines of a file, a flat
slice, a numeral, a fold of edits, a simultaneous move, a timetable).

## What is proved

* **Processes.** After the three boot ticks, every run of ticks, executes and child halts
  keeps the processes in three disjoint, acyclic parent chains rooted at the shells. The
  scheduler slots hold exactly their leaves, so a process that waits in `execute` is not
  scheduled until its child has halted. The running process is the one of the current
  slot, with its own page and kernel stack, whose addresses are given. While a pid is free,
  an execute starts a process if and only if fewer than six live. When a child that was
  called halts, after any events in between, slot, page, stack and chain of the caller are
  back. `pid_bitpattern` holds one bit for each live process and one for each child that
  has halted, so the exact moment when pids run out is known. A halt keeps the invariant if
  and only if the process is no root shell (`HaltKeepsIff`).
* **Round robin.** With n occupied slots, slot q has turn k exactly when k is d, d + n,
  d + 2n, ... for its lead d, which is at most n; executes and halts in between do not
  shift any turn. After boot, k ticks make terminal (2 + k) modulo 3 current.
* **grep.** For every file, NUL bytes included, and every content of the buffer at the
  start, the output is exactly what a buffer-by-buffer reading of the whole file selects.
  For all patterns these are the pieces of the file, whatever the alignment of the lines
  to the buffer, if and only if every line that is carried over stays as it is, as it does
  without NULs. The pieces are the matching lines if and only if every matching line has at
  most 1024 bytes and the pattern starts with a 7-bit character (or is empty and the line
  holds a NUL) and, if the uninitialised byte behind the buffer is a newline, the one line
  that this cuts in two does not match. So for an ordinary file and pattern the output is
  the matching lines (`OrdinaryFile`).
* **File system.** `read_data` refines a flat slice of the concatenated blocks, if and only
  if every table entry it looks at is usable (one of them lies behind a block-aligned end)
  and a 32-bit overflow of offset + length does no harm. Chunked reads concatenate to the
  file, and `cat` prints a file completely exactly when its table is usable. For an image
  that holds given records of a length and block numbers, a read of inode i gives the bytes
  of record i's file, up to the block of the first number that is out of range.
* **Blink list.** Every run keeps the list acyclic in distinct slots and all other slots
  zero; remove undoes add; a node blinks with its period in any company, and as its
  lengths say exactly when both are in 1..32768; synced nodes stay together. The frame
  reader asks for exactly the marked cells at their 16-bit locations, which are distinct if
  and only if no two marked cells lie a multiple of 65536 cells apart in rows of 80, and
  then the list holds exactly those on the screen. After k ticks each of these cells shows
  its character of the first frame while k modulo 30 is below 15, and of the second frame
  otherwise, and every other byte of the screen is as before.
* **Keyboard and console.** For every scancode sequence the three lines are the fold of
  pushes and pops, all along and inside the array, if and only if no backspace arrives on a
  full line in front of a used one or on a full last line. Letters reach the line in the
  case that shift and caps lock ask for. Any text of printable characters, typed on the US
  keyboard, is what the active line gains; which terminal that is, is told by Alt and the
  function keys held. The screen shows the edited lines all along if and only if a condition
  on the desk before each scancode holds; up to 128 letters typed on an empty line that do
  not reach the last cell satisfy it. Every byte of a terminal after any
  text, with newlines, tabs, scrolling and dropped characters, is given in closed form.
  Every console operation keeps the cursors on the screen and writes only inside its
  terminal's 4000 bytes; when scrolling and erasing are exact is an if and only if each.
* **Library.** `memcpy` equals a simultaneous move for all memories if and only if dest is
  not above src, the areas are disjoint, or it is one aligned word. `itoa` gives the unique
  numeral without leading zeros for radix 2..36.
* **Arguments.** The splitter finds exactly the maximal runs without separators, up to a
  newline that ends no word; joining and splitting again gives the same arguments.

## Where the code departs from its evident intent

The model follows the code. Each of these has a lemma with the failing input or the exact
condition.

* A line of more than 1024 bytes is searched in pieces (`Grep.LongLineIsLost`, `Grep.PrintsMatchingLines`).
* `strcpy` carries an unfinished line over only up to its first NUL (`Grep.CarryStopsAtNul`, `Grep.CarryLosesNothingIff`), and a line is printed only up to its first NUL (`Grep.PrintedInFullIff`).
* A newline in the uninitialised byte behind the buffer cuts one line in two (`Grep.StaleNewlineLoses`, `Grep.StalePrintsMatchingLines`).
* A read that ends at a block boundary also looks at the next block number (`FileSystem.AlignedEndFails`, `FileSystem.ReadIsSlice`).
* `read_data` counts in 16 bits, so a read of 65536 bytes or more does not move the position by what it stored (`FileSystem.LongReadReturnsZero`, `FileSystem.AdvanceIff`).
* `halt` never clears the pid bit of a child, so pids run out (`Sessions.PidsRunOut`, `Processes.FreePid`).
* The exit of a root shell enters its pid in a second slot (`Sessions.RootExit`, `Sessions.HaltKeepsIff`).
* Location 0 marks a free pool slot, so a node added there is lost or closes a ring (`BlinkRuns.AddKeepsIff`, `BlinkRuns.TwoAtZero`).
* The conditional move in sync is never taken, so sync shows the off character of a node that is on (`BlinkRuns.SyncMisleads`, `BlinkRuns.ScreenFollows`).
* A cell beyond column 79 of a frame has the location of a cell of a later row (`Frames.TwoInOneCell`, `Frames.SameLocationIff`, `Frames.LocationsApartIff`).
* Backspace on a full line clears the first cell of the next terminal's line or, on the last terminal, a byte behind the array (`Keyboard.BackspaceSpills`, `Keyboard.BackspaceLeavesArray`, `Keyboard.HandledIff`).
* A character that arrives on a full line is echoed and not stored (`Echo.FullLineMisleads`, `Echo.EchoIff`).
* `scroll_up` reads terminal 0's cells for every terminal (`Console.ScrollLosesRows`, `Console.ScrollIff`).
* `clear` resets the cursor of the active terminal, not of its argument (`Console.ClearHomesTheOther`, `Console.ClearHomesIff`).
* The character that arrives at the bottom right cell is dropped (`Tape.CornerDrops`, `Tape.PutShowsIff`, `Tape.CharShownIff`).
* `strcpy` in `ece391_getargs` writes one byte behind nbytes when an argument ends there (`Args.WritesBehind`, `Args.GetArgs`).
* `memcpy` on areas that overlap with dest above src is wrong (`Memory.UnsafeCopy`, `Memory.MemCpyIff`).

## Model

| member | source | states |
|---|---|---|
| Kernel.Machine.constructor | student-distrib/schedule.c:27-35 | scheduler_init leaves seven empty slots, no current slot, one task counted, boot not done |
| Kernel.Machine.TakePid | student-distrib/system_calls.c:201-210 | the first clear bit is set and gives the pid, and no other bit changes; with no clear bit the pid variable keeps what it held and the bits stay |
| Kernel.Machine.FindSlot | student-distrib/system_calls.c:533-535 | the first slot that holds the pid, or 7 if none does |
| Kernel.Machine.PcbInit | student-distrib/system_calls.c:507-575 | a child takes its parent's slot, a root shell the first slot that holds no pid; -1 exactly when no slot is left; the parent link is the running process for pids above 3 and -1 otherwise |
| Kernel.Machine.Execute | student-distrib/system_calls.c:125-262 | refused with -1 and no change exactly when the command is bad or 7 tasks are counted; otherwise the new process has pid, slot, page, stack and runs |
| Kernel.Machine.Start | student-distrib/system_calls.c:199-238 | the accepted part of execute: bits, counter, slot, PCB, page directory entry 32, esp0 and running process together |
| Kernel.Machine.Halt | student-distrib/system_calls.c:39-84 | a child's exit: counter, page, stack and running process go to the parent and the child's slot to the parent's pid; the pid bit stays set |
| Kernel.Machine.HaltRoot | student-distrib/system_calls.c:72-84 | a root shell's exit: the counter goes down, its bit is cleared and execute starts a shell again, from which halt does not come back |
| Kernel.Machine.PlannedSlot | student-distrib/schedule.c:57-66 | the cyclic search ends at the nearest occupied slot after the current one |
| Kernel.Machine.SwitchTasks | student-distrib/schedule.c:41-110 | a tick, after boot: switch to the next occupied slot with its page and stack; during boot: start a shell, the third one ends boot |
| Kernel.GapIsFirst | student-distrib/schedule.c:57-66 | no slot nearer than the one found is occupied |
| Kernel.SomeoneIsNext | student-distrib/schedule.c:57-66 | if any slot is occupied the search finds an occupied one |
| Processes.BootTick | student-distrib/schedule.c:98-109 | boot tick k starts shell k in slot k - 1 with its own page and stack |
| Processes.Boot | student-distrib/schedule.c:27-110 | three ticks from power-on establish the invariant with the shells 1, 2, 3 as the chains |
| Processes.TickKeeps | student-distrib/schedule.c:57-83 | a tick keeps chains, leaves in slots, and running process = current slot = mapped page = esp0 |
| Processes.SlotIsCurrent | student-distrib/system_calls.c:533-554 | the search for the parent's slot always succeeds, at the current slot |
| Processes.PidIsFresh | student-distrib/system_calls.c:202-210 | the pid that execute takes is above 3 and held by no live process |
| Processes.PushChain | student-distrib/system_calls.c:524-536 | the new PCB extends the chain of the running process; chains stay disjoint |
| Processes.SpawnKeeps | student-distrib/system_calls.c:199-238 | an accepted execute keeps the invariant with one more member in the current chain |
| Processes.HaltEffect | student-distrib/system_calls.c:62-84 | a child's exit changes exactly counter, its slot, page, stack and running process, each to the parent's |
| Processes.HaltKeeps | student-distrib/system_calls.c:39-84 | a child's exit keeps the invariant with its chain one shorter |
| Processes.StepKeeps | student-distrib/schedule.c:41-110 | every tick, every execute with a free pid and every child halt keeps the invariant |
| Processes.RunKeeps | student-distrib/schedule.c:41-110 | the invariant holds after every run of such events |
| Processes.ScheduledIffLeaf | student-distrib/schedule.c:57-75 | a live process is in a slot if and only if it has no live child |
| Processes.LeafHasNoChild | student-distrib/system_calls.c:524-536 | no live process has a scheduled one as its parent |
| Processes.BitsCount | student-distrib/system_calls.c:48-75 | over every run set bits minus counted tasks grows by one for each halt and by nothing else |
| Processes.FreePid | student-distrib/system_calls.c:202-210 | after boot and any run: set bits = total_tasks - 1 + halts, and a pid is free if and only if that is below 7 |
| RoundRobin.PlaceIsTurn | student-distrib/schedule.c:57-75 | the k-th tick lands on an occupied slot, and exactly k occupied places were passed on the way |
| RoundRobin.TurnOf | student-distrib/schedule.c:57-75 | the k-th tick chooses slot q if and only if k is q's lead plus a multiple of the number of occupied slots; the lead is at most that number |
| RoundRobin.OneTurnPerRound | student-distrib/schedule.c:57-75 | among any n consecutive ticks every occupied slot has exactly one turn, n being the number of occupied slots |
| RoundRobin.RunIsSteady | student-distrib/system_calls.c:524-554 | in every run executes and halts move neither the current slot nor which slots are occupied; ticks move to the next one |
| RoundRobin.TerminalsTakeTurns | student-distrib/schedule.c:57-75 | the same timetable for every run with executes and halts interleaved: only the number of ticks counts |
| RoundRobin.TerminalsInTurn | student-distrib/schedule.c:57-75 | after boot and any run with k ticks, executes and halts interleaved, slot (2 + k) modulo 3 is the current one |
| Sessions.NeverBack | student-distrib/system_calls.c:62-75 | a process that has halted never lives again in any later run |
| Sessions.AncestorsStay | student-distrib/system_calls.c:524-536 | while a process lives, the chain up to it does not change, whatever runs |
| Sessions.ChildRunsAgain | student-distrib/schedule.c:57-83 | when the same process runs again after any events, it is in the same slot with the same chain |
| Sessions.CallEffect | student-distrib/system_calls.c:199-238 | an execute changes the caller's slot to the child and no other slot |
| Sessions.ReturnEffect | student-distrib/system_calls.c:62-84 | a halt changes the child's slot to the caller and no other slot, and counts one task less |
| Sessions.CallReturns | student-distrib/system_calls.c:48-84 | execute, any run of events, then the child's halt: slot, page, esp0, chain and running process are the caller's again |
| Sessions.RootExit | student-distrib/system_calls.c:72-84 | a root shell's exit leaves its pid in the old slot and enters it in slot 3 too |
| Sessions.HaltKeepsIff | student-distrib/system_calls.c:62-84 | after a halt some chains still satisfy the invariant if and only if the process was a child |
| Sessions.NoPidLeft | student-distrib/system_calls.c:201-210 | from every state with n pids left and room for a task, n processes started and halted are an allowed run, after which an execute passes its checks and finds no pid |
| Sessions.PidsRunOut | student-distrib/system_calls.c:152-210 | after boot four processes started and halted use up the pids |
| Sessions.AcceptedIff | student-distrib/system_calls.c:152-154 | while a pid is free, execute of an executable changes the state if and only if fewer than six processes live; never more than six do |
| Sessions.ThreeNested | student-distrib/system_calls.c:152-210 | after boot three nested executes start the processes 4, 5 and 6, and a fourth changes nothing |
| Sessions.AddressesAre | student-distrib/system_calls.c:215-226 | the running process p has its frame at 8 MB + (p - 1) 4 MB under flags 0x87, esp0 at 8 MB - p 8 KB and its control block 8 KB below |
| Sessions.ProcessesApart | student-distrib/system_calls.c:213-227 | distinct pids have disjoint 4 MB frames and disjoint 8 KB kernel stacks, stacks below 8 MB and frames above |
| Sessions.CurrentPcbIff | student-distrib/system_calls.c:485-498 | masking esp gives the PCB of p if and only if esp lies in p's 8 KB area |
| Sessions.UserPage | student-distrib/paging.c:138-142 | in every reachable state a linear address of the 4 MB user page translates into the running process's own frame (section 4.3 of the Intel SDM, volume 3A) |
| Sessions.FrameAligned | student-distrib/paging.c:138-142 | the frame and the flags 0x87 of a page directory entry do not overlap |
| Bytes.StrLen | syscalls/ece391support.c:6-12 | the distance to the terminator |
| Bytes.StrCpyDown | syscalls/ece391support.c:14-17 | an overlapping copy downwards moves the string and its terminator and no other byte |
| Bytes.StrNCmp | syscalls/ece391support.c:35-46 | 0 exactly when the first n characters agree, shorter strings included |
| Grep.Output.Puts | syscalls/ece391support.c:19-22 | the string up to its terminator is appended to the output |
| Grep.LineEnd | syscalls/ece391grep.c:30-32 | the first newline before last, or last |
| Grep.SearchLine | syscalls/ece391grep.c:41-51 | a hit exactly when the pattern starts with a 7-bit character and occurs in the line, or is empty and the line holds a NUL |
| Grep.HitIsOccurrence | syscalls/ece391grep.c:43-44 | the bounded comparison at a position, which a NUL in the line ends, succeeds if and only if the pattern stands there |
| Grep.PrintLine | syscalls/ece391grep.c:45-48 | file name, colon, the line up to its first NUL, and newline are printed |
| Grep.PrintedInFullIff | syscalls/ece391grep.c:47 | a line is printed in full if and only if it holds no NUL |
| Grep.CarryDown | syscalls/ece391grep.c:33-38 | the unfinished line moves to the start of the buffer up to its first NUL, behind which stay the bytes of the lines searched before; no newline is left in the buffer |
| Grep.NextPiece | syscalls/ece391grep.c:40-57 | what is still to be printed is the hit in the first piece and what the rest gives |
| Grep.SplitLeft | syscalls/ece391grep.c:40-57 | what is to come is the first line of the text left in the buffer, if it is a hit, and what the rest gives |
| Grep.TakeLine | syscalls/ece391grep.c:40-51 | one line is terminated, searched and reported; the reported lines, those left and those coming still make up the goal |
| Grep.FindLine | syscalls/ece391grep.c:30-33 | the end of the line, and whether it is carried over: then the lines to be searched end at its start, and it holds no newline; otherwise they go on at least to its end |
| Grep.NextLine | syscalls/ece391grep.c:29-57 | one round of the inner loop: a line more is searched, or the buffer is done and what is left is carried over |
| Grep.SearchBuffer | syscalls/ece391grep.c:28-57 | one buffer: the lines up to the unfinished one are reported and that is carried over, nothing after an empty read or before a newline behind the buffer; when the byte behind the buffer is still a newline |
| Grep.Fill | syscalls/ece391grep.c:22-27 | the read fills the buffer behind the held bytes up to its end or to the end of the file |
| Grep.ReadAndSearch | syscalls/ece391grep.c:21-60 | one round of the outer loop keeps what is printed and what the buffer and the rest of the file will give together |
| Grep.DoOneFile | syscalls/ece391grep.c:9-66 | for every file, NULs included, every pattern and every content of the buffer, if no read fails, the output is exactly what the reading of the file buffer by buffer selects, in order; if one fails, a prefix of it and the message |
| Grep.CarryLosesNothingIff | syscalls/ece391grep.c:33-38 | for every pattern the selected lines are those of the pieces of the file if and only if every line that is carried over stays as it is |
| Grep.NoNulIsIntact | syscalls/ece391grep.c:33-38 | so it is with every file without NULs |
| Grep.CarryStopsAtNul | syscalls/ece391grep.c:35-36 | an empty line and a second one of "a", NUL and "x", with no newline behind it, in the file or from before in the buffer: the second one matches "x" and nothing is printed |
| Grep.SelectsMatchingLinesIff | syscalls/ece391grep.c:9-66 | of a file that is carried over as it is, exactly the matching lines are selected if and only if the two conditions below hold |
| Grep.PiecesAreShort | syscalls/ece391grep.c:13-22 | no piece is longer than the buffer |
| Grep.MatchingMembers | syscalls/ece391grep.c:40-51 | the reference filter keeps a line if and only if it is a line of the file in which the pattern occurs |
| Grep.WholeLine | syscalls/ece391grep.c:28-57 | a line that is short or does not match is selected as a whole, however many pieces it is cut into |
| Grep.PrintsMatchingLines | syscalls/ece391grep.c:20-60 | the selected pieces are the matching lines of the file if and only if every matching line has at most 1024 bytes and is found: the pattern starts with a 7-bit character, or is empty and the line holds a NUL |
| Grep.LongLineIsLost | syscalls/ece391grep.c:20-60 | a file of one line of 1025 bytes whose match lies across the buffer's end prints nothing |
| Grep.ToComeSplit | syscalls/ece391grep.c:28-57 | text behind a newline is searched as if it stood alone |
| Grep.StalePrintsMatchingLines | syscalls/ece391grep.c:31-39 | with a newline in data[1024] at the start the output is the list of matching lines if and only if it would be without it and the line that is cut does not match |
| Grep.StaleNewlineLoses | syscalls/ece391grep.c:31-39 | an empty line and one of 1024 bytes: printed without that newline, lost with it |
| Grep.OrdinaryFile | syscalls/ece391grep.c:9-66 | of a file without NULs and with lines of at most 1024 bytes, a pattern that starts with a 7-bit character selects exactly the lines in which it occurs |
| Grep.HighPattern | syscalls/ece391grep.c:43 | a pattern that starts with any other character selects nothing of any file |
| Grep.EmptyPattern | syscalls/ece391grep.c:42-44 | the empty pattern selects exactly the lines that hold a NUL |
| Grep.LinesJoin | syscalls/ece391grep.c:30-32 | the lines hold no newline, and with newlines between them are the file, but for a newline at its end |
| Grep.ReportIs | syscalls/ece391grep.c:45-48 | what is printed for a line: name, colon, the line or what stands before its first NUL, newline |
| FileSystem.BlocksByte | student-distrib/filesystem.c:278-292 | a byte of the concatenated blocks is the one that quotient and remainder address |
| FileSystem.BytesAreFile | student-distrib/filesystem.c:278-292 | bytes addressed one by one are the slice of the file |
| FileSystem.CopyBlock | student-distrib/filesystem.c:285-297 | one block's share extends what is stored and writes nothing else |
| FileSystem.ReadBlocks | student-distrib/filesystem.c:274-305 | the do-while stores bytes up to the first unusable entry, all of them if there is none; -1 or the count modulo 65536 |
| FileSystem.Read | student-distrib/filesystem.c:259-306 | read_data: result and stored bytes for every inode, offset and length, bad ones included; nothing outside is written |
| FileSystem.Widths | student-distrib/filesystem.c:261-275 | the 16- and 32-bit variables hold the true values, or offset + length overflowed and the loop makes one round |
| FileSystem.ReadIsSlice | student-distrib/filesystem.c:259-306 | the result is the slice of min(length, size - offset) bytes if and only if all entries looked at are usable and an overflow does no harm |
| FileSystem.AlignedEndFails | student-distrib/filesystem.c:277-303 | a file of one full block with a bad next entry: all bytes are stored and -1 is returned |
| FileSystem.ReadFs | student-distrib/filesystem.c:45-82 | an empty directory gives -1 and changes nothing; otherwise read_data at the position, which then moves by the result, and the rest of the buffer stays |
| FileSystem.PlainRead | student-distrib/filesystem.c:259-306 | a read below 64 KB is the exact slice or -1, by the entries it looks at |
| FileSystem.ReadOnIsFile | student-distrib/filesystem.c:45-82 | any sequence of reads below 64 KB concatenates to the file from the position on, clipped at its end, where it stays |
| FileSystem.AdvanceIff | student-distrib/filesystem.c:261-305 | the result is the number of bytes stored if and only if that number is below 65536 |
| FileSystem.LongReadReturnsZero | student-distrib/filesystem.c:261-305 | a read of a whole file of 65536 bytes stores it and returns 0 |
| FileSystem.CatRead | syscalls/ece391cat.c:21-25 | cat's read: 0 exactly at the end, -1 exactly at an unusable entry, else the next part of the file |
| FileSystem.CatRound | syscalls/ece391cat.c:21-28 | one round of the loop: the written text is the file up to the position, or cat ends as said below |
| FileSystem.Cat | syscalls/ece391cat.c:16-30 | a file that cannot be opened gives 2 and the message; while no write fails, cat ends with 0 if and only if the file is empty or all entries up to size/4096 are usable, and then it has written the file, else a part of it and the message; a failed write gives 3 behind a part of it |
| Disk.FileIsContent | student-distrib/filesystem.h:33-37 | the file of inode i is that of record i: byte j is byte j modulo 4096 of the block that number j / 4096 names in 16 bits |
| Disk.ReadsRecord | student-distrib/filesystem.c:259-306 | a read of inode i gives the next min(length, size - offset) bytes of record i's file if the block numbers up to the one of its end are in range, else -1; -1 for other inodes, 0 behind the end |
| Disk.ReadsUpToBad | student-distrib/filesystem.c:277-305 | a block number out of range: what comes before its block is stored, and the result is -1 |
| Blink.Fish.constructor | fish/fish.c:21-28 | the zeroed pool holds the empty list |
| Blink.Fish.Malloc | fish/fish.c:160-170 | the first slot with location 0, or null |
| Blink.Fish.FindHelper | fish/blink.S:351-379 | the first node of the list at the location, or null |
| Blink.Fish.Add | fish/blink.S:105-184 | 0 exactly when the location is on the screen and a slot is free; then the node, on and with a full countdown, is the new head and its cell shows its on character |
| Blink.Fish.Remove | fish/blink.S:187-237 | 0 exactly when a node is at the location; the first such is unlinked and its slot zeroed |
| Blink.Fish.Sync | fish/blink.S:240-300 | 0 exactly when both are found; lengths, countdown and status are copied, and the cell shows the off character |
| Blink.Fish.Tick | fish/blink.S:49-99 | every node of the list has one tick, 16-bit countdown and signed test included |
| Blink.AddKeeps | fish/blink.S:140-162 | an add at a location above 0 keeps list and free slots a partition |
| Blink.UnlinkedNode | fish/blink.S:206-222 | only the predecessor's next pointer changes in the nodes that stay |
| Blink.RemoveKeeps | fish/blink.S:206-222 | the unlinked list is acyclic, its slots distinct, the freed slot zero |
| Blink.SyncKeeps | fish/blink.S:267-286 | a sync keeps the list and the pool partition |
| Blink.TickedPool | fish/blink.S:58-90 | exactly the occupied slots have a tick, each once |
| Blink.TickKeeps | fish/blink.S:49-99 | a tick keeps the list and the pool partition |
| BlinkRuns.StepKeeps | fish/blink.S:49-300 | add at a location above 0, remove, sync and tick keep the invariant |
| BlinkRuns.PoolIsPartitioned | fish/blink.S:105-237 | after every run from the zeroed pool a slot is in the list exactly when its location is not 0, and all other slots are zero |
| BlinkRuns.AddKeepsIff | fish/fish.c:160-170 | after an add some list satisfies the invariant if and only if the location is not 0 or the add failed |
| BlinkRuns.TwoAtZero | fish/fish.c:163-166 | two adds at location 0 take the same slot and close a ring |
| BlinkRuns.RemoveUndoesAdd | fish/blink.S:105-237 | a remove right after an add restores list, pool and head if and only if the add succeeded or the location was not occupied |
| BlinkRuns.TickPhase | fish/blink.S:64-86 | a tick moves a node to the next phase of its period |
| BlinkRuns.ClosedForm | fish/blink.S:64-86 | k ticks after an add status and countdown are the closed form at k modulo the period, for all 16-bit lengths |
| BlinkRuns.BlinksIff | fish/blink.S:64-86 | on exactly while k mod (on + off) < on, for all k, if and only if both lengths are in 1..32768 |
| BlinkRuns.StepNode | fish/blink.S:49-300 | an operation elsewhere leaves a node's slot and contents alone, a tick advances it once |
| BlinkRuns.RunNode | fish/blink.S:49-300 | over any run that does not touch its location a node sees exactly the ticks |
| BlinkRuns.AddedNodeBlinks | fish/blink.S:49-138 | an added node is in phase k modulo its period after any such run with k ticks, in its slot, with its lengths |
| BlinkRuns.SyncedStayTogether | fish/blink.S:248-275 | after a successful sync the two nodes have equal lengths, status and countdown after every run that touches neither |
| BlinkRuns.TickShows | fish/blink.S:64-86 | after a tick every node's cell again shows the character of its phase |
| BlinkRuns.SyncShows | fish/blink.S:277-285 | after a sync the screen agrees with the phases if and only if the first node is off or the second one has two equal characters |
| BlinkRuns.ScreenFollows | fish/blink.S:49-300 | every operation keeps each cell showing its node's phase, except a sync under exactly that condition |
| BlinkRuns.SyncMisleads | fish/blink.S:267-286 | two nodes just added: after a sync the second one is on and its cell shows its off character |
| BlinkRuns.AddedCell | fish/blink.S:105-184 | an addition at a free cell of the screen with a slot free sets that cell's character and starts a node that is on with a full countdown |
| BlinkRuns.SyncTakesFirst | fish/blink.S:267-285 | a sync gives the second node the first one's lengths, countdown and status, shows its off character and changes nothing else |
| BlinkRuns.QuietSteps | fish/blink.S:187-237 | a removal and a refused addition leave the screen as it is; an addition is refused off the screen and without a free slot |
| BlinkRuns.CellBlinks | fish/blink.S:49-99 | whatever happens elsewhere, after k ticks the cell of a node shows its on character if k modulo onLength + offLength is below onLength, else its off character, for lengths from 1 to 32768 |
| Frames.ReadByte | fish/fish.c:102-116 | the next byte of the row, a newline at its end and at the end of the file, where eof is noted |
| Frames.AddRow | fish/fish.c:99-130 | one row pair gives exactly the requests of its cells, each at its 16-bit location, and ends with both readers behind it |
| Frames.NextRow | fish/fish.c:98-147 | one round of the outer loop: both readers stand at the next row, an ended file stays blank |
| Frames.AddFrames | fish/fish.c:78-148 | for every pair of files the loop ends and asks for exactly the additions of the two row lists, each at location row*80 + col + 40 in 16 bits |
| Frames.RowMembers | fish/fish.c:118-130 | a row's additions are the cells where either line has a character other than space, padded with spaces |
| Frames.RowsJoin | fish/fish.c:98-116 | the rows hold no newline, and with newlines between them are the file |
| Frames.AdditionsAreDue | fish/fish.c:98-147 | an addition is issued if and only if the cell of its row and column is not blank in both frames and it carries their characters |
| Frames.AdditionsInOrder | fish/fish.c:98-147 | the additions are strictly row-major, so each row and column is asked for once |
| Frames.CellsAre | fish/fish.c:122-124 | behind the end of a row and below the last row a frame counts as spaces; a cell is marked if and only if one of the frames has another character there |
| Frames.RequestsAre | fish/fish.c:118-127 | the i-th request is for location (80 row + col + 40) modulo 65536 of the i-th marked cell, with the characters of the two frames |
| Frames.SameLocationIff | fish/fish.c:125 | two cells have one location if and only if they lie a multiple of 65536 cells apart, in rows of 80 |
| Frames.LocationsApartIff | fish/fish.c:122-127 | the locations asked for are pairwise distinct if and only if no two marked cells lie a multiple of 65536 cells apart |
| Frames.NarrowFramesApart | fish/fish.c:125 | frames of at most 80 columns and 65536 cells satisfy that |
| Frames.TwoInOneCell | fish/fish.c:125 | a row of 81 columns and the row below it are asked for at location 120 twice |
| Loading.LoadedIs | fish/fish.c:122-127 | any requests, none for location 0, on the zeroed pool: those on the screen, while slots are free, fill the slots in order, last one first in the list, and a cell shows the last one for it; the others change nothing |
| Loading.ApartAreTaken | fish/fish.c:160-170 | with distinct locations a request is taken if and only if its location is on the screen: the pool does not fill up |
| Loading.MarkedCellShows | fish/fish.c:78-148 | for frames whose cells have distinct locations other than 0, each marked cell on the screen is in the list with its two characters and shows the first |
| Loading.NothingElseShows | fish/fish.c:78-148 | every other byte of the screen stays, and no node of the list is there |
| Loading.PictureMoves | fish/fish.c:78-148 | after k ticks each marked cell on the screen shows its character of the first frame if k modulo 30 is below 15, else that of the second frame |
| Loading.RestStays | fish/fish.c:78-148 | every other byte of the screen is as it was after loading and any number of ticks |
| Keyboard.Driver.KeyReleased | student-distrib/keyboard.c:153-186 | a release clears the flag of its key only |
| Keyboard.Driver.KeyPressed | student-distrib/keyboard.c:190-224 | a press sets the flag of its key, toggles caps, notes enter |
| Keyboard.Driver.SwitchTerminal | student-distrib/keyboard.c:276-288 | Alt with F1, F2, F3 selects the terminal and drops the character |
| Keyboard.Driver.Act | student-distrib/keyboard.c:253-299 | line, terminal and the calls to the console for a decoded key |
| Keyboard.Driver.KeyboardHandler | student-distrib/keyboard.c:141-304 | the whole new state and the calls to the console for every scancode |
| Keyboard.Driver.KeyboardRead | student-distrib/keyboard.c:316-336 | bad arguments while waiting give -1 or 0 and change nothing; otherwise the first min(index, nbytes) characters are handed out, the line is emptied and the other lines stay |
| Keyboard.Driver.ClearBuffer | student-distrib/keyboard.c:383-389 | the line is empty and its cells are zero; the other lines stay |
| Keyboard.HandledIff | student-distrib/keyboard.c:253-299 | a scancode edits the lines as its decoded key says and stores only inside the array if and only if it is no backspace on a full line before a used one or on a full last line |
| Keyboard.PushLines | student-distrib/keyboard.c:291-295 | a push appends to its own line up to 128 characters and changes no other |
| Keyboard.PopLines | student-distrib/keyboard.c:254-261 | a pop takes the last character of its own line, changes no other and stores inside the array, unless it hits the neighbour or the byte behind the array |
| Keyboard.BackspaceSpills | student-distrib/keyboard.c:258 | a backspace on 128 characters zeroes the first character of the next terminal's line |
| Keyboard.BackspaceLeavesArray | student-distrib/keyboard.c:258 | a backspace on 128 characters of terminal 2 leaves the lines right and zeroes the byte behind the array |
| Keyboard.LinesAreEdits | student-distrib/keyboard.c:141-304 | for every scancode sequence the three lines are the fold of pushes and pops after every prefix and no store leaves the array, if and only if no such backspace occurs |
| Keyboard.FlagsAre | student-distrib/keyboard.c:153-222 | after every run each flag of the driver says whether the last event of its key was a press; caps is the parity of its presses |
| Keyboard.LetterKeys | student-distrib/keyboard.c:238 | the keys with a lower-case character are the 26 letter keys, and their shifted character is its upper case |
| Keyboard.LetterCase | student-distrib/keyboard.c:236-295 | after every run a letter key appends its letter to the active line, in upper case exactly when shift held differs from the parity of caps, if the line is not full and neither Ctrl nor a terminal switch is held; else no line changes |
| Typing.HeldIff | student-distrib/keyboard.c:153-222 | a key is held if and only if a press of it has no release behind it |
| Typing.ShiftHeldIff | student-distrib/keyboard.c:158-193 | shift is held if and only if a press of either shift key has no release of one behind it |
| Typing.FlagsByCode | student-distrib/keyboard.c:153-222 | the driver's flags are those of the keys 29, 56, 59, 60, 61 and of shift; caps is the parity of the scancodes 58 |
| Typing.EnterNoted | student-distrib/keyboard.c:224 | Enter is noted if and only if scancode 28 has come |
| Typing.ActiveIs | student-distrib/keyboard.c:276-288 | after every scancode the active terminal is 0, 1 or 2 if Alt is held with F1, else F2, else F3, and else what it was |
| Typing.AllHaveKeys | student-distrib/keyboard.c:37-116 | every printable 7-bit character and the newline has a key, and no other |
| Typing.KeyTypes | student-distrib/keyboard.c:236-299 | after any scancodes the key of a character that shift and caps lock ask for appends it to the active line, unless 128 are held, Ctrl is held or a terminal switch is |
| Typing.SilentKey | student-distrib/keyboard.c:253-299 | Esc, Tab, the modifiers, function keys and releases leave all lines as they are |
| Typing.KeypadTypes | student-distrib/keyboard.c:37-116 | the keypad's signs are appended with and without shift |
| Typing.BackspaceTakes | student-distrib/keyboard.c:253-261 | after any scancodes backspace takes the last character of the active line, if fewer than 128 are held |
| Typing.TextIsTyped | student-distrib/keyboard.c:141-304 | any text of printable characters and newlines, typed with its keys, is what the active line gains, as long as it fits; no other line and no flag changes |
| Console.Screen.ScrollUp | student-distrib/lib.c:248-267 | rows 1..24 of terminal 0 become rows 0..23, the last row is blank, the cursor is at its start |
| Console.Screen.Putc | student-distrib/lib.c:309-339 | new line, tab, scroll, or cell and cursor; nothing else changes |
| Console.Screen.PutTab | student-distrib/lib.c:75-83 | the spaces up to the tab stop are put |
| Console.Screen.Backspace | student-distrib/lib.c:49-66 | the cell before the cursor is blanked and the cursor goes there; nothing at the origin |
| Console.Screen.Clear | student-distrib/lib.c:90-100 | the terminal's cells are blank and the active terminal's cursor is at the origin |
| Console.StepKeepsApart | student-distrib/lib.c:49-339 | every operation keeps all cursors on the screen and writes only in its terminal's 4000 bytes |
| Console.RunSpares | student-distrib/lib.c:49-339 | in every run the bytes of a terminal that is never written, and the gaps behind the screens, stay |
| Console.ScrollIff | student-distrib/lib.c:248-260 | a scroll moves a terminal's own rows up if and only if its rows 1..24 equal terminal 0's; for terminal 0 always |
| Console.ScrollLosesRows | student-distrib/lib.c:250-256 | terminal 1 full of text over a blank terminal 0: after a scroll nothing of it is left |
| Console.PutManyCursor | student-distrib/lib.c:325-334 | the cursor after k plain characters in closed form: k cells on, and round the last row once the screen scrolls |
| Console.EraseRestoresCursor | student-distrib/lib.c:49-66 | in the run of k plain characters and k backspaces the cursor comes back if and only if nothing scrolled or it was at the origin |
| Console.PrintAndEraseIs | student-distrib/lib.c:49-66 | the run of putc and backspace calls is the fold over plain characters followed by that many erasures |
| Console.EraseUndoesPrint | student-distrib/lib.c:49-66 | a run that does not scroll brings the cursor back, blanks exactly those cells and changes no other byte |
| Console.TabStops | student-distrib/lib.c:75-83 | a tab goes to the next multiple of 8 in the same row, and does nothing in the last 8 columns |
| Console.ClearHomesIff | student-distrib/lib.c:90-100 | clear homes the cursor of its terminal if and only if that is the active one or was home |
| Console.ClearHomesTheOther | student-distrib/lib.c:96-97 | clearing terminal 1 while terminal 0 is shown homes the cursor of terminal 0 only |
| Console.WipeBytes | student-distrib/lib.c:90-100 | after clear each of the 2000 cells is a space with attribute 7, every other byte is as before, and the active cursor is home |
| Console.PutBytes | student-distrib/lib.c:325-334 | a plain character before the last cell is stored at 8192 t + 2 pos with attribute 7, and nothing else changes but the cursor |
| Console.LineEndBytes | student-distrib/lib.c:311-317 | a line end above the last row moves the cursor to the next row and writes nothing |
| Console.ScrollBytes | student-distrib/lib.c:248-267 | when a character or line end scrolls, each cell holds terminal 0's cell 80 further on, the last row spaces, the cursor is at its start |
| Console.EraseBytes | student-distrib/lib.c:49-66 | backspace leaves a space with attribute 7 in the cell before the active cursor and goes there; at the origin it does nothing |
| Console.TabBytes | student-distrib/lib.c:75-83 | a tab leaves spaces up to the next multiple of 8 and nothing else, and nothing at all in the last 8 columns |
| Tape.PutShowsIff | student-distrib/lib.c:325-334 | after putc of a plain character it stands in front of the cursor if and only if the cursor was not at the bottom right cell, or that cell of terminal 0 held it |
| Tape.CornerDrops | student-distrib/lib.c:325-329 | a character that arrives at the bottom right cell while the terminal and terminal 0 are blank is printed nowhere |
| Tape.CursorOnTape | student-distrib/lib.c:309-334 | after any text on any terminal the cursor is where it would be on an endless screen, less the rows scrolled |
| Tape.ScreenIsTape | student-distrib/lib.c:248-334 | every byte of every terminal after any text, newlines, tabs and scrolling included: the window as many rows further on a tape that lacks the dropped characters; another terminal than 0, once it has scrolled, shows terminal 0's rows above its last one |
| Tape.CharShownIff | student-distrib/lib.c:309-339 | a plain character of any text on terminal 0 that has not scrolled away is on the screen if and only if it was not dropped or the same stood there |
| Echo.PutIff | student-distrib/keyboard.c:291-299 | when a text stands in front of the cursor after an echoed character, stored or not, with and without a scroll |
| Echo.TabIff | student-distrib/keyboard.c:263-267 | a tab leaves the text in front of the cursor if and only if it prints nothing or the text is all spaces |
| Echo.EchoIff | student-distrib/keyboard.c:253-299 | if every terminal shows its line, behind the last newline, in front of its cursor, then so after a scancode if and only if a condition on lines, cursor and cells before it holds |
| Echo.RunEchoIff | student-distrib/keyboard.c:141-304 | the same all along every scancode sequence without spilling backspaces |
| Echo.TypingEchoes | student-distrib/keyboard.c:141-304 | keys that store a printable character and change no flag, as many as the line and the screen have room for, are echoed all along |
| Echo.LettersEcho | student-distrib/keyboard.c:141-304 | at most 128 letter keys on empty lines that do not reach the last cell are echoed all along |
| Echo.FullLineMisleads | student-distrib/keyboard.c:293-298 | a different letter that arrives when 128 are held is echoed, and the screen no longer shows the line |
| Echo.CtrlLClears | student-distrib/keyboard.c:269-273 | the key L with Ctrl held leaves no earlier character on the active terminal and changes no line and no other byte |
| Memory.MemCpy | student-distrib/lib.c:498-535 | bytes to alignment, words, then bytes: the memory after these strides, upwards |
| Memory.CopyIsMove | student-distrib/lib.c:498-535 | the strides equal one simultaneous move if dest <= src, the areas are disjoint or it is one aligned word |
| Memory.CopyKeeps | student-distrib/lib.c:498-535 | no byte outside the destination changes |
| Memory.UnsafeCopy | student-distrib/lib.c:498-535 | in every other case some memory is copied wrongly |
| Memory.MemCpyIff | student-distrib/lib.c:498-535 | memcpy is a simultaneous move on all memories if and only if one of these three conditions holds |
| Memory.CopiedBytes | student-distrib/lib.c:498-535 | in these three cases each byte of the destination is the old source byte, and every other byte is as before |
| Memory.MemMove | student-distrib/lib.c:544-562 | for every overlap the old source bytes are in the destination and no other byte changes |
| Memory.MemSet | student-distrib/lib.c:415-449 | n bytes hold the low byte of c, no other byte changes |
| Numbers.NumeralReadsBack | student-distrib/lib.c:347-377 | the numeral of v has value v, digits below the radix and no leading zero |
| Numbers.NumeralIsUnique | student-distrib/lib.c:347-377 | every string of that form is the numeral of its value |
| Numbers.DigitsAre | student-distrib/lib.c:347-349 | the digits are 0 to 9 and A to Z, each with its place as its value |
| Numbers.ReversedDigits | student-distrib/lib.c:365-376 | the digits from the lowest place on, reversed, are the numeral |
| Numbers.StrRev | syscalls/ece391support.c:84-103 | the string is reversed in place, no other byte changes |
| Numbers.WriteDigits | student-distrib/lib.c:365-370 | the digits of the number, lowest place first |
| Numbers.Itoa | syscalls/ece391support.c:49-81 | the buffer holds the terminated numeral for every 32-bit value and radix 2..36, no other byte changes |
| Numbers.NumeralLength | student-distrib/lib.c:155-177 | at most 32 digits for a 32-bit value, at most 8 hexadecimal ones, so the buffers of printf suffice |
| Numbers.PrintHex8 | student-distrib/lib.c:159-169 | eight hexadecimal digits that read back as the value |
| Numbers.PrintSigned | student-distrib/lib.c:185-198 | a numeral, behind a minus sign for negative values, that reads back as the signed value, the smallest one included |
| Args.ArgsAreWords | syscalls/ece391emulate.c:88-98 | in any command a place is found if and only if it is a maximal run without separators and no newline at the start or behind a separator comes before it |
| Args.ArgsAre | syscalls/ece391emulate.c:88-98 | the same with the separators, space and newline, written out |
| Args.ArgsInOrder | syscalls/ece391emulate.c:88-98 | the places are in order, not empty, apart by a separator, inside the command |
| Args.SkipSpaces | syscalls/ece391emulate.c:89 | the first character that is not a space |
| Args.SkipWord | syscalls/ece391emulate.c:95 | the first separator or the terminator |
| Args.CopyCommand | syscalls/ece391emulate.c:78-80 | "./", the command and a terminator |
| Args.TakeArg | syscalls/ece391emulate.c:94-97 | one argument more is entered and terminated, the earlier ones stay, the rest of the command is intact |
| Args.ParseArgs | syscalls/ece391emulate.c:88-98 | all arguments found from a position on are entered as terminated strings |
| Args.SplitCommand | syscalls/ece391emulate.c:76-100 | refused exactly above 1023 bytes; otherwise program path, all arguments and the null pointer, with at most 513 entries before it |
| Args.SplitIs | syscalls/ece391emulate.c:76-88 | the program is "./" and what comes before the first space or newline; the arguments are searched for behind that |
| Args.GetArgs | syscalls/ece391emulate.c:131-157 | 0 exactly when the arguments joined by single spaces and a terminator fit nbytes, and then exactly these bytes; nothing from nbytes on changes, but for one terminator exactly when some argument ends there |
| Args.WritesBehind | syscalls/ece391emulate.c:140-145 | the argument "abc" and 3 bytes: an argument ends there and the joined text does not fit, so the terminator goes behind them |
| Args.JoinedAppend | syscalls/ece391emulate.c:139-152 | the text built from the left equals the recursive join |
| Args.FoundAreArguments | syscalls/ece391emulate.c:88-98 | what the splitter finds is not empty and has no separator |
| Args.SplitOfJoin | syscalls/ece391emulate.c:131-157 | splitting a text that ends in joined arguments gives these arguments |
| Args.GetArgsRoundTrip | syscalls/ece391emulate.c:76-157 | the arguments of any command, joined and split again behind any program name, are the same |

## Left out

- Grep.DoOneFile: a file name and pattern are C strings; reads are full until the end of the file or fail, and a close does not fail.
- Frames.ReadByte: a read does not fail; a read of -1 keeps the old byte.
- Frames.AddFrames: reads do not fail; a row does not end while they do.
- Kernel.Machine.Execute: assumes a free pid when the command is accepted, because the source then goes on with an uninitialised pid, for which no behaviour is defined; Processes.FreePid says exactly when that is, and Sessions.PidsRunOut gives a run. Whether a command names an executable is a parameter.
- Kernel.Machine.SwitchTasks: the boot ticks run without other events in between; saved stack pointers, `processState`, `pcb_terminal` and `terminal_current_pid` are not modelled.
- Kernel.Machine.Start: the same assumption as Kernel.Machine.Execute.
- Loading.LoadedIs: no request for location 0, which only frames of more than 65000 cells make; BlinkRuns.AddKeepsIff says what it would do.
- Processes.RunKeeps: runs without the exit of a root shell, since Sessions.HaltKeepsIff proves that such an exit breaks the invariant.
- Sessions.UserPage: the bitwise or of frame and flags is written as a sum, which Sessions.FrameAligned justifies.
- FileSystem.ReadFs: regular files only; the search loop has no bound of its own, so the inode must be listed in the directory.
- Disk.ReadsRecord: offset + length below 2^32; FileSystem.ReadIsSlice is about the others.
- FileSystem.Cat: reading the arguments and finding the file by name are not modelled; a file that is not found is a null descriptor.
- Args.GetArgs: the byte behind nbytes belongs to the memory when some argument ends there, since the source writes it.
- Keyboard.Driver.KeyboardRead: the waiting loop is its exit condition; interrupts during the copy are not modelled. The modifier flags are one record. The byte behind keyboardBuffer is some other variable's; which one is up to the linker.
- Memory.MemMove: the direction flag that a backward move leaves set is not modelled.
- Context switches, iret frames, saved registers, TLB flushes and control registers; IDT, GDT, PIC, PIT, RTC and cursor port writes.
- The loading of a program image, `is_executable`, and the argument copy inside `execute`.
- The descriptor table with open, close and dispatch of read and write: small table updates.
- `read_dentry_by_name`, `read_dentry_by_index` and `read_fs_dir`: plain look-ups.
- The kernel's own `getargs`: its loop tests the pointer and not the character.
- `mp1_ioctl_find`: the search it uses is Blink.Fish.FindHelper, the rest is a copy of one record.
- `vidmap`, signals, the commented-out terminal switch, exception handlers.
- fork, execv, mmap and readdir in the emulation layer, and the demonstration programs.
- `memset_word`, `memset_dword`, `strncpy`, `strcpy` and `strncmp` of the kernel library, and the string cases of `printf`.
- `fish/ece391emulate.c` and `fish/ece391support.c`: copies of the files under `syscalls`.
