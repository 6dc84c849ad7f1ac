# BigBrainOS in Dafny

A model of the stateful core of the BigBrainOS teaching kernel and proofs about it. `dafny verify dfyconfig.toml`
checks the whole project.

The kernel code is imperative, and so is the model: classes hold the kernel's globals, and every method is proved
against a small reference definition that knows nothing of pages, PCBs or buffers.

| file | models | reference it is proved against |
|---|---|---|
| `Multiplexer.dfy`, `Pic.dfy` | the timer tick, video remapping, terminal switching, cursor and keyboard code, IRQ masks | `Desk.dfy`: three terminals that share nothing |
| `Isolation.dfy` | what those three terminals promise over every run | per-terminal operation lists |
| `Processes.dfy`, `SystemCalls.dfy` | PCBs, `used_pids`, execute, halt, context switch, program page, TSS | `Threads.dfy`: three independent stacks of programs |
| `Kernel.dfy` | both sides taking every tick together | both references, in step |
| `Rtc.dfy` | the shared real-time clock and the `rtc_read` wait | exact divisors, interrupt counts |
| `Screen.dfy` | `putc`, `scroll_up`, `screen_backspace`, `clear` in place on a video page | the wrapped layout of a text |
| `LineEditor.dfy` | the keyboard buffers and `terminal_read` | an edited line |
| `FileSystem.dfy`, `Descriptors.dfy` | `read_data`, lookup, `dir_read`, open, close, read | flat files, a list of names and positions in them |
| `Command.dfy` | command parsing, stored arguments, `sys_getargs` | positions of separators |
| `Strings.dfy`, `Memory.dfy` | `itoa`, `strrev`, `strncmp`, `strncpy`, printf's number cases, `memcpy`, `memmove`, `memset` | canonical numerals, simultaneous copies |

Main results:

* `Kernel.Run`, `Multiplexer.Run`, `ProcessTable.Run`: every interleaving of timer ticks, terminal switches, key
  strokes, writes, executes, halts and clock calls behaves as three independent terminals and three independent
  threads of control; mapping, cursor, keyboard mask, program page, TSS, kernel stack and clock agree throughout.
* `RunIsolated`, `RunThenRead`, `OutputIsRendered`, `LineIsEdited`, `TypeThenErase`: the consequences for a user.
* `ParentWalk`, `EntriesDistinct`, `BalancedRun`, `RunFrequencies`: the consequences for processes.
* `FdTable.Run` and `ReadsConcatenate`: chunked reads compose over every interleaving.

Assumptions. System calls and interrupt handlers are atomic, except the waits in `rtc_read` and `terminal_read`,
which are interleaved with their surroundings. The file named "shell" is an executable. Runs begin with the first
timer tick. `wait_slightly` (student-distrib/lib.h:51-57) outlasts a timer period; `KbHandler` and `SwitchTer` show that
the routing invariant survives a terminal switch exactly under that condition.

Where the code does not do what one would expect, the model follows the code:

* A program executed before all three shells run gets a pid below 3 and is recorded as its own parent
  (student-distrib/system_calls.c:147-148). `RunThenExecute` proves that the recorded parent is the caller exactly
  after three ticks, and `EarlyExecute` gives the failing input. Runs are therefore about successful executes after
  three ticks, which `TimelyIff` shows to mean executes while all three shells run.
* `clear_buffer` clears the displayed terminal's line, not the reader's (student-distrib/keyboard.c:286-289).
  `LineReachesReader` gives the exact condition, over all runs, for a line to reach its reader; `UnreadLineLost` is a
  run from power-on that loses one.
* `terminal_read` returns the length of the line typed even when it delivers less (student-distrib/terminal.c:63).
  `CountMatches` proves that count and delivery agree exactly when the line fits; `CountTooHigh` is a failing input.
* `sys_open` compares only as many bytes as the name has, so every prefix of "rtc" opens the clock
  (student-distrib/system_calls.c:330-331); see `SysOpen`, `PrefixCompare` and, for a failing input, `OpeningRIsClock`.
* A failing copy of the program after `enable_program_page` would return to the caller with the wrong page
  (student-distrib/system_calls.c:124-131); `LoadAndRun` shows what it would do, `StartProgram` that it cannot happen.
* `sys_getargs` with a size equal to the argument's length writes its NUL one byte past that size
  (student-distrib/system_calls.c:394-397); see `GetArgs`.
* `file_read` adds the error code to the position when a directory entry names a missing inode
  (student-distrib/file_system.c:86-89); see `ReadThrough`.
* The comments of `rtc_open` speak of a default of 2 Hz; the code gives the caller no frequency at all
  (student-distrib/rtc.c:70), and `rtc_read` then returns at once.

## Model

| member | source | states |
|---|---|---|
| `Kernel.Kernel.Run` | student-distrib/pit.c:46-139 | every run from the first tick on whose successful executes come after three ticks is, for the terminals, a run of three independent terminals and, for the processes, a run of three independent threads, both sides always naming the same terminal and the same set of started terminals |
| `Kernel.Kernel.TakeTick` | student-distrib/pit.c:46-139 | one tick leaves video page, cursor, keyboard mask, program page, TSS, kernel stack and pid all belonging to the next terminal, from any agreeing state |
| `Kernel.Kernel.Boot` | student-distrib/kernel.c:159-172 | start-up reaches a state made of new objects in which all tables agree, no terminal runs yet, each terminal shows its own page, and exactly the timer, keyboard, cascade and clock lines are enabled |
| `Kernel.Kernel.BootAndRun` | student-distrib/kernel.c:159-172 | from power-on through any run, terminals and threads are where the two references lead, and page, cursor, keyboard mask, program page, TSS, stack and clock agree |
| `Kernel.PartsOfRun` | student-distrib/pit.c:46-139 | the terminals' and the processes' part of a run are those of its pieces, one after the other |
| `Kernel.PartsOfOne` | student-distrib/pit.c:46-139 | a tick is in both parts, any other event in its own |
| `Multiplexer.Multiplexer.Run` | student-distrib/pit.c:46-139 | over every sequence of timer edges, ticks, writes, scancodes and reads the machine stays an image of the reference terminals, with the mapping, live cursor, on_screen and keyboard mask of the running terminal |
| `Multiplexer.Multiplexer.RunIsolated` | student-distrib/pit.c:46-139 | isolation on the machine: after any run, each terminal's page, saved cursor and buffers are the work of the operations addressed to it alone |
| `Multiplexer.Multiplexer.RunThenRead` | student-distrib/terminal.c:32-66 | reading on the machine: after any run the program whose turn it is returns from its read exactly if Enter was pressed on its terminal since it began to wait, with the entered line's count, and with that line if and only if no read finished since while its terminal was on display, or nothing is lost by it |
| `Multiplexer.Multiplexer.Tick` | student-distrib/pit.c:46-139 | a tick changes no logical screen and no saved cursor except to start a terminal's first shell, and establishes the invariant from any well-formed state |
| `Multiplexer.Multiplexer.Route` | student-distrib/pit.c:51-62 | the video page chosen is the displayed one exactly for the displayed terminal, and only then is the keyboard line left enabled |
| `Multiplexer.Multiplexer.Resume` | student-distrib/pit.c:109-128 | mapping and live cursor become those last saved for the next terminal, all screens unchanged |
| `Multiplexer.Multiplexer.StartShell` | student-distrib/pit.c:65-92 | the first shell's output starts at the home position of its own terminal's screen and touches no other |
| `Multiplexer.Multiplexer.Draw` | student-distrib/lib.c:539-544 | a change made through the current mapping is a change of the running terminal's screen and cursor only, displayed or not |
| `Multiplexer.Multiplexer.Putc` | student-distrib/lib.c:172-204 | a byte written lands on the running terminal's screen and on no other |
| `Multiplexer.Multiplexer.ScreenBackspace` | student-distrib/lib.c:611-623 | erases one cell of the running terminal's screen and keeps its saved cursor current |
| `Multiplexer.Multiplexer.SwitchTer` | student-distrib/keyboard.c:316-330 | swapping the pages changes which terminal is displayed and no terminal's screen; the invariant survives if and only if a tick was raised during the wait |
| `Multiplexer.Multiplexer.KeyboardServedIff` | student-distrib/pit.c:54-62 | the interrupt controller serves the keyboard exactly when the displayed terminal has its turn and no tick is pending |
| `Multiplexer.Multiplexer.KbHandler` | student-distrib/keyboard.c:120-178 | a scancode does to the displayed terminal, line and echo together, what its decoding says, and nothing to the others; the invariant is lost exactly by a terminal switch during whose wait no tick came up |
| `Multiplexer.Multiplexer.UpArrow` | student-distrib/keyboard.c:124-134 | does on the machine what the reference Up-arrow does, which `RecallIsRetyping` and `TypeThenRecall` describe |
| `Multiplexer.Multiplexer.ControlL` | student-distrib/keyboard.c:215-227 | the screen becomes blank with just the line being typed, cursor at its end |
| `Multiplexer.Multiplexer.FinishRead` | student-distrib/terminal.c:42-66 | a reader whose flag is up gets, byte for byte, the typed line cut to n-1 characters, a newline and zeros, with the count kept for it, and the typed line of the displayed terminal is cleared; otherwise it goes on waiting |
| `InterruptController.Pic.EnableIrq` | student-distrib/i8259.c:52-76 | the two masks represent exactly the lines whose last call was enable; numbers above 15 change nothing |
| `InterruptController.Pic.DisableIrq` | student-distrib/i8259.c:85-105 | the two masks represent exactly the lines whose last call was enable; numbers above 15 change nothing |
| `InterruptController.Pic.constructor` | student-distrib/i8259.c:37-41 | the initial masks 0xFB and 0xFF enable exactly the cascade line |
| `InterruptController.BitUpdateOnByte` | student-distrib/i8259.c:58-67 | setting or clearing one bit adds or subtracts that power of two on the mask byte, and only if the bit changes |
| `Desk.KeymapsAgree` | student-distrib/keyboard.c:11-110 | caps lock changes exactly the letters, to upper case, and shift agrees with it on them |
| `Desk.DigitRowCodes` | student-distrib/keyboard.c:11-75 | the codes of the digit row, without and with shift |
| `Desk.UpperRowCodes` | student-distrib/keyboard.c:11-75 | the codes of the upper letter row, without and with shift |
| `Desk.HomeRowCodes` | student-distrib/keyboard.c:11-75 | the codes of the middle letter row, without and with shift |
| `Desk.LowerRowCodes` | student-distrib/keyboard.c:11-75 | the codes of the lower letter row, without and with shift |
| `Desk.OtherCodes` | student-distrib/keyboard.c:11-110 | the remaining keys give the same code in every table, most of them none |
| `Desk.SpecialCodes` | student-distrib/keyboard.c:124-163 | the scancodes of the modifiers, of Up-arrow, of Ctrl-L and of Alt with F1 to F3, and what they do |
| `Desk.ShiftBeforeCaps` | student-distrib/keyboard.c:299-306 | shift decides before caps lock which table applies |
| `Desk.TypesCharacter` | student-distrib/keyboard.c:166-174 | any other key erases on code 8, enters on 10, does nothing without a code, and else types its character |
| `Desk.ReleasesIgnored` | student-distrib/keyboard.c:150-151 | releases of keys other than the modifiers do nothing |
| `Desk.ModifiersTrackKeys` | student-distrib/keyboard.c:136-147 | over every run shift, control and alt are on exactly when the last of their scancodes taken was a press, and caps lock has flipped once per press |
| `Desk.RoundRobin` | student-distrib/pit.c:46-49 | over every run the turn has gone round by one terminal per tick |
| `Desk.DisplayAndTick` | student-distrib/keyboard.c:316-330 | over every run the terminal shown is the one last asked for by a key taken, and a tick is pending exactly if the timer fired or a switch waited for it since the last one |
| `Isolation.TerminalsAreIndependent` | student-distrib/pit.c:46-139 | after any run each terminal is as if it alone had executed the operations addressed to it |
| `Isolation.OpFor` | student-distrib/keyboard.c:120-178 | an event prints, types, clears, starts a read or starts a shell on a terminal exactly where the source says: output on the terminal whose turn it is, keys on the displayed terminal during its own turn with no tick pending; a typed line is dropped exactly where a woken read finishes while the terminal is on display |
| `Isolation.OutputIsRendered` | student-distrib/lib.c:172-204 | under any interleaving a terminal shows the last 25 rows of the layout of exactly what was printed and echoed on it since it was last cleared, as long as no typed character was erased there |
| `Isolation.LineIsEdited` | student-distrib/keyboard.c:120-178 | after any run, reads included, a terminal's line, history and byte count are what the reference editor makes of the keys taken during its turns |
| `Isolation.ReadAcrossRuns` | student-distrib/terminal.c:32-66 | under any interleaving a reader is awake exactly if Enter was pressed on its terminal since it began to wait, and the line waiting for it is the one held at the last Enter unless a read has dropped it since |
| `Isolation.LineReachesReader` | student-distrib/terminal.c:51-63 | after any run a read delivers the line last entered on its terminal if and only if no read finished since that Enter while the terminal was on display, or the line was empty, or only one byte is asked for; the count returned is that of the entered line in any case |
| `Isolation.TypeThenErase` | student-distrib/keyboard.c:200-243 | typing a text that fits the buffer and erasing it restores the line and blanks exactly the cells it occupied, the cursor back at its start less 80 per scrolled row |
| `Isolation.RecallIsRetyping` | student-distrib/keyboard.c:124-134 | Up-arrow does to line and screen what erasing the whole line, key by key, and typing the last entered one would do |
| `Isolation.TypeThenRecall` | student-distrib/keyboard.c:124-134 | typing any text on an empty line and pressing Up leaves the last entered line in the buffer and, on the screen, blanks the text's cells and writes that line from where the text began, across wraps and scrolls |
| `Isolation.BannerShown` | student-distrib/pit.c:65-92 | on a blank page the first tick of a terminal shows the layout of its banner from the home position |
| `Isolation.BannerWritten` | student-distrib/pit.c:65-92 | on any page a banner without newlines overwrites the first cells and leaves the others |
| `Isolation.UnreadLineLost` | student-distrib/keyboard.c:286-289 | a run from power-on in which "ls" is entered on terminal 1 and its reader gets an empty line with a count of 3 |
| `Screen.VideoConsole.Putc` | student-distrib/lib.c:172-204 | the in-place code computes the reference put on the page and cursor, inside the 4000 screen bytes |
| `Screen.VideoConsole.ScrollUp` | student-distrib/lib.c:632-650 | the nested copy loops move the screen up one row, blank the last row and leave the rest of the page |
| `Screen.VideoConsole.ScreenBackspace` | student-distrib/lib.c:611-623 | moves the cursor back one cell across row ends and blanks that cell; nothing at the home position |
| `Screen.VideoConsole.Clear` | student-distrib/lib.c:33-39 | blanks exactly the 2000 cells |
| `Screen.Put` | student-distrib/lib.c:172-204 | keeps the cursor on the grid and the bytes beyond the screen unchanged |
| `Screen.PutcEndsRow` | student-distrib/lib.c:172-186 | bytes 10 and 13 go to column 0 of the next row, scrolling from the last one |
| `Screen.PutcStores` | student-distrib/lib.c:187-204 | every other byte is stored at the cursor with attribute 7, after ending a full row, and nothing else changes |
| `Screen.BackspaceBlanks` | student-distrib/lib.c:611-623 | a backspace blanks the cell before the cursor and goes there; at the home position it does nothing |
| `Screen.Rendering` | student-distrib/lib.c:172-204 | writing any byte sequence on a cleared screen shows the last 25 rows of its lazily wrapped layout, padded with blanks, cursor at the layout's end |
| `Screen.LayoutKeepsText` | student-distrib/lib.c:172-204 | the layout holds every printed character in order, in rows of at most 80 |
| `Screen.LayoutSplits` | student-distrib/lib.c:172-204 | a newline or carriage return splits the layout of a text |
| `Screen.LayoutWraps` | student-distrib/lib.c:172-204 | without any, the layout is the text in pieces of 80 |
| `Screen.EraseUndoesEcho` | student-distrib/lib.c:611-623 | echoing a text and backspacing over it yields the scrolled screen with exactly those cells blank and the cursor back at the start less 80 per scrolled row |
| `Screen.TypedLineFits` | student-distrib/keyboard.c:200-205 | a line of at most 127 characters never scrolls its own start off the screen, from any cursor position |
| `LineEditor.TerminalState.PrintChar` | student-distrib/keyboard.c:200-205 | appends to the line unless it has 127 characters; the buffer stays the line followed by zeros |
| `LineEditor.TerminalState.Backspace` | student-distrib/keyboard.c:237-243 | drops the last character, none from an empty line, zeroing its byte |
| `LineEditor.TerminalState.EnterKey` | student-distrib/keyboard.c:253-276 | the line moves to the typed and history buffers, followed by zeros, with its length plus one and the flag set |
| `LineEditor.TerminalState.RecallHistory` | student-distrib/keyboard.c:124-133 | the line becomes the last entered line |
| `LineEditor.TerminalState.TerminalRead` | student-distrib/terminal.c:32-66 | waits through any key bursts, then delivers, byte for byte, the typed line cut to n-1 characters, a newline and zeros, leaves the rest of the caller's buffer, and clears the typed line only if the reader's terminal is on display |
| `LineEditor.Delivered` | student-distrib/terminal.c:48-58 | n bytes: the first n-1 characters of the line in order, then a newline, then zeros |
| `LineEditor.EnteredLine` | student-distrib/keyboard.c:253-276 | any keys leave for the reader exactly the line as it stood at the last Enter, with its length plus one |
| `LineEditor.EnterThenRecall` | student-distrib/keyboard.c:124-133 | Enter starts an empty line, and Up-arrow brings back the line as it stood at the last Enter, after any keys |
| `LineEditor.ReadDeliversEntered` | student-distrib/terminal.c:42-48 | a waiting read wakes exactly when an Enter arrives and delivers the reference editor's line at that Enter |
| `LineEditor.CountMatches` | student-distrib/terminal.c:62-63 | the returned count is the delivered length if and only if the line fits |
| `LineEditor.CountTooHigh` | student-distrib/terminal.c:62-63 | a failing input: three characters read with two bytes give a count of 4 and two bytes |
| `Processes.ProcessTable.Run` | student-distrib/system_calls.c:14-230 | over every run of ticks, executes, halts, kernel work and clock calls from any consistent state, successful executes coming when all three shells run, the tables represent three independent threads; page, TSS, stack pointer and the clock's frequencies, descriptors and rate agree with the reference |
| `Processes.TimelyIff` | student-distrib/system_calls.c:147-148 | from power-on, executes come when all three shells run if and only if they come after three ticks |
| `Processes.ProcessTable.RunThenExecute` | student-distrib/system_calls.c:119-150 | an execute after any such run is recorded under its caller if and only if three ticks came before; after fewer its pid is their number and it is its own parent |
| `Processes.ProcessTable.EarlyExecute` | student-distrib/system_calls.c:119-150 | the failing input: one tick from power-on, then an execute, gives process 1 with parent 1, called by process 0 |
| `Processes.ProcessTable.BalancedRun` | student-distrib/system_calls.c:14-204 | when a terminal's executes and halts match up, whatever the others do, its two pids and the pid, parent and waiting place in each of its PCBs are restored on the machine; in its own turn also program page and TSS, and the stack pointer unless the caller itself worked in the kernel |
| `Processes.ProcessTable.RunFrequencies` | student-distrib/rtc.c:63-193 | over every run a process has the frequency it last wrote successfully since it last opened the clock or started, and the hardware rate is an exact multiple of it |
| `Processes.ChainDecidesTables` | student-distrib/system_calls.c:133-201 | any two consistent tables with the same chain on a terminal agree on its bookkeeping and PCBs |
| `Processes.ProcessTable.Tick` | student-distrib/pit.c:46-139 | every thread resumes with its own stack pointer, page and TSS (`KernelEntry` says which these are); a terminal without a process gets its root shell, or, if that cannot be executed, the turn alone passes on |
| `Processes.ProcessTable.Switch` | student-distrib/pit.c:94-138 | saving and restoring through the PCBs is a change of turn and nothing else |
| `Processes.ProcessTable.StartShell` | student-distrib/pit.c:64-92 | the first shell of terminal t gets pid t, and the interrupted program's context is kept although it is saved by terminal number |
| `Processes.ProcessTable.Execute` | student-distrib/system_calls.c:118-204 | fails without any effect exactly when the file is no executable or no pid is free; otherwise takes the lowest free pid; the recorded parent is the caller if and only if all three shells run, and else the new process itself, under a pid below 3 |
| `Processes.ProcessTable.Halt` | student-distrib/system_calls.c:14-58 | a nested program returns to its live parent where it waited; a root shell restarts under its own pid; the others' frequencies stay, and the clock comes down to the highest of them if the program had it open |
| `Processes.ProcessTable.GetNewPid` | student-distrib/system_calls.c:252-260 | the lowest unused pid, or an error exactly when all six are used |
| `Processes.ProcessTable.ClockWrite` | student-distrib/rtc.c:154-193 | a program's write is accepted exactly for the clock's frequencies and then is its frequency, the clock running at the higher of that and the old rate; no other program's frequency changes and all divisors stay exact |
| `Processes.ProcessTable.ClockClose` | student-distrib/rtc.c:83-109 | closing the clock changes no frequency and brings the rate down to the highest of 2 and the live ones |
| `Processes.ProcessTable.CurrPcbIsTop` | student-distrib/pcb.c:26-42 | masking the kernel stack pointer always yields the PCB of the program on top of the running terminal |
| `Processes.ProcessTable.KernelEntry` | student-distrib/pcb.c:26-53 | whenever the tables agree, so after every tick, execute, halt and clock call, tss.esp0 is the last word of the running program's 8 KB stack, masking any address from there down gives its PCB, a word higher does not, and the program page is its own 4 MB |
| `Processes.EntryIsTopOfStack` | student-distrib/system_calls.c:193-194 | tss.esp0 of process p is 0x7FFFFC less 8 KB for each process before it, with the whole stack below it |
| `Processes.ProgramPage` | student-distrib/paging.c:52-61 | program p has the 4 MB that begin 4 MB * p after the first 8 MB |
| `Processes.MaskFindsPcb` | student-distrib/pcb.c:26-53 | masking any stack pointer in 8 KB stack p gives exactly the address of PCB p |
| `Processes.EntriesDistinct` | student-distrib/system_calls.c:196-201 | no pid occurs twice in the chains of the three terminals |
| `Processes.UsedIffInUse` | student-distrib/system_calls.c:252-260 | used_pids holds exactly the pids of the chains |
| `Processes.ParentWalk` | student-distrib/system_calls.c:147-150 | following par_pid from the top walks down the chain through live programs to root pid t and stays there |
| `Threads.BalancedRunRestores` | student-distrib/system_calls.c:14-58 | when a thread's executes and halts match up, its chain with pids and waiting places is exactly restored, whatever the other threads do; and its stack pointer too if only nested programs worked in the kernel |
| `Threads.ExecuteReturns` | student-distrib/system_calls.c:36-58 | from an execute to the halt that answers it, through any nested run, the caller's thread comes back exactly, stack pointer included |
| `Threads.NestedKeepsChain` | student-distrib/system_calls.c:14-58 | in a nested run the programs below stay as they were and the chain grows by exactly the depth |
| `Threads.ThreadsAreIndependent` | student-distrib/pit.c:94-138 | a thread's programs and stack pointer are the work of its own moves, under any interleaving |
| `Threads.FreqIsLastWritten` | student-distrib/rtc.c:63-193 | in every run of the reference a process's frequency is what it last wrote successfully since its last open or start, whatever the others do |
| `Threads.RoundRobin` | student-distrib/pit.c:46-49 | over every run the turn has gone round by one thread per tick |
| `Threads.RateFollows` | student-distrib/rtc.c:83-193 | an accepted write raises the clock's rate if need be, a close or an end with the clock open brings it down to the highest of 2 and what live programs want, and nothing else changes it |
| `SystemCalls.SysExecute` | student-distrib/system_calls.c:73-204 | the whole call: beyond the process table, the new process, and no other, gets the parsed argument and a table of descriptors with only the terminal open; an error return changes nothing at all |
| `SystemCalls.StartProgram` | student-distrib/system_calls.c:73-204 | the call in its order: succeeds exactly for a command naming an executable while a pid is free, with the lowest pid; an error return leaves every table and register as it was, so the error branch after the page switch is never taken |
| `SystemCalls.ArgumentReachesProgram` | student-distrib/system_calls.c:80-157 | a command of name, space and argument starts a program whose sys_getargs delivers exactly the argument and a NUL, whichever pid it gets |
| `SystemCalls.CheckExecutable` | student-distrib/system_calls.c:106-116 | finds a program exactly if the first entry of the name has a valid inode whose file begins with 0x7F 0x45 0x4C 0x46, or, if shorter than four bytes, makes up these four with the stack bytes after it; and then that inode |
| `SystemCalls.ExecutableIff` | student-distrib/system_calls.c:106-116 | the same of the reference: which names lead to a program, and to which inode |
| `SystemCalls.RefusesOthers` | student-distrib/system_calls.c:115-116 | executing a file of four or more bytes that does not begin with them is an error without any effect |
| `SystemCalls.Load` | student-distrib/system_calls.c:127-131 | copies the whole file, and fails exactly for an inode that does not exist |
| `SystemCalls.LoadAndRun` | student-distrib/system_calls.c:124-201 | what that branch would do: the caller left with a page that is not its own; otherwise the new process runs |
| `SystemCalls.Request` | student-distrib/system_calls.c:284-376 | open, close and read with the clock's own handlers: table and reply as in the reference, and opening or closing the clock, and nothing else, is a step of the running program's clock, whose PCB goes on counting its open clocks |
| `SystemCalls.OpenClocksCounted` | student-distrib/system_calls.c:30-32 | sys_halt closes the clock exactly if one of the process's descriptors is open on it |
| `Rtc.Clock.Write` | student-distrib/rtc.c:154-193 | accepts exactly four bytes holding a power of two from 2 to 1024; all live divisors stay exact, the hardware rate is the highest requested so far; a refusal changes nothing |
| `Rtc.Clock.Close` | student-distrib/rtc.c:83-109 | the rate becomes the maximum of 2 and the live frequencies, none of which changes, and divisors are exact again |
| `Rtc.HighestIsMax` | student-distrib/rtc.c:88-95 | the frequency rtc_close settles on is at least 2 and every live one, and is one of them |
| `Rtc.Clock.Open` | student-distrib/rtc.c:63-74 | the caller's frequency becomes 0 and every other promise is kept |
| `Rtc.Clock.Spawn` | student-distrib/system_calls.c:142-145 | a new process joins without disturbing the exact divisors of the others |
| `Rtc.Clock.Read` | student-distrib/rtc.c:121-140 | under any interleaving the count never passes zero, a return means at least as many interrupts as the divisor at entry, the call returns once it has been granted that many rounds, and the clock stays consistent |
| `Rtc.RoundsSuffice` | student-distrib/rtc.c:129-137 | progress: as many rounds of running, interrupt, running twice, with anything in between, as the reader waits for make it return |
| `Rtc.CountedHappened` | student-distrib/rtc.c:129-137 | safety: every interrupt counted has happened |
| `Rtc.Clock.Interrupt` | student-distrib/rtc.c:45-54 | sets the flag of every terminal |
| `Rtc.RateFor` | student-distrib/rtc.c:202-212 | the rate found gives the largest power of two not above the frequency, and the frequency itself for a power of two |
| `Rtc.RateIsShift` | student-distrib/rtc.c:202-212 | a rate stands for 32768 shifted right by the rate less one: 15 for 2 Hz, 6 for 1024 Hz |
| `Rtc.PowerOfTwoTest` | student-distrib/rtc.c:162-162 | f & (f - 1) is zero exactly for powers of two |
| `Rtc.FreqsAre` | student-distrib/rtc.c:161-162 | the frequencies accepted are 2, 4, 8 and so on up to 1024 |
| `Rtc.ExactDivisor` | student-distrib/rtc.c:104-104 | dividing a higher clock frequency by a lower one leaves no remainder |
| `FileSystem.ReadData` | student-distrib/file_system.c:229-259 | returns min(length, bytes left), fills exactly that prefix with the file's bytes, leaves the rest, reads exactly the blocks that hold the slice; an invalid inode is an error without effect |
| `FileSystem.FilledIsSlice` | student-distrib/file_system.c:229-259 | the bytes filled in are the slice of the flat file |
| `FileSystem.FileIsJoined` | student-distrib/file_system.c:229-259 | the flat file is its 4096-byte blocks joined in the order of the inode, cut to its length |
| `FileSystem.BlocksHoldSlice` | student-distrib/file_system.c:229-259 | the blocks read are exactly those that hold a byte of the slice |
| `FileSystem.ReadableCases` | student-distrib/file_system.c:229-259 | a read yields all that is asked for while the file lasts, then the rest, then nothing |
| `FileSystem.ReadDentryByName` | student-distrib/file_system.c:201-218 | succeeds exactly when some entry's name equals the argument, with the first such entry |
| `FileSystem.FindEntry` | student-distrib/file_system.c:201-218 | the search agrees with the reference lookup |
| `FileSystem.LookupIsFirst` | student-distrib/file_system.c:201-218 | the reference lookup gives the first entry of the name, and none exactly if no entry has it |
| `FileSystem.DirRead` | student-distrib/file_system.c:137-163 | delivers the name at the position, padded with NULs to 32 bytes, with its length, and advances; 0 at the end and, with non-empty names, only there; the rest of the buffer untouched |
| `Descriptors.FdTable.SysOpen` | student-distrib/system_calls.c:317-358 | fails without effect exactly when the name is missing or the table full; otherwise the lowest free descriptor, at position 0, on the clock exactly for prefixes of "rtc" |
| `Descriptors.FdTable.SysClose` | student-distrib/system_calls.c:367-376 | frees an open descriptor from 2 on, and refuses 0, 1 and closed ones |
| `Descriptors.FdTable.SysRead` | student-distrib/system_calls.c:284-291 | count, buffer and table are those of the reference: the next slice of the flat file, or the next name, and an unchanged rest of the buffer |
| `Descriptors.FdTable.FileRead` | student-distrib/file_system.c:77-93 | the bytes delivered continue the file at the position, which advances by their number |
| `Descriptors.FdTable.Run` | student-distrib/system_calls.c:269-376 | any interleaving of opens, closes and reads gives, reply by reply, what the reference gives; through every descriptor opened meanwhile came the beginning of the file, or of the directory, that the first entry of the opened name leads to |
| `Descriptors.ReadsConcatenate` | student-distrib/file_system.c:77-93 | in every run of the reference, what was returned through each open file since its open is that file's beginning up to its position, and the names listed are the first entries |
| `Descriptors.OpenLeadsToEntry` | student-distrib/system_calls.c:317-358 | in every run, what came through a descriptor is a prefix of the file of the first entry of the name it was opened under, or of the list of names if that entry is the directory, or nothing if it is the clock |
| `Descriptors.ReadsWholeFile` | student-distrib/file_system.c:77-93 | opening a data file by name and reading it k times by n bytes delivers exactly its first k * n bytes, so the whole file in the end |
| `Descriptors.OthersUntouched` | student-distrib/system_calls.c:269-376 | a request changes no other open descriptor |
| `Descriptors.FdTable.ListDirectory` | student-distrib/file_system.c:137-163 | reading a directory again and again lists every name once, in order, and then returns 0 for ever |
| `Descriptors.PrefixCompare` | student-distrib/system_calls.c:330-331 | the comparison over the name's own length accepts exactly the prefixes of "rtc" |
| `Descriptors.OpeningRIsClock` | student-distrib/system_calls.c:330-331 | a failing input: in a file system with a data file named "r", opening it opens the clock |
| `Descriptors.ListedNamesAreFound` | student-distrib/file_system.c:201-218 | every listed name is found again, at the first entry of that name |
| `Command.Parse` | student-distrib/system_calls.c:80-104 | the name is cut at the first space or newline within 32 bytes, the argument runs from a space to the next separator within 128; a command that begins with a separator leaves in the name buffer what was there |
| `Command.ArgumentBuffer.GetArgs` | student-distrib/system_calls.c:386-402 | succeeds exactly when the size is at least the argument's length; delivers the argument and a NUL and nothing else, the NUL past the size if that is just the length; an error has no effect |
| `Command.ArgumentBuffer.RoundTrip` | student-distrib/system_calls.c:80-104 | a program started as name, space, argument reads back exactly the argument and a NUL |
| `Command.ParsesBack` | student-distrib/system_calls.c:80-104 | parsing such a command line gives back name and argument |
| `Command.NameAlone` | student-distrib/system_calls.c:80-91 | a name ended by a newline parses back to itself, with no argument |
| `Command.LongName` | student-distrib/system_calls.c:80-91 | a name of 32 or more characters is cut at 32, with no argument |
| `Strings.Itoa` | student-distrib/lib.c:212-242 | writes the canonical numeral and a NUL, at most 33 bytes, and nothing else |
| `Strings.Strrev` | student-distrib/lib.c:248-261 | reverses exactly the string, in place |
| `Strings.ReplacedIs` | student-distrib/lib.c:212-261 | what the string routines write, and that they write nothing else, in terms of slices |
| `Strings.NumeralRoundTrip` | student-distrib/lib.c:212-242 | positional parsing gives the value back; no leading zero except for 0 |
| `Strings.NumeralUnique` | student-distrib/lib.c:212-242 | every digit string without leading zero is the numeral of its value |
| `Strings.DigitCodes` | student-distrib/lib.c:213-213 | digits are 0 to 9 and then A to Z, each with its value |
| `Strings.Uint32Length` | student-distrib/lib.c:212-242 | a 32-bit value has at most 32 digits, 8 in hexadecimal |
| `Strings.FormatAlternateHex` | student-distrib/lib.c:93-103 | prints the hexadecimal numeral left-padded with zeros to eight characters |
| `Strings.AlternateHexValue` | student-distrib/lib.c:93-103 | those eight characters are digits of the same value |
| `Strings.FormatUnsigned` | student-distrib/lib.c:107-113 | prints a numeral that parses back to the value |
| `Strings.FormatSigned` | student-distrib/lib.c:116-127 | a minus sign and the magnitude for every negative value, the smallest included |
| `Strings.Strncmp` | student-distrib/lib.c:450-463 | zero exactly when the two strings agree up to n bytes, and otherwise the difference of the first signed characters that do not match |
| `Strings.Strncpy` | student-distrib/lib.c:486-497 | the string cut or NUL-padded to n bytes, nothing else changed |
| `Strings.PaddedIs` | student-distrib/lib.c:486-497 | strncpy's result in terms of slices: the string cut to n, zeros up to n, the rest as it was |
| `Strings.Strlen` | student-distrib/lib.c:267-271 | the length up to the first NUL |
| `Memory.Memcpy` | student-distrib/lib.c:369-408 | a simultaneous copy for every length and alignment, for disjoint regions and for a destination not above the source |
| `Memory.Memset` | student-distrib/lib.c:279-315 | fills exactly the n bytes with the low byte of c, for every length and alignment |
| `Memory.Memmove` | student-distrib/lib.c:417-437 | a simultaneous copy for every overlap |
| `Memory.CopiedIs` | student-distrib/lib.c:369-437 | a copy in terms of slices: the n source bytes in order at the destination, the rest as it was |
| `Memory.FilledIs` | student-distrib/lib.c:279-315 | a fill in terms of slices |

## Left out

- Interrupts in the middle of `sys_execute`, `sys_halt` and the clock calls other than the wait in `rtc_read`: a pid is chosen before it is marked used, so these calls are taken as atomic.
- Key strokes before the first timer tick, when `curr_process` is 2 although terminal 2 has no process.
- The user video page of `sys_vidmap`, which always leads to the physical screen until the next remapping.
- The position of the blinking hardware cursor, port I/O, TLB flushes, `iret`, base pointers and segment registers.
- `Multiplexer.Multiplexer.Run`: takes every first shell to start; what a failing start does is in the contract of `Tick` alone.
- `Multiplexer.Multiplexer.RunIsolated`: the same as `Run`.
- `Rtc.Clock.Read`: says nothing about an upper bound on interrupts, because a descheduled reader misses some.
- `Descriptors.FdTable.SysRead`: leaves reads of the terminal and the waiting of clock reads to `LineEditor` and `Rtc`.
- `LineEditor.TerminalState.TerminalRead`: excludes sizes below 1, for which the source indexes its temporary buffer at -1.
- `Descriptors.FdTable.SysOpen`: leaves the clock's own open to `SystemCalls.Request`.
- `Descriptors.FdTable.SysClose`: leaves the clock's own close to `SystemCalls.Request`.
- `Descriptors.FdTable.Run`: leaves out reads of descriptor 0, which are terminal reads.
- `Isolation.OutputIsRendered`: excludes erasing typed characters, because a backspace over program output is not taken back in the layout; `TypeThenErase` covers erasing what was just typed.
- `Kernel.Kernel.Run`: leaves out successful executes before the third tick, after which the parent chains no longer hold; see `RunThenExecute`.
- `Kernel.Kernel.BootAndRun`: leaves out the same executes.
- `Processes.ProcessTable.Run`: takes every first shell to start, and leaves out the same executes.
- `Processes.ProcessTable.BalancedRun`: leaves out the same executes.
- `Processes.ProcessTable.RunThenExecute`: leaves out a second execute before the third tick.
- `Memory.Memcpy`: excludes a destination above an overlapping source, as the C library does.
- `Processes.ProcessTable.Execute`: takes the result of the file checks as given; `SystemCalls.SysExecute` supplies it.
- Descriptors outside 0..7, which the source does not check.
- Programs longer than the rest of their 4 MB page, ELF loading beyond the magic bytes, and the prompt rewrite in `terminal_write`.
- The rest of start-up: GDT, IDT and TSS set-up, exception handlers, multiboot parsing, signal stubs, `left_pad` and `print_all_ascii`: straight-line code or constants.
