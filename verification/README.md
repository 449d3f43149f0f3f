# Proofs about a small teaching kernel

A Dafny model of the state machines of a small x86 kernel and of the user programs that stress it, with
proofs of what they are for. The kernel runs three virtual terminals, six process slots, a round-robin
timer and a read-only block file system; the programs are grep, a blinking-character device over a pool
allocator, and a system call emulation layer.

`dafny verify dfyconfig.toml` checks everything.

## How it is laid out

| files | what they model |
|---|---|
| `Scheduler`, `Machine`, `Runs` | the process kernel as three stacks of slots, one atomic step per kernel entry, and what holds over whole runs |
| `Paging`, `ProcessTables`, `Kernel` | the same kernel as its code has it: slot flags, control blocks with parent links, counters, page directory and task state segment, changed by the methods of a class |
| `ProcessLinks`, `Interrupted`, `Interruptions`, `HaltInterrupted` | when slot flags, links and counters fit together at all; execute and halt put aside between two of their statements while other terminals' programs enter the kernel |
| `Screen`, `Layout`, `Video`, `Display` | one 25 by 80 screen, its meaning as a window on an unbounded page, three terminals sharing the hardware memory, and the code on byte arrays |
| `LineDiscipline`, `Keyboard`, `KeyMaps` | the edit buffer of a terminal as a queue of edited lines, the code on it, and the character tables |
| `FileSystem`, `SharedCursor`, `OpenFiles`, `Command` | block-indexed files, lookup, listing alone and with others, reading what was opened, and how `execute` reads a command line and checks a program |
| `Grep`, `GrepScan` | what grep prints, and its chunked scan with carry-over |
| `Blink`, `BlinkScreen`, `BlinkList` | the phase of blinking characters, what is drawn of them, and their linked list inside a fixed pool |
| `Itoa`, `Memory`, `Arguments`, `Emulate` | number formatting, the string instructions, splitting and joining of arguments |
| `Common`, `Bytes`, `Arithmetic` | shared vocabulary, counting and division facts |

Where the code works in place, it is a class or a method on arrays, proved equal to a specification
function; the properties are then proved of that function. Saved stack and base pointers are opaque
tokens. Integers are unbounded except where their width shows: `buf_flag` is a signed byte, blink words
have 16 bits, file positions 32.

## Where the code falls short of its promise

Each of these is kept as the code has it, and the exact condition is proved; where it says little about
which inputs those are, a lemma gives one.

* `halt` on a terminal's last process starts the new shell before closing descriptors, and boot and
  `execute` never clear any: descriptors stay right from boot on exactly when the memory of the control
  blocks was clean and terminals' last processes close their files themselves (`Runs.CleanFromBoot`,
  `Runs.LastHaltLeaks`; boot, open and halt are enough: `Runs.ShellInheritsFile`).
* The kernel accepts a file that ends within the ELF magic number when the uninitialised header buffer
  happens to continue it (`Command.AcceptedExactly`, `Command.ReliableExactly`, `Command.EmptyFileRuns`).
* The scan of a command leaves its 128-byte buffers exactly when one of the two words has more than 127
  characters (`Command.StaysExactly`, `Command.LongWordEscapes`); lines typed at a terminal never do
  (`Command.TypedLinesStay`).
* A key keeps the edit buffer in bounds and `buf_flag` counting lines unless it is a tab without room or
  a backspace over a committed newline; a read does unless it is shorter than the first line
  (`LineDiscipline.PressKeepsCount`, `LineDiscipline.ReadKeepsCount`; `LineDiscipline.LateTabEscapes`,
  `LineDiscipline.ErasedNewlineIsCounted`, `LineDiscipline.ShortReadIsCounted`).
* terminal_read looks for a newline in the whole array, so after such a backspace it can take more bytes
  than were typed; `Keyboard.KeyBuffer.Read` says exactly when. After Enter, backspace and a read
  `num_buf` is -1 (`Keyboard.EraseThenRead`). A read of more than 128 bytes leaves the array exactly when
  there is no newline in it (`Keyboard.CopyLeaves`), as the shell's does after Enter, backspace and a
  letter (`Keyboard.TypeOverErased`).
* A line that has scrolled its own beginning away can be erased past the top of the screen memory
  (`Layout.FitsExactly`, `Layout.LongLineEscapes`).
* grep prints what it is meant to exactly for files without lines longer than its 1024-byte buffer
  (`Grep.OutputIsReport`; `Grep.LongLineExample`). A newline that happens to be in the uninitialised last
  byte of the buffer does harm exactly when it cuts a line in two (`Grep.StaleExactly`).
* All processes share one directory cursor: a listing is heard in full exactly when the others leave the
  cursor where it belongs at each read (`SharedCursor.HearsListing`; `SharedCursor.OpenRepeats`).
* A blink node at location 0 is indistinguishable from a free slot, and whatever is added next takes its
  slot and becomes its own successor (`BlinkList.ZeroBreaksRep`, `BlinkList.AddAfterZeroLoops`). What is
  said of runs of the device is therefore said of runs that enter none (`Blink.AllLasting`), which
  `BlinkDevice.Perform` shows to be what keeps `BlinkDevice.Valid()`.
* A sync always draws the off character, so in such runs the screen misses a phase exactly after a sync
  in an on phase (`BlinkScreen.PaintKeeps`).
* The word-wise `memcpy` is right for exactly the ranges of `Memory.CopyIsSafe`
  (`Memory.MemCpyExactly`, `Memory.Unsafe`).
* ece391_getargs writes one byte behind its buffer exactly when some of the leading arguments, joined,
  just fill it (`Emulate.WrittenBehind`, `Emulate.OneArgumentBehind`).
* System calls run with interrupts on (student-distrib/idt.c:257-262), and `current_process_num` is global.
  An execute that is put aside before its cli leaves sound tables exactly when no other terminal's execute
  or halt, not even a failing one, comes in between (`Interruptions.OvertakenExecute`). A halt that is put
  aside is lost between the change of `process_num` and that of `esp0`; elsewhere it is harmed exactly by
  another's entry between reading and using `current_process_num`, or by a process started in its freed
  slot (`HaltInterrupted.TurnInHalt`).

## Model

| member | source | states |
|---|---|---|
| Scheduler.NextApproaches | student-distrib/pit.c:47-50 | the search loop never passes over a flagged terminal: it comes closer to it or reaches it |
| Scheduler.RunsWithin | student-distrib/pit.c:41-50 | with the flags unchanged, every flagged terminal runs within as many ticks as there are terminals, for any number of terminals |
| Scheduler.ExactlyOneTurn | student-distrib/pit.c:41-50 | between two turns of a terminal every other flagged terminal runs exactly once |
| Machine.StepKeepsValid | student-distrib/syscall.c:31-239 | every kernel entry keeps slots within 1 to 6, no slot twice in the three stacks, and terminal 0 and the running terminal occupied |
| Machine.ShellFindsSlot | student-distrib/syscall.c:35-41 | a terminal's last process always leaves a slot for the new shell, at most its own |
| Machine.SpawnPushes | student-distrib/lib.c:54-67 | switching to an unused terminal pushes a shell there if a slot is free, and otherwise leaves the processor where it was |
| Runs.BootValid | student-distrib/kernel.c:177 | the first execute leaves one shell, in slot 1 on terminal 0, which is displayed, with its own call context and no argument, a sound state, and every other slot's memory as it was |
| Runs.CountUsed | student-distrib/syscall.c:125-134 | the lengths of the three stacks add up to the number of used slots |
| Runs.FullMeansSix | student-distrib/syscall.c:125-134 | there are never more than six processes, and the slot search fails exactly when there are six |
| Runs.SavedIsLost | student-distrib/pit.c:63-69 | after any run, each waiting terminal's top process holds in its own control block the context in which the terminal last lost the processor, as read off the run |
| Runs.TickResumesLost | student-distrib/pit.c:71-87 | every tick that changes terminals resumes the context in which the new one last lost the processor |
| Runs.CreatorsRemembered | student-distrib/syscall.c:196-219 | over any run every process keeps the context and the argument of the very execute call that created it |
| Runs.HaltResumesCreator | student-distrib/syscall.c:44-87 | a halt that is not a terminal's last gives the processor to the parent and resumes the execute call that created the halting process |
| Runs.LastHaltLeaks | student-distrib/syscall.c:37-41 | no free slot remembering an open descriptor, after a terminal's last halt this is still so and the new shell has just its two standard ones if and only if the halting process had none open |
| Runs.NewProcessesStartClosed | student-distrib/syscall.c:199-203 | over any run from a state in which no free slot remembers an open descriptor (BootClean says when boot gives one), every new process starts with exactly descriptors 0 and 1 open and free slots stay closed if and only if terminals' last processes halt with none open |
| Runs.BootClean | student-distrib/syscall.c:195-203 | after boot the first shell has just its standard descriptors and no free slot remembers an open one if and only if the memory of the control blocks held none |
| Runs.CleanFromBoot | student-distrib/syscall.c:31-239 | from boot on over any run, descriptors are right throughout if and only if the memory was clean and last halts are tidy |
| Runs.ShellInheritsFile | student-distrib/syscall.c:37-41 | boot, open a file, halt: the shell that takes over has descriptor 2 open |
| Runs.OpenIsLeast | student-distrib/syscall.c:289-329 | open returns the least closed descriptor from 2 to 7, at position 0 of the file type and, for a regular file, the inode of the entry, leaves the other seven alone, and fails, changing nothing, only for an unknown name or when all six are in use |
| Runs.CloseExactly | student-distrib/syscall.c:338-355 | close succeeds exactly on an open descriptor from 2 to 7, closes that one and keeps the others, changes nothing when it fails; what open returned can be closed, and is then the next one returned |
| OpenFiles.OpenThenRead | student-distrib/syscall.c:289-329 | after a successful open of a regular file by name, whatever reads follow on whatever descriptors, the bytes returned on the new one are the beginning of the file of the first entry of that name |
| Runs.FdsKept | student-distrib/syscall.c:31-355 | no kernel entry changes the descriptors of a process that stays, the running one's own open, close and halt aside |
| Runs.DisplayedBy | student-distrib/lib.c:44-69 | a switch always displays the terminal asked for, whether a slot is free or not, and nothing else changes the display |
| Runs.SwitchToUsed | student-distrib/lib.c:44-54 | a switch to a terminal with a process, or to the one displayed, changes the display only |
| Runs.TicksAreTurns | student-distrib/pit.c:35-90 | a series of ticks keeps the processes and walks through the scheduler's turns |
| Runs.RunsWithinThreeTicks | student-distrib/pit.c:35-90 | of any three ticks in a row one gives the processor to any given terminal that has a process |
| ProcessTables.ChainRuns | student-distrib/syscall.c:208-211 | from a terminal's process number the parent links run through exactly total_process used slots and then reach 0 |
| ProcessTables.ChainsApart | student-distrib/syscall.c:208-211 | no slot lies on two chains or twice on one |
| ProcessTables.UsedSlotsOnChains | student-distrib/syscall.c:193-211 | every slot marked in use lies on a chain |
| ProcessTables.CountsAddUp | student-distrib/syscall.c:37-38 | the total_process counts of the terminals add up to the number of slots marked in use |
| ProcessTables.PushLinks | student-distrib/syscall.c:193-211 | the assignments of execute carry flags, links and counts along with the new process on its stack |
| ProcessTables.PopLinks | student-distrib/syscall.c:33-47 | the assignments of halt carry them along with the process leaving its stack |
| ProcessTables.ReturnLinks | student-distrib/syscall.c:33-75 | so do all the assignments of a halt that returns to the parent, whose flags, links and counts then describe the shorter stack |
| Kernel.Kernel.FindSlot | student-distrib/syscall.c:122-130 | the slot search finds the least free slot |
| Kernel.Kernel.Start | student-distrib/syscall.c:187-219 | starting a program pushes its process; page directory entry and kernel stack become the new process's own |
| Kernel.Kernel.Execute | student-distrib/syscall.c:116-239 | execute is the machine's step, and the tables, page and stack invariant survives it; without a slot it returns 0, without a program -1, and nothing but the remembered process number changes |
| Kernel.Kernel.Halt | student-distrib/syscall.c:31-90 | halt is the machine's step, keeps the invariant, and jumps to the context in the control block found from esp0, that of the execute call that created the process |
| Kernel.Kernel.ReplaceLast | student-distrib/syscall.c:37-41 | a terminal's last process is replaced by a shell, by the same execute, in the middle of halt |
| Kernel.Kernel.ReturnToParent | student-distrib/syscall.c:44-87 | any other halt returns to the parent named by the control block found from esp0, with the parent's page and stack, all files closed |
| Kernel.Kernel.Rotate | student-distrib/pit.c:47-50 | the search loop ends, at the next flagged terminal |
| Kernel.Kernel.PitHandler | student-distrib/pit.c:35-90 | the timer handler is the machine's step, keeps the invariant, and restores what the top process of the new terminal has saved |
| Kernel.Kernel.SwitchTerminal | student-distrib/lib.c:44-69 | switch_terminal is the machine's step, keeps the invariant and displays the terminal asked for; for a terminal in use tables, page, stack and running terminal stay as they are |
| Kernel.Kernel.SpawnShell | student-distrib/lib.c:54-67 | the running process is put aside in its own control block and a shell started; without a slot the processor stays where it was |
| Kernel.Kernel.Open | student-distrib/syscall.c:289-329 | open is the machine's step on the running process's own descriptors, which Runs.OpenIsLeast and Runs.FdsKept describe |
| Kernel.Kernel.Close | student-distrib/syscall.c:338-355 | close is the machine's step on the running process's own descriptors, which Runs.CloseExactly describes |
| Kernel.Kernel.Self | student-distrib/syscall.c:254 | esp0 and PCB_MASK lead every system call to the control block of the running terminal's top process |
| Kernel.Kernel.Boot | student-distrib/kernel.c:160-177 | whatever the memory of the control blocks held, boot establishes the invariant, in the state the runs start from |
| Kernel.CloseDescriptors | student-distrib/syscall.c:66-70 | the closing loop of halt leaves the standard descriptors and closes all others |
| Kernel.FindDescriptor | student-distrib/syscall.c:299-300 | the search loop of open finds the least closed descriptor |
| Kernel.Resolve | student-distrib/syscall.c:138-182 | parsing into the two buffers, lookup and magic number check: for a command that stays in the buffers, the second word if the first is accepted, whatever the header buffer held, as the three rows below describe it |
| Kernel.ProgramArgument | student-distrib/syscall.c:143-197 | an accepted name and another word behind it, whatever the spacing: the program gets that word as its argument |
| Kernel.ProgramAlone | student-distrib/syscall.c:143-197 | an accepted name with nothing but spaces and a newline behind it: the argument is empty |
| Kernel.ProgramRefused | student-distrib/syscall.c:143-182 | a name that is not accepted is no program, whatever stands behind it |
| Kernel.ShellProgram | student-distrib/syscall.c:40 | the command "shell" stays in the buffers and is, when it is accepted at all, a program without an argument |
| HaltInterrupted.HaltedIsHalt | student-distrib/syscall.c:33-75 | the seven statements of a halt that returns to the parent, current_process_num included, make up the atomic halt |
| HaltInterrupted.TurnInHalt | student-distrib/syscall.c:33-87 | halt put aside after any of its statements, for a turn in which the other terminals' programs execute and halt at will: at exactly which points and after which of their entries it still leaves sound tables and jumps into its own execute; between the change of process_num and that of esp0 it is always lost to the parent's old context |
| Interruptions.OvertakenExecute | student-distrib/syscall.c:118-137 | execute put aside between setting current_process_num and its cli, with the slot found before or after: the tables are sound afterwards if and only if no other terminal's execute or halt came through, successful or not |
| Interruptions.StartedIsExecute | student-distrib/syscall.c:116-219 | not interrupted, the same statements are the atomic execute |
| Interruptions.PreemptedIsTick | student-distrib/pit.c:47-87 | the statements of a tick by which a process is put aside are the machine's tick |
| Interruptions.ExitedIsHalt | student-distrib/syscall.c:33-41 | another terminal's last halt, statement by statement, is the machine's halt |
| Interruptions.RunSpares | student-distrib/pit.c:35-90 | what any run of ticks and of other terminals' executes and halts keeps for a terminal that is put aside: sound links, its stack and entries, its slots' records; and that current_process_num and the parent of a process started in its slot are strangers to it |
| ProcessLinks.PushExactly | student-distrib/syscall.c:193-211 | entering a process into a slot leaves tables that show some three stacks if and only if its parent link is the terminal's top process and the slot is free |
| ProcessLinks.PopExactly | student-distrib/syscall.c:33-47 | ending a terminal's top process leaves such tables if and only if the slot freed is its own |
| ProcessLinks.TopExactly | student-distrib/syscall.c:47 | no other top process than the terminal's own leaves such tables |
| Paging.PageInit | student-distrib/page.c:8-29 | every entry of the initial page directory and page table |
| Paging.StackFindsPcb | student-distrib/syscall.c:195-207 | masking a process's kernel stack pointer gives its control block, and no other process's |
| Paging.AddressSpace | student-distrib/page.c:8-29 | the translation of every linear address while process n runs: its own frame at 128 MB, the kernel, the video page, and faults elsewhere |
| Paging.ProgramsDisjoint | student-distrib/syscall.c:187 | program memory of different processes, the kernel and the video page never share a physical byte |
| Paging.KernelEntries | student-distrib/page.c:8-29 | no directory or table entry of page_init is open to programs, and all are writable |
| Paging.UserSpace | student-distrib/page.c:8-29 | while a process runs, user mode reaches linear addresses from 128 to 132 MB and no others, the 132 MB window aside, and whatever is mapped is writable |
| FileSystem.BlockByte | student-distrib/filesystem.c:222-227 | block index and remainder address the byte of the concatenated blocks |
| FileSystem.FlatByte | student-distrib/filesystem.c:221-228 | every byte of a file is the byte of the data block its inode names, at the remainder |
| FileSystem.ReadData | student-distrib/filesystem.c:197-231 | read_data copies the slice of the flat file from offset up to length bytes or its end, into place and nowhere else; -1 for a bad inode |
| FileSystem.FileRead | student-distrib/filesystem.c:35-47 | file_read returns that slice at the descriptor's position, changes the position only, by what it returned, and leaves other descriptors alone |
| FileSystem.ReadsAreConsecutive | student-distrib/filesystem.c:35-47 | for any interleaving of reads of any sizes on several descriptors, the bytes returned on one of them are the next stretch of its file |
| FileSystem.NameTest | student-distrib/filesystem.c:149-154 | the strncmp and length test is name equality, also for names that fill all 32 bytes and are not terminated |
| FileSystem.LookupExactly | student-distrib/filesystem.c:134-164 | lookup fails for the empty name and for names no entry has, and only then; else the answer is the first entry of the name |
| FileSystem.ReadDentryByName | student-distrib/filesystem.c:134-164 | it returns -1 if and only if the name is empty or no entry has it; otherwise 0 and the first entry of exactly that name, for names of any length |
| FileSystem.Directory.Read | student-distrib/filesystem.c:82-97 | dir_read yields the next name, cut to nbytes, and moves the cursor; 0 at the end |
| FileSystem.ListingNames | student-distrib/filesystem.c:82-97 | reads of at least 32 bytes, undisturbed, list every name once, in order, then nothing |
| SharedCursor.HearsListing | student-distrib/filesystem.c:82-114 | among opens and reads of any others on the one cursor, a reader hears exactly its own listing if and only if the cursor stands where its own reads would have put it at each of them, for distinct names |
| SharedCursor.OpenRepeats | student-distrib/filesystem.c:111-114 | another's open between two reads makes a name heard twice |
| FileSystem.ListedNamesResolve | student-distrib/filesystem.c:134-164 | looking up any listed non-empty name finds the first entry of that name |
| Command.Parse | student-distrib/syscall.c:143-172 | the scanning loops and copies write the first two words with their terminators into the buffers, and nothing else |
| Command.StaysExactly | student-distrib/syscall.c:155-172 | the copies stay in their 128-byte buffers if and only if neither word has more than 127 characters |
| Command.TypedLinesStay | syscalls/ece391shell.c:15-21 | a line read from the keyboard, its newline taken off, always stays in them |
| Command.LongWordEscapes | student-distrib/syscall.c:155-157 | a word of n letters stays in its buffer if and only if n is at most 127 |
| Command.ParseFormatted | student-distrib/syscall.c:143-172 | whatever the spacing, a formatted name and argument come back |
| Command.ParseAlone | student-distrib/syscall.c:143-172 | a name alone, spaces around it and a newline behind it or not, comes back with an empty argument |
| Command.CheckRunnable | student-distrib/syscall.c:174-182 | the check accepts exactly the names of files whose first bytes, followed by what the header buffer held, are the magic number |
| Command.AcceptedExactly | student-distrib/syscall.c:178-182 | it agrees with the intended test if and only if the file does not end within the magic number or the buffer did not continue it |
| Command.ReliableExactly | student-distrib/syscall.c:178-182 | it agrees for every content of the buffer if and only if the file does not end within the magic number |
| Command.EmptyFileRuns | student-distrib/syscall.c:178-182 | an empty file is accepted when the buffer still holds the magic number |
| Screen.Scroll | student-distrib/lib.c:253-270 | the nested loops move the characters up a row and empty the last one, attributes staying |
| Display.Emit | student-distrib/lib.c:221-271 | the body that putc and putc2screen share is one Put on a private screen |
| Display.Display.Putc | student-distrib/lib.c:214-272 | putc writes to the hardware memory or the backing store of the running terminal only |
| Display.Display.Putc2Screen | student-distrib/lib.c:278-334 | putc2screen writes to the hardware memory and the displayed terminal's cursor only |
| Display.Display.Clear | student-distrib/lib.c:21-38 | clear blanks the running terminal wherever its screen is |
| Display.Display.Wipe | student-distrib/keyboard.c:333-349 | Ctrl+L blanks the displayed terminal, whichever is running |
| Display.Display.Swap | student-distrib/lib.c:48-51 | the two copies of a switch |
| Display.Display.SwapNew | student-distrib/lib.c:44-67 | a switch to an unused terminal, with its clear, and with the message execute prints there when no slot is free |
| Video.StepIsPrivate | student-distrib/lib.c:21-69 | one event does to every terminal's screen what it means to that terminal and nothing else |
| Video.TerminalsIndependent | student-distrib/lib.c:21-69 | over any interleaving every terminal's screen and cursor are what its own operations alone make of a private screen |
| Layout.PutShows | student-distrib/lib.c:221-271 | one character keeps the screen the window of the unbounded page |
| Layout.ScreenIsWindow | student-distrib/lib.c:280-330 | whatever is output, the screen is the 25-row window of the unbounded page of wrapped lines |
| Layout.BackspaceStaysInLine | student-distrib/lib.c:287-298 | any number of backspaces stops at the line's start and empties just the cells it passes |
| Layout.TextOnPage | student-distrib/lib.c:242-250 | text is laid out on the page byte by byte from the cursor on, wrapping at column 80; nothing else is written, and the window follows just far enough |
| Layout.LineOnPage | student-distrib/lib.c:221-226 | a line of text and its newline: the text in its cells, then the cursor and the line start at the beginning of the next row, inside the window |
| Layout.PutAttributes | student-distrib/lib.c:241-267 | a printed character gives its cell the attribute 7; no other character and no scrolling changes any attribute |
| Layout.BlankIsEmpty | student-distrib/lib.c:21-38 | a cleared screen is all spaces in attribute 7, with the cursor and the line start at the top left |
| Layout.AttributesKept | student-distrib/lib.c:241-267 | a cleared screen shows everything in that one attribute, whatever is output |
| Layout.FitsExactly | student-distrib/lib.c:287-298 | a character stays within the screen exactly when it does not erase a cell that has scrolled away; always while the line begins on the screen |
| Layout.LongLineEscapes | student-distrib/lib.c:287-298 | 2000 letters and 1921 backspaces leave the screen memory, 1920 do not |
| LineDiscipline.FlagMeansLine | student-distrib/terminal.c:28 | a counted flag is non-zero exactly when a complete line waits, also when the signed byte has wrapped |
| LineDiscipline.PressKeepsCount | student-distrib/keyboard.c:281-310 | a key keeps the buffer in bounds and buf_flag counting its lines if and only if it is neither a tab with fewer than four places left nor a backspace over a committed newline |
| LineDiscipline.ErasedNewlineIsCounted | student-distrib/keyboard.c:289-295 | Enter and backspace in an empty buffer leave buf_flag at 1 and nothing buffered |
| LineDiscipline.LateTabEscapes | student-distrib/keyboard.c:281-286 | a tab behind 125 bytes needs 129 places |
| LineDiscipline.ReadKeepsCount | student-distrib/terminal.c:37-55 | a read keeps it counting if and only if its buffer holds the first line |
| LineDiscipline.ShortReadIsCounted | student-distrib/terminal.c:37-55 | a one-byte read of a two-byte line leaves a complete line that is not announced |
| LineDiscipline.ReadReturnsLine | student-distrib/terminal.c:37-42 | a read returns one whole line if and only if its buffer holds it |
| LineDiscipline.FirstInFirstOut | student-distrib/terminal.c:24-64 | over any proper run the bytes read followed by the bytes buffered are the edited stream, and buf_flag counts the lines waiting |
| Keyboard.KeyBuffer.PutChar | student-distrib/keyboard.c:352-390 | a character is stored unless fewer than two places are left |
| Keyboard.KeyBuffer.PutTab | student-distrib/keyboard.c:281-286 | a tab stores four spaces |
| Keyboard.KeyBuffer.Erase | student-distrib/keyboard.c:289-295 | a backspace takes back the last byte |
| Keyboard.KeyBuffer.PutEnter | student-distrib/keyboard.c:299-310 | enter stores a newline and counts it, if there is room |
| Keyboard.KeyBuffer.Wipe | student-distrib/keyboard.c:333-339 | Ctrl+L empties the buffer and the count |
| Keyboard.KeyBuffer.Read | student-distrib/terminal.c:33-61 | terminal_read on any contents of the array: what it takes, shifts and counts; it takes no more than was typed if and only if a newline was typed or nbytes is no more than that, and then it takes the first line, or as much of it as fits |
| Keyboard.ScannedWithin | student-distrib/terminal.c:37-42 | how far the copying loop runs, against what was typed |
| Keyboard.EraseThenRead | student-distrib/terminal.c:37-53 | Enter, backspace and a read in an empty buffer: one byte is returned and num_buf becomes -1 |
| Keyboard.CopyLeaves | student-distrib/terminal.c:37-50 | the copying loop leaves the array, and the clearing loop writes in front of it, if and only if more than 128 bytes are asked for and none in the array is a newline |
| Keyboard.TypeOverErased | syscalls/ece391shell.c:15-21 | Enter, backspace and a letter in an empty buffer: the shell's read of 1023 bytes leaves the array |
| Keyboard.Keyboard.Interpret | student-distrib/keyboard.c:206-321 | modifiers, and exactly which codes edit, print, wipe or switch terminals |
| Keyboard.Keyboard.Print | student-distrib/keyboard.c:329-391 | the table chosen by caps lock and shift gives the character; a printed character is never a newline, backspace, tab or NUL |
| KeyMaps.TablesPlain | student-distrib/keyboard.c:25-190 | the four tables of the source have newline, backspace and tab at the keys for them only, as the two rows above ask of them |
| KeyMaps.CapsAndShift | student-distrib/keyboard.c:25-190 | on a letter caps lock and shift undo each other; on any other key caps lock does nothing and no letter appears; Ctrl clears the screen with the key L only |
| Grep.PiecesAreLines | syscalls/ece391grep.c:20-60 | the stretches grep searches are the file's lines, empty ones aside, if and only if no line is longer than 1024 bytes |
| Grep.OutputIsReport | syscalls/ece391grep.c:40-51 | grep prints exactly the matching lines, in order and once each, for all patterns, if and only if no line is longer than its buffer; otherwise it fails for a pattern of one character |
| Grep.ReportLines | syscalls/ece391grep.c:45-47 | the report, read line by line, is the matching lines, in order and once each, each behind the file's name and a colon |
| Grep.ContainsExactly | syscalls/ece391grep.c:42-44 | a line contains the pattern if and only if it is something, the pattern, and something |
| Grep.LinesRejoin | syscalls/ece391grep.c:28-40 | the lines have no newline in them, and put back together with newlines between them they are the file |
| Grep.LongLineExample | syscalls/ece391grep.c:20-60 | a file of 1025 equal letters searched for that letter is printed wrong |
| Grep.StaleExactly | syscalls/ece391grep.c:33-39 | a newline in the uninitialised last byte of the buffer changes nothing, whatever the pattern, if and only if it does not cut a line in two |
| Grep.OutputLine | syscalls/ece391grep.c:30-52 | a complete line within the buffer is searched and printed as one |
| Grep.OutputPiece | syscalls/ece391grep.c:30-56 | so is a full buffer without a newline, and the unfinished line at the end of the file |
| GrepScan.DoOneFile | syscalls/ece391grep.c:9-66 | the chunked scan prints what the pieces of the whole file call for, wherever the chunk boundaries fall and whatever the buffer held, a newline left over in its last byte accounted for; -1 when the file cannot be opened |
| GrepScan.ScanBuffer | syscalls/ece391grep.c:28-57 | the inner loop reports all complete lines and carries the rest to the front; nothing is lost or searched twice |
| GrepScan.Search | syscalls/ece391grep.c:42-51 | the search loop finds the pattern exactly when the line contains it |
| GrepScan.SameAt | syscalls/ece391support.c:35-46 | strncmp on a line against the whole pattern |
| GrepScan.CopyDown | syscalls/ece391support.c:14-17 | strcpy onto a lower, overlapping address moves the string |
| GrepScan.ReadMore | syscalls/ece391grep.c:22-27 | a read appends the next bytes of the file, short only at its end |
| Blink.PhaseAfter | fish/blink.S:58-90 | the closed form of a node's state t ticks after it was added, for all lengths |
| Blink.PhaseOfProperLengths | fish/blink.S:64-86 | for lengths 1 to 0x8000 a node is on iff t modulo the period is below its on length, and the countdown is the time left |
| Blink.AddedNodeBlinks | fish/blink.S:135-138 | in any run that spares its location and enters no node at location 0, an added node is where the closed form says |
| Blink.RunSpares | fish/blink.S:49-99 | a node changes only with the ticks over any run that spares its location and enters no node at location 0 |
| Blink.SyncedStayInStep | fish/blink.S:267-275 | two synced nodes agree on lengths, status and countdown ever after, while both are spared and no node is entered at location 0 |
| Blink.AddPutsOne | fish/blink.S:127-162 | an add raises the number of nodes at its location by one and at no other, and the node found there is the added one, on, at the start of its on phase; the nodes that were there follow it unchanged |
| Blink.RemoveTakesOne | fish/blink.S:187-223 | a remove lowers the number of nodes at its location by one if there are any, at no other and never otherwise; the node that goes is the first one there |
| Blink.RemovedIsGone | fish/blink.S:187-223 | with at most one node at a location, none is found there after a remove |
| Blink.SyncCopiesPhase | fish/blink.S:267-275 | a sync leaves the target's location and characters and gives it the source's lengths, countdown and status; no other node changes, and none when either is missing |
| BlinkList.BlinkDevice.constructor | fish/fish.c:28 | the cleared pool is an empty list |
| BlinkList.BlinkDevice.Malloc | fish/fish.c:160-170 | the least slot whose location is 0, or NULL |
| BlinkList.BlinkDevice.Add | fish/blink.S:105-174 | add is cons, on an acyclic list whose nodes are exactly the used slots, and draws the on character; it fails only off the screen or with 2000 nodes; the list remains one unless the new location is 0 |
| BlinkList.BlinkDevice.FindHelper | fish/blink.S:351-379 | the slot of the first node at the location, or NULL |
| BlinkList.BlinkDevice.Remove | fish/blink.S:187-223 | remove deletes the first node at the location, and one more pool slot is free; it fails, changing nothing, if and only if there is no such node |
| BlinkList.BlinkDevice.Find | fish/blink.S:302-342 | find returns the first node at the location |
| BlinkList.BlinkDevice.Sync | fish/blink.S:240-299 | sync copies lengths, countdown and status to the first node at the target and draws its off character |
| BlinkList.BlinkDevice.Tasklet | fish/blink.S:49-99 | the tick reaches every node once, and draws those whose phase changes |
| BlinkList.BlinkDevice.Perform | fish/blink.S:101-103 | over any run of calls that enters no node at location 0, the memory holds the list and the screen what is drawn of it |
| BlinkList.BlinkDevice.ValidMeansNoneAtZero | fish/fish.c:164 | while pool and list agree, no node of the list is at location 0 |
| BlinkScreen.PaintKeeps | fish/blink.S:267-285 | on a list without a node at location 0, an add at a new place other than 0, a remove, a tick or a sync keeps the screen showing every node in its phase if and only if it is not a sync to an on phase whose two characters differ |
| BlinkScreen.ScreenShowsPhases | fish/blink.S:49-99 | over any run that adds at new places other than 0 only, the screen shows every phase throughout if and only if there is no such sync |
| BlinkList.InsertRep | fish/blink.S:159-162 | inserting keeps the list acyclic and exact |
| BlinkList.UnlinkRep | fish/blink.S:206-222 | unlinking and freeing keep the list acyclic and exact, and delete one node |
| BlinkList.FullMeansAll | fish/fish.c:160-170 | allocation fails exactly when the list has 2000 nodes |
| BlinkList.FreeCounted | fish/fish.c:160-175 | free slots and nodes of the list together are always 2000 |
| BlinkList.ZeroBreaksRep | fish/fish.c:164 | an added node keeps pool and list in agreement if and only if its location is not 0 |
| BlinkList.AddAfterZeroLoops | fish/fish.c:164 | whatever is added directly after a node at location 0 takes its slot and becomes its own successor |
| Itoa.NumeralParses | student-distrib/lib.c:360-365 | the numeral parses back to its number and has no leading zero |
| Itoa.NumeralUnique | student-distrib/lib.c:360-365 | and is the only one |
| Itoa.Itoa | student-distrib/lib.c:342-372 | itoa writes exactly that numeral, for every 32-bit value and radix 2 to 36, and touches nothing else |
| Itoa.StrRev | student-distrib/lib.c:378-391 | strrev reverses in place |
| Itoa.PrintHex8 | student-distrib/lib.c:128-138 | %#x prints exactly eight hexadecimal digits of the value |
| Itoa.PrintSigned | student-distrib/lib.c:154-167 | %d prints the sign and the numeral, also for the least number |
| Itoa.DigitsAsLookup | student-distrib/lib.c:343 | the digits are those of the lookup string |
| Itoa.NumeralLength | student-distrib/lib.c:124 | how many digits a bounded number has, so that the conversion buffers suffice |
| Memory.MemSet | student-distrib/lib.c:410-444 | the three phases of memset fill n bytes and no others, for every alignment and length |
| Memory.MemCpy | student-distrib/lib.c:493-530 | the three phases of memcpy are the piecewise copy, for every alignment, length and overlap |
| Memory.MemCpyExactly | student-distrib/lib.c:493-530 | the piecewise copy leaves the source bytes at the destination for all memories if and only if the ranges are disjoint, the copy is downwards, or it is a single word |
| Memory.MemMove | student-distrib/lib.c:539-557 | memmove leaves the old source bytes at the destination for every overlap |
| Arguments.ArgsAreFields | syscalls/ece391emulate.c:88-98 | without newlines the arguments are the maximal runs between spaces |
| Arguments.FinalNewline | syscalls/ece391emulate.c:88-98 | a newline at the end changes nothing |
| Arguments.SplitJoined | syscalls/ece391emulate.c:88-98 | splitting undoes joining |
| Arguments.JoinConcat | syscalls/ece391emulate.c:138-156 | joined arguments are the arguments themselves with one space between neighbours |
| Arguments.CommandRoundTrip | syscalls/ece391emulate.c:67-100 | a program name and arguments joined into a command, with or without a newline, give the arguments back |
| Arguments.JoinSplitStable | syscalls/ece391emulate.c:132-157 | joining the arguments of any command and splitting again gives the same arguments |
| Emulate.Split | syscalls/ece391emulate.c:67-100 | the in-place split leaves the program and each argument as strings in the buffer, in order, within the 1024 slots; -1 for more than 1023 characters |
| Emulate.GetArgs | syscalls/ece391emulate.c:131-157 | getargs writes the arguments joined by single spaces, and succeeds exactly when that and its terminator fit; what it writes in every case, and that behind the buffer it changes at most one byte, to NUL, just when leading arguments fill the buffer |
| Emulate.WrittenWhenFits | syscalls/ece391emulate.c:138-156 | when they fit, just the joined arguments and their terminator are written |
| Emulate.WrittenBehind | syscalls/ece391emulate.c:141-143 | the call writes at most one byte behind its buffer, and does so if and only if some leading arguments, joined, just fill it |
| Emulate.WrittenPrefix | syscalls/ece391emulate.c:138-156 | also when they do not fit, all that is written but the last byte is a beginning of the joined arguments, and that byte a space or a NUL |
| Emulate.OneArgumentBehind | syscalls/ece391emulate.c:141-143 | a single argument of nbytes characters has its terminator written behind the buffer, and the call fails |

## Left out

- Kernel.Kernel.Execute: the program and the entry a name stands for are parameters of the kernel's steps; `Kernel.Resolve` and `FileSystem.ReadDentryByName` say what they are. Loading the image into its page, the entry point, ELF beyond the magic number, and the drop to user mode are not modelled.
- Kernel.Kernel.Halt: that a file named "shell" exists and runs is taken for granted where the kernel starts one by itself; exit status is not modelled.
- Kernel.Kernel.ReplaceLast: what halt does when no shell can be started is not modelled.
- Kernel.Kernel.Start: the kernel's tables are sequence-valued fields, so aliasing between control blocks and kernel stacks in memory is not modelled. `process` has entries 0 to 6, as the indices used require, although student-distrib/syscall.h:75 declares six.
- Kernel.Kernel.SwitchTerminal: the screen part is `Display.Swap` and `Display.SwapNew`; the two halves are separate models.
- Kernel.Kernel.PitHandler: the 132 MB video window it also remaps is left out; so is its directory entry in `Paging.AddressSpace`.
- Paging.AddressSpace: does not cover linear addresses from 132 to 136 MB, the video window.
- Machine.StepKeepsValid: every kernel entry is one atomic step, which the code does not ensure. `Interruptions` and `HaltInterrupted` put one execute or halt aside while the entries in between are whole; two entries that interrupt each other, a halt of a terminal's last process that is put aside, and a switch of the display during the gap are not modelled.
- Kernel.Resolve: a command whose words do not stay in the 128-byte buffers; what the copies then overwrite is not modelled, only when they do.
- FileSystem.ReadData: the image is taken to be well formed, inodes naming existing blocks, so a damaged image is not modelled.
- Keyboard.KeyBuffer.PutTab: a tab without room, which the code stores behind the array, into num_buf; `LineDiscipline.PressKeepsCount` has the condition.
- Keyboard.KeyBuffer.Read: a read of more than 128 bytes when the whole array holds no newline, which runs out of the array (`Keyboard.CopyLeaves`): what it then reads and overwrites is not modelled, and neither is what later keys do once num_buf is negative.
- Keyboard.Keyboard.Interpret: the tables are a parameter; `KeyMaps` has the source's, and shows that they are as required.
- GrepScan.DoOneFile: files have no NUL; read and close failures and the loop over the directory are left out.
- BlinkScreen.PaintKeeps: two nodes at one location, whose characters overwrite each other; and the character that remains after a remove.
- Memory.MemSet: the direction flag and segment registers are not modelled, nor are memset_word and memset_dword.
- Itoa.PrintHex8: of printf only the number conversions are modelled.
- Display.Emit: the source holds this body twice, once per memory; it is written once. Drawing of the hardware cursor is left out.
- Port input and output, interrupt controller, timer and clock programming, descriptor tables, TLB, and the clock device.
- read and write dispatch through the file operation tables, with write's missing in-use check; getargs and vidmap of the kernel.
- fork, execv, mmap and opendir in the emulation layer, and the small user programs.
