/**
  The kernel's process code in its own form: execute, halt, open and close (syscall.c), the timer
  handler (pit.c) and switch_terminal (lib.c) on the tables, the page directory and the task state
  segment. Each is one atomic step. The ghost field m is the machine of three stacks; every method
  proves that the tables keep describing it.
*/
module Kernel {
  import opened Common
  import opened Bytes
  import opened FileSystem
  import opened Machine
  import opened ProcessTables
  import Command
  import Paging
  import Runs
  import Scheduler

  /** What execute makes of a command line: the argument of the program it names, if it names one. */
  function Program(img: Image, command: seq<Byte>, header: seq<Byte>): Option<seq<Byte>>
    requires WellFormed(img) && |header| == |Command.MAGIC|
  {
    if Command.Accepted(img, Command.FirstWord(command), header) then Some(Command.SecondWord(command)) else None
  }

  /** An accepted name and what stands behind it: the argument is the next word, whatever the spacing, ... */
  lemma ProgramArgument(
    img: Image, header: seq<Byte>, a: nat, name: seq<Byte>, b: nat, argument: seq<Byte>, rest: seq<Byte>)
    requires WellFormed(img) && |header| == |Command.MAGIC| && Command.Accepted(img, name, header)
    requires Command.IsWord(name) && Command.IsWord(argument) && b > 0 && (rest == [] || Command.EndsWord(rest[0]))
    ensures Program(img, Command.Spaces(a) + (name + (Command.Spaces(b) + (argument + rest))), header) == Some(argument)
  {
    Command.ParseFormatted(a, name, b, argument, rest);
  }

  /** ... and the empty word if none stands on the line. */
  lemma ProgramAlone(img: Image, header: seq<Byte>, a: nat, name: seq<Byte>, b: nat, rest: seq<Byte>)
    requires WellFormed(img) && |header| == |Command.MAGIC| && Command.Accepted(img, name, header)
    requires Command.IsWord(name) && (rest == [] || rest[0] == NEWLINE)
    ensures Program(img, Command.Spaces(a) + (name + (Command.Spaces(b) + rest)), header) == Some([])
  {
    Command.ParseAlone(a, name, b, rest);
  }

  /** A command whose first word is not accepted runs nothing. */
  lemma ProgramRefused(img: Image, header: seq<Byte>, a: nat, name: seq<Byte>, rest: seq<Byte>)
    requires WellFormed(img) && |header| == |Command.MAGIC| && !Command.Accepted(img, name, header)
    requires Command.IsWord(name) && (rest == [] || Command.EndsWord(rest[0]))
    ensures Program(img, Command.Spaces(a) + (name + rest), header) == None
  {
    Command.SkipLeading(a, name + rest);
    Command.WordThen(name, rest);
  }

  /** The scan of the command and the magic number check of execute, header being its uninitialised header buffer. */
  method Resolve(img: Image, command: seq<Byte>, header: array<Byte>) returns (program: Option<seq<Byte>>)
    requires WellFormed(img) && NulFree(command) && header.Length == |Command.MAGIC|
    requires Command.StaysInBuffers(command)
    modifies header
    ensures program == Program(img, command, old(header[..]))
  {
    var cmd, argument := new Byte[KEYBOARD_BUF_SIZE](_ => 0), new Byte[KEYBOARD_BUF_SIZE](_ => 0);
    Command.ParseReads(command, cmd, argument);
    Command.WordsNulFree(command);
    var ok := Command.CheckRunnable(img, CString(cmd[..]), header);
    program := if ok then Some(CString(argument[..])) else None;
  }

  function SlotsOf(pcbs: seq<Pcb>): (r: seq<Slot>)
    ensures |r| == |pcbs| && forall s :: 0 <= s < |pcbs| ==> r[s] == pcbs[s].slot
  {
    seq(|pcbs|, s requires 0 <= s < |pcbs| => pcbs[s].slot)
  }

  lemma NoProcesses(process: seq<bool>, pcbs: seq<Pcb>, terms: seq<Terminal>, m: State)
    requires |m.stacks| == |terms| == TERMINAL_NUM && forall t :: 0 <= t < TERMINAL_NUM ==> m.stacks[t] == []
    requires |process| == PROCESS_NUM_MAX + 1 && process[0] && forall s :: 1 <= s <= PROCESS_NUM_MAX ==> !process[s]
    requires forall t :: 0 <= t < TERMINAL_NUM ==> terms[t] == Terminal(0, false, 0)
    ensures InRange(m.stacks) && Distinct(m.stacks) && LeastFree(m, 1) == 1
    ensures UseShown(process, m) && CountsShown(terms, m) && ChainsShown(pcbs, m.stacks)
  {
    assert !InUse(m, 1);
  }

  lemma EmptyTables(k: Tables, m: State)
    requires |k.pcbs| == PROCESS_NUM_MAX + 1 && forall s :: 0 <= s <= PROCESS_NUM_MAX ==> |k.pcbs[s].slot.fds| == FD_N
    requires m == State([[], [], []], 0, 0, SlotsOf(k.pcbs))
    requires k.process == [true, false, false, false, false, false, false]
    requires k.terms == [Terminal(0, false, 0), Terminal(0, false, 0), Terminal(0, false, 0)]
    ensures Describes(k, m) && LeastFree(m, 1) == 1
  {
    NoProcesses(k.process, k.pcbs, k.terms, m);
  }

  /** Starting a process raises its terminal's flag and changes no other terminal. */
  predicate FlagRaised(before: seq<Terminal>, after: seq<Terminal>, t: nat) {
    && |after| == |before| && t < |after| && after[t].flag
    && forall u :: 0 <= u < |after| && u != t ==> after[u] == before[u]
  }

  lemma Booted(pcbs: seq<Pcb>, call: Context, before: seq<Terminal>, after: seq<Terminal>)
    requires |pcbs| == PROCESS_NUM_MAX + 1 && forall s :: 0 <= s <= PROCESS_NUM_MAX ==> |pcbs[s].slot.fds| == FD_N
    requires before == [Terminal(0, false, 0), Terminal(0, false, 0), Terminal(0, false, 0)]
    requires FlagRaised(before, after, 0)
    ensures var r := Runs.Boot(SlotsOf(pcbs), call); Machine.Valid(r) && Runs.OnlyFirst(r) && FlagsShown(after, r)
  {
    Runs.BootValid(SlotsOf(pcbs), call);
  }

  /** The descriptor search of open. */
  method FindDescriptor(fds: seq<FileDesc>) returns (i: nat)
    requires |fds| == FD_N
    ensures i == LeastFreeFd(fds, 2)
  {
    i := 2;
    while i < FD_N && fds[i].inUse
      invariant 2 <= i <= FD_N && LeastFreeFd(fds, i) == LeastFreeFd(fds, 2)
    {
      i := i + 1;
    }
  }

  lemma PutAside(k: Tables, m: State, terminal: nat, saved: Context)
    requires Describes(k, m) && Machine.Valid(m) && terminal < TERMINAL_NUM
    ensures Describes(k.(pcbs := k.pcbs[Top(m) := k.pcbs[Top(m)].(slot := k.pcbs[Top(m)].slot.(saved := saved))]),
                      Save(m, saved).(displayed := terminal, running := terminal))
  {
    SlotLinks(k, m, Top(m), m.slots[Top(m)].(saved := saved));
  }

  lemma SpawnShown(m: State, terminal: nat, saved: Context, call: Context, before: seq<Terminal>, k: Tables,
    started: bool)
    requires Machine.Valid(m) && terminal < TERMINAL_NUM && m.stacks[terminal] == []
    requires var aside := Save(m, saved).(displayed := terminal, running := terminal);
      Describes(k, DoExecute(aside, SHELL, call)) && (started <==> LeastFree(aside, 1) <= PROCESS_NUM_MAX)
    requires |before| == TERMINAL_NUM && FlagsShown(before, m)
    requires if started then FlagRaised(before, k.terms, terminal) else k.terms == before
    ensures var r := Spawn(m, terminal, saved, call);
      && Machine.Valid(r) && Describes(k, r) && FlagsShown(k.terms, r) && r.displayed == terminal
      && if started then r == DoExecute(Save(m, saved).(displayed := terminal, running := terminal), SHELL, call)
         else r.running == m.running && Top(r) == Top(m)
  {
    SpawnPushes(m, terminal, saved, call);
  }

  lemma GapToFlagged(flags: seq<bool>, from: nat)
    requires |flags| == TERMINAL_NUM && from < TERMINAL_NUM && flags[0]
    ensures flags[Scheduler.Next(flags, from)]
    ensures forall d :: 1 <= d < Scheduler.GapFrom(flags, from, 1) ==> !flags[Scheduler.Ahead(TERMINAL_NUM, from, d)]
  {
    assert Scheduler.Ahead(TERMINAL_NUM, from, Scheduler.Distance(TERMINAL_NUM, from, 0)) == 0;
  }

  /** The tables after the timer handler has saved the context it interrupted. */
  lemma TickKeeps(k: Tables, m: State, saved: Context)
    requires Describes(k, m) && Machine.Valid(m) && (m.stacks[1] != [] || m.stacks[2] != [])
    ensures var s, r := Top(m), DoTick(m, saved);
      && Machine.Valid(r) && r.stacks == m.stacks && r.running == Scheduler.Next(Flags(m), m.running)
      && k.terms[m.running].processNum == s
      && Describes(k.(pcbs := k.pcbs[s := k.pcbs[s].(slot := k.pcbs[s].slot.(saved := saved))]), r)
      && k.terms[r.running].processNum == Top(r) && 1 <= Top(r) <= PROCESS_NUM_MAX
  {
    assert Flags(m)[m.running];
    SlotLinks(k, m, Top(m), m.slots[Top(m)].(saved := saved));
  }

  /** The closing loop of halt. */
  method CloseDescriptors(fds: seq<FileDesc>) returns (r: seq<FileDesc>)
    requires |fds| == FD_N
    ensures r == EndFds(fds)
  {
    r := fds;
    for i := 2 to FD_N
      invariant |r| == FD_N
      invariant forall k :: 0 <= k < FD_N ==> r[k] == if k < i then EndFds(fds)[k] else fds[k]
    {
      if r[i].inUse {
        r := CloseFds(r, i);
      }
    }
  }

  lemma ReplacedByShell(m: State, before: seq<Terminal>, call: Context, after: seq<Terminal>)
    requires Machine.Valid(m) && |m.stacks[m.running]| == 1 && |before| == |after| == TERMINAL_NUM
      && FlagsShown(before, m)
    requires Shape(Pop(m)) && LeastFree(Pop(m), 1) <= PROCESS_NUM_MAX
    requires forall t :: 0 <= t < TERMINAL_NUM && t != m.running ==> after[t].flag == before[t].flag
    requires after[m.running].flag
    ensures Machine.Valid(DoHalt(m, call)) && DoHalt(m, call) == DoExecute(Pop(m), SHELL, call)
    ensures FlagsShown(after, DoHalt(m, call))
  {
    PushShape(Pop(m), [], call);
  }

  lemma ExecuteShown(m: State, program: Option<seq<Byte>>, call: Context, before: seq<Terminal>, after: seq<Terminal>)
    requires Machine.Valid(m) && |before| == TERMINAL_NUM && FlagsShown(before, m)
      && FlagRaised(before, after, m.running)
    ensures Machine.Valid(DoExecute(m, program, call)) && FlagsShown(after, DoExecute(m, program, call))
  {
    if LeastFree(m, 1) <= PROCESS_NUM_MAX && program.Some? { PushShape(m, program.value, call); }
  }

  /** Only the program entry (and the 132 MB window, which is not modelled) of the directory ever changes. */
  predicate DirectoryKept(directory: seq<nat>, pageTable: nat) {
    && |directory| == Paging.NUM_ENTRIES
    && forall i :: 0 <= i < Paging.NUM_ENTRIES && i != Paging.PDE_INDEX && i != Paging.VIDMAP_INDEX
         ==> directory[i] == Paging.InitialDirectoryEntry(pageTable, i)
  }

  lemma ProgramMapped(directory: seq<nat>, pageTable: nat, n: nat)
    requires DirectoryKept(directory, pageTable) && n >= 1
    ensures DirectoryKept(directory[Paging.PDE_INDEX := Paging.ProgramEntry(n)], pageTable)
    ensures Paging.Maps(directory[Paging.PDE_INDEX := Paging.ProgramEntry(n)], pageTable, n)
  {
  }

  class Kernel {
    const pageTable: nat
    var process: seq<bool>
    var pcbs: seq<Pcb>
    var terms: seq<Terminal>
    var directory: seq<nat>
    var terminalNum: nat
    var terminalDisplayed: nat
    var currentProcess: nat
    var esp0: nat
    ghost var m: State

    function View(): Tables
      reads this
    {
      Tables(process, pcbs, terms)
    }

    /** The tables describe m; the processor's view may lag behind. */
    ghost predicate Linked()
      reads this
    {
      && Describes(View(), m) && terminalNum == m.running && terminalDisplayed == m.displayed
      && DirectoryKept(directory, pageTable)
    }

    /** Page directory and kernel stack pointer both belong to process s. */
    ghost predicate Owns(s: nat)
      reads this
    {
      1 <= s <= PROCESS_NUM_MAX && esp0 == Paging.KernelStack(s) && Paging.Maps(directory, pageTable, s)
    }

    ghost predicate Valid()
      reads this
    {
      Linked() && Machine.Valid(m) && FlagsShown(terms, m) && Owns(Top(m))
    }

    method FindSlot() returns (next: nat)
      requires Linked()
      ensures next == LeastFree(m, 1)
    {
      next := 1;
      while next <= PROCESS_NUM_MAX && process[next]
        invariant 1 <= next <= PROCESS_NUM_MAX + 1
        invariant LeastFree(m, next) == LeastFree(m, 1)
      {
        assert InUse(m, next);
        next := next + 1;
      }
    }

    /** The program page and the kernel stack become those of process s. */
    method GiveProcessor(s: nat)
      requires 1 <= s <= PROCESS_NUM_MAX && DirectoryKept(directory, pageTable)
      modifies this`directory, this`esp0
      ensures DirectoryKept(directory, pageTable) && Owns(s) && View() == old(View())
    {
      ProgramMapped(directory, pageTable, s);
      directory := directory[Paging.PDE_INDEX := Paging.ProgramEntry(s)];
      esp0 := Paging.KernelStack(s);
    }

    /** The control block, the slot flag and the terminal's entries of a new process. */
    method Record(next: nat, argument: seq<Byte>, call: Context)
      requires Sized(View()) && terminalNum < TERMINAL_NUM && currentProcess == terms[terminalNum].processNum
      requires next <= PROCESS_NUM_MAX && |pcbs[next].slot.fds| == FD_N
      modifies this`process, this`pcbs, this`terms
      ensures View() == PushTables(old(View()), terminalNum, next, argument, call)
    {
      process := process[next := true];
      var slot := pcbs[next].slot.(argument := argument, fds := StartFds(pcbs[next].slot.fds), call := call);
      pcbs := pcbs[next := Pcb(slot, currentProcess, next)];
      terms := terms[terminalNum := Terminal(next, true, terms[terminalNum].total + 1)];
    }

    /** From the paging step of execute on: process `next` starts on the running terminal. */
    method Start(next: nat, argument: seq<Byte>, call: Context)
      requires Linked() && next == LeastFree(m, 1) <= PROCESS_NUM_MAX && currentProcess == terms[terminalNum].processNum
      modifies this
      ensures Linked()
      ensures m == Push(old(m), argument, call)
      ensures m.stacks[m.running] != [] && Owns(Top(m))
      ensures terms == old(terms)[terminalNum := Terminal(next, true, old(terms)[terminalNum].total + 1)]
    {
      ghost var k := View();
      PushLinks(k, m, argument, call);
      Record(next, argument, call);
      GiveProcessor(next);
      m := Push(m, argument, call);
    }

    /** The global copy of the terminal's process number, which nothing in the invariant depends on. */
    method ReadCurrent()
      requires Linked()
      modifies this`currentProcess
      ensures currentProcess == terms[terminalNum].processNum && Linked()
      ensures Valid() == old(Valid())
    {
      currentProcess := terms[terminalNum].processNum;
    }

    /**
      execute, `program` being what the scan of its command line finds (Resolve): the slot search,
      and the start of the program, if there is a slot and a program. The result is what is returned
      right away; None when the program has been started.
    */
    method Execute(program: Option<seq<Byte>>, call: Context) returns (failed: Option<int>)
      requires Linked()
      modifies this
      ensures Linked()
      ensures m == DoExecute(old(m), program, call)
      ensures failed == if LeastFree(old(m), 1) > PROCESS_NUM_MAX then Some(0) else if program.None? then Some(-1)
        else None
      ensures failed.None? ==> m.stacks[m.running] != [] && Owns(Top(m)) && FlagRaised(old(terms), terms, terminalNum)
      ensures failed.Some? ==> esp0 == old(esp0) && directory == old(directory) && terms == old(terms)
      ensures old(Valid()) ==> Valid()
    {
      ghost var was, before, valid := m, terms, Valid();
      ReadCurrent();
      var next := FindSlot();
      if next > PROCESS_NUM_MAX {
        return Some(0);
      }
      if program.None? {
        return Some(-1);
      }
      Start(next, program.value, call);
      failed := None;
      if valid { ExecuteShown(was, program, call, before, terms); }
    }

    /** halt of a terminal's last process: the slot is freed and a shell takes over. */
    method ReplaceLast(call: Context)
      requires Valid()
      requires |m.stacks[m.running]| == 1 && currentProcess == Top(m)
      modifies this
      ensures Valid()
      ensures m == DoHalt(old(m), call)
    {
      ghost var was, before, k := m, terms, View();
      PopForShell(k, m);
      process := process[currentProcess := false];
      terms := terms[terminalNum := terms[terminalNum].(total := terms[terminalNum].total - 1, processNum := 0)];
      m := Pop(was);
      assert View() == Tables(k.process[Top(was) := false], k.pcbs,
                              k.terms[was.running := k.terms[was.running].(total := 0, processNum := 0)]);
      var failed := Execute(SHELL, call);
      ReplacedByShell(was, before, call, terms);
    }

    /** halt of any other process: back to the parent, with its page and its kernel stack. */
    method ReturnToParent()
      requires Valid() && |m.stacks[m.running]| > 1 && currentProcess == Top(m)
      modifies this
      ensures Valid()
      ensures m == DoHalt(old(m), old(m).slots[Top(old(m))].call)
    {
      var self := Paging.PcbOf(esp0);
      Paging.StackFindsPcb(currentProcess, currentProcess);
      var parent := pcbs[self].prev;
      ghost var k, was := View(), m;
      ReturnLinks(k, m);
      process := process[currentProcess := false];
      terms := terms[terminalNum := terms[terminalNum].(total := terms[terminalNum].total - 1, processNum := parent)];
      var fds := CloseDescriptors(pcbs[self].slot.fds);
      pcbs := pcbs[self := pcbs[self].(slot := pcbs[self].slot.(fds := fds))];
      GiveProcessor(parent);
      m := DoHalt(m, m.slots[Top(m)].call);
      assert View() == ReturnTables(k, was.running, Top(was));
    }

    /** The control block the system calls find from the kernel stack pointer is the running process's own. */
    function Self(): (self: nat)
      requires Valid()
      reads this
      ensures self == Top(m) && 1 <= self < |pcbs| && pcbs[self].slot == m.slots[self]
    {
      Paging.StackFindsPcb(Top(m), Top(m));
      Paging.PcbOf(esp0)
    }

    /** halt. The context is the one the final jump resumes; a terminal's last process is not resumed. */
    method Halt(call: Context) returns (resumed: Option<Context>)
      requires Valid()
      modifies this
      ensures Valid()
      ensures m == DoHalt(old(m), call)
      ensures resumed == if |old(m).stacks[old(m).running]| == 1 then None else Some(Runs.HaltResumes(old(m)))
    {
      currentProcess := terms[terminalNum].processNum;
      assert terms[terminalNum].total == |m.stacks[m.running]|;
      if terms[terminalNum].total - 1 == 0 {
        ReplaceLast(call);
        resumed := None;
      } else {
        resumed := Some(pcbs[Self()].slot.call);
        ReturnToParent();
      }
    }

    /** The search loop of the timer handler. */
    method Rotate()
      requires Sized(View()) && |m.stacks| == TERMINAL_NUM && FlagsShown(terms, m)
      requires terminalNum < TERMINAL_NUM && terms[0].flag
      modifies this`terminalNum
      ensures terminalNum == Scheduler.Next(Flags(m), old(terminalNum))
    {
      ghost var flags, from := Flags(m), terminalNum;
      ghost var gap := Scheduler.GapFrom(flags, from, 1);
      ghost var d := 1;
      GapToFlagged(flags, from);
      terminalNum := (terminalNum + 1) % 3;
      while !terms[terminalNum].flag
        modifies this`terminalNum
        invariant 1 <= d <= gap && terminalNum == Scheduler.Ahead(3, from, d)
        decreases gap - d
      {
        terminalNum := (terminalNum + 1) % 3;
        d := d + 1;
      }
    }

    /** pit_handler. The context is the one restored; with one terminal in use there is no switch. */
    method PitHandler(saved: Context) returns (resumed: Option<Context>)
      requires Valid()
      modifies this
      ensures Valid()
      ensures m == DoTick(old(m), saved)
      ensures resumed == if old(m).stacks[1] == [] && old(m).stacks[2] == [] then None else Some(m.slots[Top(m)].saved)
    {
      if !terms[1].flag && !terms[2].flag {
        return None;
      }
      ghost var k := View();
      TickKeeps(k, m, saved);
      Rotate();
      var next := terms[terminalNum].processNum;
      ProgramMapped(directory, pageTable, next);
      directory := directory[Paging.PDE_INDEX := Paging.ProgramEntry(next)];
      var self := Paging.PcbOf(esp0);
      Paging.StackFindsPcb(k.terms[m.running].processNum, k.terms[m.running].processNum);
      pcbs := pcbs[self := pcbs[self].(slot := pcbs[self].slot.(saved := saved))];
      esp0 := Paging.KernelStack(next);
      Paging.StackFindsPcb(next, next);
      resumed := Some(pcbs[Paging.PcbOf(esp0)].slot.saved);
      m := DoTick(m, saved);
    }

    /** The part of switch_terminal that starts a shell. */
    method SpawnShell(terminal: nat, saved: Context, call: Context)
      requires Machine.Valid(m) && Describes(View(), m) && FlagsShown(terms, m) && Owns(Top(m))
        && terminalNum == m.running
      requires DirectoryKept(directory, pageTable) && terminal < TERMINAL_NUM && m.stacks[terminal] == []
        && terminalDisplayed == terminal
      modifies this
      ensures Valid()
      ensures m == Spawn(old(m), terminal, saved, call)
    {
      ghost var was, k, before := m, View(), terms;
      PutAside(k, was, terminal, saved);
      var self := Paging.PcbOf(esp0);
      Paging.StackFindsPcb(Top(m), Top(m));
      pcbs := pcbs[self := pcbs[self].(slot := pcbs[self].slot.(saved := saved))];
      var previous := terminalNum;
      terminalNum := terminal;
      m := Save(was, saved).(displayed := terminal, running := terminal);
      ghost var pcb := k.pcbs[Top(was)];
      assert View() == k.(pcbs := k.pcbs[Top(was) := pcb.(slot := pcb.slot.(saved := saved))]);
      var failed := Execute(SHELL, call);
      if failed.Some? {
        terminalNum := previous;
      }
      SpawnShown(was, terminal, saved, call, before, View(), failed.None?);
      m := Spawn(was, terminal, saved, call);
    }

    /**
      Alt+F1 to Alt+F3 (keyboard_handler) and switch_terminal, the screen memory aside. A terminal
      without a process gets a shell and the processor; if no slot is free, everything but the display
      stays as it was.
    */
    method SwitchTerminal(terminal: nat, saved: Context, call: Context)
      requires Valid() && terminal < TERMINAL_NUM
      modifies this
      ensures Valid()
      ensures m == DoSwitch(old(m), terminal, saved, call) && terminalDisplayed == terminal
      ensures old(m).stacks[terminal] != [] ==>
        View() == old(View()) && directory == old(directory) && esp0 == old(esp0) && terminalNum == old(terminalNum)
    {
      if terminalDisplayed == terminal {
        return;
      }
      terminalDisplayed := terminal;
      if terminal != 0 && !terms[terminal].flag {
        SpawnShell(terminal, saved, call);
      } else {
        m := m.(displayed := terminal);
      }
    }

    method SetDescriptors(fds: seq<FileDesc>)
      requires Valid() && |fds| == FD_N
      modifies this
      ensures Valid() && m == WithFds(old(m), fds)
    {
      var self := Self();
      SlotLinks(View(), m, self, m.slots[self].(fds := fds));
      pcbs := pcbs[self := pcbs[self].(slot := pcbs[self].slot.(fds := fds))];
      m := WithFds(m, fds);
    }

    /** open, `entry` being what read_dentry_by_name finds. */
    method Open(entry: Option<Dentry>) returns (fd: int)
      requires Valid()
      modifies this
      ensures Valid()
      ensures m == WithFds(old(m), OpenFds(Fds(old(m)), entry)) && fd == OpenResult(Fds(old(m)), entry)
    {
      var self := Self();
      var fds := pcbs[self].slot.fds;
      fd := FindDescriptor(fds);
      if entry.None? || fd == FD_N {
        fd := -1;
      } else {
        var d := entry.value;
        fds := fds[fd := FileDesc(d.fileType, if d.fileType == FILE_TYPE_FILE then d.inodeNum else 0, 0, true)];
      }
      SetDescriptors(fds);
    }

    method Close(fd: int) returns (r: int)
      requires Valid()
      modifies this
      ensures Valid()
      ensures m == WithFds(old(m), CloseFds(Fds(old(m)), fd)) && r == CloseResult(Fds(old(m)), fd)
    {
      var self := Self();
      var fds := pcbs[self].slot.fds;
      if fd <= 1 || fd >= FD_N || !fds[fd].inUse {
        r := -1;
      } else {
        fds := fds[fd := fds[fd].(inUse := false)];
        r := 0;
      }
      SetDescriptors(fds);
    }

    /**
      The kernel as its boot code leaves it (page_init, init_syscall and the first execute), the
      memory of the control blocks being whatever it was.
    */
    constructor Boot(pageTable: nat, pcbs: seq<Pcb>, call: Context)
      requires |pcbs| == PROCESS_NUM_MAX + 1 && forall s :: 0 <= s <= PROCESS_NUM_MAX ==> |pcbs[s].slot.fds| == FD_N
      ensures Valid() && m == Runs.Boot(SlotsOf(pcbs), call)
    {
      this.pageTable := pageTable;
      this.pcbs := pcbs;
      process := [true, false, false, false, false, false, false];
      terms := [Terminal(0, false, 0), Terminal(0, false, 0), Terminal(0, false, 0)];
      directory := seq(Paging.NUM_ENTRIES, i requires 0 <= i => Paging.InitialDirectoryEntry(pageTable, i));
      terminalNum, terminalDisplayed, currentProcess, esp0 := 0, 0, 0, Paging.EIGHT_MB;
      m := State([[], [], []], 0, 0, SlotsOf(pcbs));
      new;
      EmptyTables(View(), m);
      ghost var before := terms;
      var failed := Execute(SHELL, call);
      Booted(pcbs, call, before, terms);
    }
  }

  /** The shell the kernel starts by itself is a program without an argument. */
  lemma ShellProgram(img: Image, header: seq<Byte>)
    requires WellFormed(img) && |header| == |Command.MAGIC| && Command.Accepted(img, Command.SHELL, header)
    ensures Program(img, Command.SHELL, header) == SHELL && Command.StaysInBuffers(Command.SHELL)
  {
    Command.ShellIsWord();
  }
}
