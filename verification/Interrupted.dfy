/**
  The process kernel of the other modules takes every kernel entry as one atomic step. System calls
  enter with interrupts on, so the timer can put an execute or a halt aside between two statements, and
  other terminals' programs then enter the kernel before it goes on. This is what becomes of it: halt
  (syscall.c) statement by statement, and execute up to its cli.
*/
module Interrupted {
  import opened Common
  import opened Bytes
  import opened Machine
  import opened ProcessTables
  import opened ProcessLinks
  import Scheduler

  /**
    The tables, the running terminal, the processes whose page is mapped and whose stack esp0 points to,
    and the global current_process_num.
  */
  datatype Cpu = Cpu(k: Tables, terminal: nat, page: nat, stack: nat, current: nat)

  /** Every number is a slot's or a terminal's. */
  predicate Wired(c: Cpu) {
    && Sized(c.k) && c.terminal < TERMINAL_NUM && c.stack <= PROCESS_NUM_MAX && c.current <= PROCESS_NUM_MAX
    && (forall t :: 0 <= t < TERMINAL_NUM ==> c.k.terms[t].processNum <= PROCESS_NUM_MAX)
    && forall s :: 0 <= s <= PROCESS_NUM_MAX ==> c.k.pcbs[s].prev <= PROCESS_NUM_MAX && |c.k.pcbs[s].slot.fds| == FD_N
  }

  // ---- the entries, as the code has them ----

  /**
    Preempt: the timer interrupts context `here`. Start: an execute of the running terminal's program, as
    a whole. Exit: a halt of it, as a whole.
  */
  datatype Entry = Preempt(here: Context) | Start(program: Option<seq<Byte>>, call: Context) | Exit(call: Context)

  function Raised(terms: seq<Terminal>): (flags: seq<bool>)
    ensures |flags| == |terms| && forall t :: 0 <= t < |terms| ==> flags[t] == terms[t].flag
  {
    seq(|terms|, t requires 0 <= t < |terms| => terms[t].flag)
  }

  /** pit_handler when it switches: `here` is saved through esp0, and another terminal's process takes over. */
  function Preempted(c: Cpu, here: Context): (r: Cpu)
    requires Wired(c)
    ensures Wired(r)
  {
    var next := Scheduler.Next(Raised(c.k.terms), c.terminal);
    var top := c.k.terms[next].processNum;
    var pcb := c.k.pcbs[c.stack];
    Cpu(c.k.(pcbs := c.k.pcbs[c.stack := pcb.(slot := pcb.slot.(saved := here))]), next, top, top, c.current)
  }

  function FirstFree(process: seq<bool>, s: nat): (r: nat)
    requires |process| == PROCESS_NUM_MAX + 1 && s <= PROCESS_NUM_MAX + 1
    ensures s <= r <= PROCESS_NUM_MAX + 1 && (r <= PROCESS_NUM_MAX ==> !process[r])
    ensures forall k :: s <= k < r ==> process[k]
    decreases PROCESS_NUM_MAX + 1 - s
  {
    if s == PROCESS_NUM_MAX + 1 || !process[s] then s else FirstFree(process, s + 1)
  }

  /** The control block of the process that is entered into slot s: its parent is current_process_num. */
  function NewPcb(c: Cpu, s: nat, argument: seq<Byte>, call: Context): Pcb
    requires Wired(c) && s <= PROCESS_NUM_MAX
  {
    var slot := c.k.pcbs[s].slot;
    Pcb(slot.(fds := StartFds(slot.fds), call := call, argument := argument), c.current, s)
  }

  /** execute from its cli on, with the slot it has found. */
  function Enter(c: Cpu, s: nat, argument: seq<Byte>, call: Context): (r: Cpu)
    requires Wired(c) && s <= PROCESS_NUM_MAX
    ensures Wired(r)
  {
    Cpu(Pushed(c.k, c.terminal, s, NewPcb(c, s, argument, call), true), c.terminal, s, s, c.current)
  }

  /** execute: current_process_num is set before anything is checked. */
  function Started(c: Cpu, program: Option<seq<Byte>>, call: Context): (r: Cpu)
    requires Wired(c)
    ensures Wired(r)
  {
    var b := c.(current := c.k.terms[c.terminal].processNum);
    var s := FirstFree(c.k.process, 1);
    if s <= PROCESS_NUM_MAX && program.Some? then Enter(b, s, program.value, call) else b
  }

  function Closed(p: Pcb): Pcb { p.(slot := p.slot.(fds := EndFds(p.slot.fds))) }

  /**
    Statement i of a halt that returns to the parent: 1 sets current_process_num, 2 frees that slot, 3
    counts total_process down, 4 makes the parent the terminal's process, 5 maps the parent's page, 6
    closes the files, 7 sets the kernel stack.
  */
  function Statement(c: Cpu, i: nat): (r: Cpu)
    requires Wired(c)
    ensures Wired(r) && r.terminal == c.terminal
  {
    var t, self := c.k.terms[c.terminal], c.k.pcbs[c.stack];
    if i == 1 then c.(current := t.processNum)
    else if i == 2 then c.(k := c.k.(process := c.k.process[c.current := false]))
    else if i == 3 && t.total > 0 then c.(k := c.k.(terms := c.k.terms[c.terminal := t.(total := t.total - 1)]))
    else if i == 4 then c.(k := c.k.(terms := c.k.terms[c.terminal := t.(processNum := self.prev)]))
    else if i == 5 then c.(page := t.processNum)
    else if i == 6 then c.(k := c.k.(pcbs := c.k.pcbs[c.stack := Closed(self)]))
    else if i == 7 then c.(stack := self.prev)
    else c
  }

  /** The state after the first p statements. */
  function Halted(c: Cpu, p: nat): (r: Cpu)
    requires Wired(c)
    ensures Wired(r) && r.terminal == c.terminal
  {
    if p == 0 then c else Statement(Halted(c, p - 1), p)
  }

  /** The state after the statements behind the first p. */
  function Finished(c: Cpu, p: nat): (r: Cpu)
    requires Wired(c)
    ensures Wired(r)
    decreases 7 - p
  {
    if p >= 7 then c else Finished(Statement(c, p + 1), p + 1)
  }

  /** A terminal's last process, freed, before execute starts the shell. */
  function Emptied(c: Cpu): (r: Cpu)
    requires Wired(c)
    ensures Wired(r)
  {
    var t := c.k.terms[c.terminal];
    c.(k := Tables(c.k.process[t.processNum := false], c.k.pcbs, c.k.terms[c.terminal := Terminal(0, t.flag, 0)]),
       current := t.processNum)
  }

  function Exited(c: Cpu, call: Context): (r: Cpu)
    requires Wired(c)
    ensures Wired(r)
  {
    if c.k.terms[c.terminal].total <= 1 then Started(Emptied(c), SHELL, call) else Halted(c, 7)
  }

  function After(c: Cpu, e: Entry): (r: Cpu)
    requires Wired(c)
    ensures Wired(r)
  {
    match e
    case Preempt(here) => Preempted(c, here)
    case Start(program, call) => Started(c, program, call)
    case Exit(call) => Exited(c, call)
  }

  /** The slot in which an entry starts a process; 0 if it starts none. */
  function StartedSlot(c: Cpu, e: Entry): (s: nat)
    requires Wired(c)
    ensures s <= PROCESS_NUM_MAX
  {
    var process := if e.Exit? then Emptied(c).k.process else c.k.process;
    if e.Preempt? || (e.Start? && e.program.None?) || (e.Exit? && c.k.terms[c.terminal].total > 1) then 0
    else if FirstFree(process, 1) > PROCESS_NUM_MAX then 0 else FirstFree(process, 1)
  }

  function CallOf(e: Entry): Context {
    match e
    case Preempt(here) => here
    case Start(_, call) => call
    case Exit(call) => call
  }
}
