/** What entries of other terminals do to an interrupted execute or halt: exactly when it ends as it should. */
module Interruptions {
  import opened Common
  import opened Bytes
  import opened Machine
  import opened ProcessTables
  import opened ProcessLinks
  import opened Interrupted
  import Scheduler

  // ---- one entry on sound tables ----

  lemma PreemptStep(c: Cpu, here: Context, stacks: seq<seq<nat>>)
    requires Wired(c) && Links(c.k, stacks) && FlagsShown(c.k.terms, Of(stacks)) && stacks[c.terminal] != []
    ensures var r := Preempted(c, here);
      && Links(r.k, stacks) && r.k.terms == c.k.terms && r.current == c.current
      && stacks[r.terminal] != [] && r.stack == r.page == stacks[r.terminal][0]
  {
    var pcb := c.k.pcbs[c.stack];
    LinksWrite(c.k, stacks, c.stack, pcb.(slot := pcb.slot.(saved := here)));
    var flags := Raised(c.k.terms);
    assert flags[c.terminal] && flags[Scheduler.Next(flags, c.terminal)];
  }

  /** The stacks after execute, s being the slot it takes; 0 if it takes none. */
  function StartedStacks(stacks: seq<seq<nat>>, u: nat, s: nat): seq<seq<nat>>
    requires u < |stacks|
  {
    if s == 0 then stacks else stacks[u := [s] + stacks[u]]
  }

  lemma StartStep(c: Cpu, program: Option<seq<Byte>>, call: Context, stacks: seq<seq<nat>>)
    requires Wired(c) && Links(c.k, stacks)
    ensures var r, s := Started(c, program, call), StartedSlot(c, Start(program, call));
      && Links(r.k, StartedStacks(stacks, c.terminal, s)) && r.current == TopOf(stacks[c.terminal])
      && (s == 0 ==> r.k == c.k && r.stack == c.stack)
      && (s != 0 ==> r.stack == s && !On(stacks, s))
  {
    var b, s := c.(current := c.k.terms[c.terminal].processNum), StartedSlot(c, Start(program, call));
    if s != 0 { LinksPush(c.k, stacks, c.terminal, s, NewPcb(b, s, program.value, call), true); }
  }

  lemma HaltedHalf(c: Cpu)
    requires Wired(c) && c.k.terms[c.terminal].total > 0
    ensures var t := c.k.terms[c.terminal];
      Halted(c, 3) == c.(k := Tables(c.k.process[t.processNum := false], c.k.pcbs,
                                     c.k.terms[c.terminal := t.(total := t.total - 1)]),
                         current := t.processNum)
  {
    var t := c.k.terms[c.terminal];
    var one := c.(current := t.processNum);
    assert Halted(c, 1) == one;
    assert Halted(c, 2) == one.(k := one.k.(process := c.k.process[t.processNum := false]));
  }

  lemma FinishedStep(c: Cpu, p: nat)
    requires Wired(c) && p < 7
    ensures Finished(c, p) == Finished(Statement(c, p + 1), p + 1)
  {
  }

  lemma FinishedFrom7(c: Cpu)
    requires Wired(c)
    ensures Finished(c, 6) == c.(stack := c.k.pcbs[c.stack].prev)
  {
    FinishedStep(c, 6);
  }

  lemma FinishedFrom6(c: Cpu)
    requires Wired(c)
    ensures var self := c.k.pcbs[c.stack];
      Finished(c, 5) == c.(k := c.k.(pcbs := c.k.pcbs[c.stack := Closed(self)]), stack := self.prev)
  {
    FinishedStep(c, 5);
    FinishedFrom7(Statement(c, 6));
  }

  lemma FinishedFrom5(c: Cpu)
    requires Wired(c)
    ensures var self := c.k.pcbs[c.stack];
      Finished(c, 4) == c.(k := c.k.(pcbs := c.k.pcbs[c.stack := Closed(self)]),
                           page := c.k.terms[c.terminal].processNum, stack := self.prev)
  {
    FinishedStep(c, 4);
    FinishedFrom6(Statement(c, 5));
  }

  /** The statements from 4 on, self being the process whose stack esp0 points to. */
  lemma FinishedFrom4(c: Cpu)
    requires Wired(c)
    ensures var t, self := c.k.terms[c.terminal], c.k.pcbs[c.stack];
      Finished(c, 3) == Cpu(Tables(c.k.process, c.k.pcbs[c.stack := Closed(self)],
                                   c.k.terms[c.terminal := Terminal(self.prev, t.flag, t.total)]),
                            c.terminal, self.prev, self.prev, c.current)
  {
    FinishedStep(c, 3);
    FinishedFrom5(Statement(c, 4));
  }

  lemma {:induction false} HaltedFinished(c: Cpu, p: nat)
    requires Wired(c) && p <= 7
    ensures Finished(Halted(c, p), p) == Halted(c, 7)
    decreases 7 - p
  {
    if p < 7 { HaltedFinished(c, p + 1); }
  }

  /** All seven statements of halt, whoever `stack` belongs to. */
  lemma HaltedAll(c: Cpu)
    requires Wired(c) && c.k.terms[c.terminal].total > 0
    ensures var t, self := c.k.terms[c.terminal], c.k.pcbs[c.stack];
      Halted(c, 7) == Cpu(Tables(c.k.process[t.processNum := false], c.k.pcbs[c.stack := Closed(self)],
                                 c.k.terms[c.terminal := Terminal(self.prev, t.flag, t.total - 1)]),
                          c.terminal, self.prev, self.prev, t.processNum)
  {
    HaltedHalf(c);
    FinishedFrom4(Halted(c, 3));
    HaltedFinished(c, 3);
  }

  lemma ReturnStep(c: Cpu, stacks: seq<seq<nat>>)
    requires Wired(c) && Links(c.k, stacks) && |stacks[c.terminal]| > 1 && c.stack == stacks[c.terminal][0]
    ensures var r := Halted(c, 7);
      && Links(r.k, stacks[c.terminal := stacks[c.terminal][1..]]) && r.stack == r.page == stacks[c.terminal][1]
      && r.current == stacks[c.terminal][0] && r.k.pcbs == c.k.pcbs[c.stack := Closed(c.k.pcbs[c.stack])]
      && r.k.terms == c.k.terms[c.terminal := Terminal(r.stack, c.k.terms[c.terminal].flag,
        c.k.terms[c.terminal].total - 1)]
  {
    HaltedAll(c);
    PopExactly(c.k, stacks, c.terminal, c.stack);
    var popped := stacks[c.terminal := stacks[c.terminal][1..]];
    LinksWrite(Popped(c.k, c.terminal, c.stack), popped, c.stack, Closed(c.k.pcbs[c.stack]));
    assert Chained(c.k.pcbs, stacks[c.terminal]);
    assert Below(stacks[c.terminal], 0) == stacks[c.terminal][1];
  }

  lemma EmptyStep(c: Cpu, stacks: seq<seq<nat>>)
    requires Wired(c) && Links(c.k, stacks) && |stacks[c.terminal]| == 1
    ensures Links(Emptied(c).k, stacks[c.terminal := []]) && Emptied(c).current == stacks[c.terminal][0]
  {
    var s := stacks[c.terminal][0];
    PopExactly(c.k, stacks, c.terminal, s);
    assert Chained(c.k.pcbs, stacks[c.terminal]);
    assert Below(stacks[c.terminal], 0) == 0 && stacks[c.terminal][1..] == [];
  }

  lemma StartedParts(c: Cpu, program: Option<seq<Byte>>, call: Context)
    requires Wired(c) && StartedSlot(c, Start(program, call)) != 0
    ensures var r, s, u := Started(c, program, call), StartedSlot(c, Start(program, call)), c.terminal;
      && r.stack == s && r.current == c.k.terms[u].processNum && r.k.pcbs == c.k.pcbs[s := r.k.pcbs[s]]
      && r.k.terms == c.k.terms[u := Terminal(s, true, c.k.terms[u].total + 1)]
      && r.k.pcbs[s].prev == c.k.terms[u].processNum && r.k.pcbs[s].slot.call == call
      && r.k.pcbs[s].slot.saved == c.k.pcbs[s].slot.saved
  {
  }

  lemma ShellFits(process: seq<bool>, s: nat)
    requires |process| == PROCESS_NUM_MAX + 1 && 1 <= s <= PROCESS_NUM_MAX && !process[s]
    ensures FirstFree(process, 1) <= s
  {
  }

  lemma LastLinks(c: Cpu, call: Context, stacks: seq<seq<nat>>)
    requires Wired(c) && Links(c.k, stacks) && |stacks[c.terminal]| == 1
    ensures var s := StartedSlot(c, Exit(call));
      s != 0 && s == StartedSlot(Emptied(c), Start(SHELL, call)) && Exited(c, call) == Started(Emptied(c), SHELL, call)
    ensures var s := StartedSlot(c, Exit(call));
      Links(Exited(c, call).k, stacks[c.terminal := [s]]) && !On(stacks[c.terminal := []], s)
  {
    EmptyStep(c, stacks);
    ShellFits(Emptied(c).k.process, stacks[c.terminal][0]);
    StartStep(Emptied(c), SHELL, call, stacks[c.terminal := []]);
    var s := StartedSlot(c, Exit(call));
    assert [s] + [] == [s] && stacks[c.terminal := []][c.terminal := [s]] == stacks[c.terminal := [s]];
  }

  lemma LastStep(c: Cpu, call: Context, stacks: seq<seq<nat>>)
    requires Wired(c) && Links(c.k, stacks) && |stacks[c.terminal]| == 1
    ensures var r, s := Exited(c, call), StartedSlot(c, Exit(call));
      && s != 0 && Links(r.k, stacks[c.terminal := [s]]) && !On(stacks[c.terminal := []], s)
      && r.stack == s && r.current == 0
      && r.k.pcbs == c.k.pcbs[s := r.k.pcbs[s]] && r.k.terms == c.k.terms[c.terminal := Terminal(s, true, 1)]
      && r.k.pcbs[s].prev == 0 && r.k.pcbs[s].slot.call == call
  {
    LastLinks(c, call, stacks);
    StartedParts(Emptied(c), SHELL, call);
  }

  // ---- what an entry of another terminal leaves alone ----

  /** esp0 points to the stack of the running terminal's top process. */
  predicate Placed(c: Cpu, stacks: seq<seq<nat>>)
    requires |stacks| == TERMINAL_NUM && c.terminal < TERMINAL_NUM
  {
    stacks[c.terminal] != [] && c.stack == stacks[c.terminal][0]
  }

  /** Slot x is on no stack but, perhaps, terminal t's. */
  predicate OnlyHere(stacks: seq<seq<nat>>, t: nat, x: nat) {
    forall u :: 0 <= u < |stacks| && u != t ==> x !in stacks[u]
  }

  /** From c to r terminal t, which does not run, is left alone, and current_process_num is no process of its. */
  predicate Outside(c: Cpu, e: Entry, r: Cpu, t: nat, theirs: seq<nat>)
    requires Wired(c) && Wired(r) && t < TERMINAL_NUM
  {
    r.k.terms[t] == c.k.terms[t] && if e.Preempt? then r.current == c.current else r.current !in theirs
  }

  /** Slot x keeps its record of parent and caller, or a process is started in it, whose parent is a stranger to t. */
  predicate Recorded(c: Cpu, e: Entry, r: Cpu, theirs: seq<nat>, x: nat)
    requires Wired(c) && Wired(r) && x <= PROCESS_NUM_MAX
  {
    var was, now := c.k.pcbs[x], r.k.pcbs[x];
    if StartedSlot(c, e) == x then now.prev !in theirs && now.slot.call == CallOf(e)
    else now.prev == was.prev && now.slot.call == was.slot.call
  }

  function SavedIn(p: Pcb, here: Context): Pcb { p.(slot := p.slot.(saved := here)) }

  /** Slot x keeps everything but what a tick saves. */
  predicate Untouched(c: Cpu, e: Entry, r: Cpu, x: nat)
    requires Wired(c) && Wired(r) && x <= PROCESS_NUM_MAX
  {
    r.k.pcbs[x] == if e.Preempt? && c.stack == x then SavedIn(c.k.pcbs[x], e.here) else c.k.pcbs[x]
  }

  /** The stacks after an entry. */
  function StepStacks(c: Cpu, e: Entry, stacks: seq<seq<nat>>): seq<seq<nat>>
    requires Wired(c) && |stacks| == TERMINAL_NUM && stacks[c.terminal] != []
  {
    var u := c.terminal;
    match e
    case Preempt(_) => stacks
    case Start(_, _) => StartedStacks(stacks, u, StartedSlot(c, e))
    case Exit(_) => if |stacks[u]| == 1 then stacks[u := [StartedSlot(c, e)]] else stacks[u := stacks[u][1..]]
  }

  /** What every entry keeps. */
  predicate Running(c: Cpu, stacks: seq<seq<nat>>) {
    Wired(c) && Links(c.k, stacks) && FlagsShown(c.k.terms, Of(stacks)) && stacks[c.terminal] != []
  }

  /** No process of one terminal is on another's stack, and neither is 0. */
  lemma TopElsewhere(stacks: seq<seq<nat>>, u: nat, t: nat)
    requires InRange(stacks) && Distinct(stacks) && u < |stacks| && t < |stacks| && stacks[u] != []
    ensures 0 !in stacks[t] && (u != t ==> stacks[u][0] !in stacks[t])
  {
  }

  lemma ExitRuns(c: Cpu, call: Context, stacks: seq<seq<nat>>)
    requires Running(c, stacks) && Placed(c, stacks)
    ensures var r, after := After(c, Exit(call)), StepStacks(c, Exit(call), stacks);
      Running(r, after) && Placed(r, after)
  {
    if |stacks[c.terminal]| == 1 { LastStep(c, call, stacks); } else { ReturnStep(c, stacks); }
  }

  lemma StepRuns(c: Cpu, e: Entry, stacks: seq<seq<nat>>)
    requires Running(c, stacks) && (e.Preempt? || Placed(c, stacks))
    ensures Running(After(c, e), StepStacks(c, e, stacks)) && Placed(After(c, e), StepStacks(c, e, stacks))
  {
    match e
    case Preempt(here) => PreemptStep(c, here, stacks);
    case Start(program, call) =>
      StartStep(c, program, call, stacks);
      if StartedSlot(c, e) != 0 { StartedParts(c, program, call); }
    case Exit(call) => ExitRuns(c, call, stacks);
  }

  /** What an entry leaves alone of terminal t and of slot x. */
  predicate Spares(c: Cpu, e: Entry, stacks: seq<seq<nat>>, t: nat, x: nat)
    requires Running(c, stacks) && t < TERMINAL_NUM && x <= PROCESS_NUM_MAX
  {
    && Outside(c, e, After(c, e), t, stacks[t]) && StepStacks(c, e, stacks)[t] == stacks[t]
    && Recorded(c, e, After(c, e), stacks[t], x)
    && (StartedSlot(c, e) != x && OnlyHere(stacks, t, x) ==>
          Untouched(c, e, After(c, e), x) && OnlyHere(StepStacks(c, e, stacks), t, x))
  }

  lemma NoStart(c: Cpu, program: Option<seq<Byte>>, call: Context)
    requires Wired(c) && StartedSlot(c, Start(program, call)) == 0
    ensures After(c, Start(program, call)) == c.(current := c.k.terms[c.terminal].processNum)
  {
  }

  lemma NoStartSpares(c: Cpu, program: Option<seq<Byte>>, call: Context, stacks: seq<seq<nat>>, t: nat, x: nat)
    requires Running(c, stacks) && t < TERMINAL_NUM && 1 <= x <= PROCESS_NUM_MAX && c.terminal != t
    requires StartedSlot(c, Start(program, call)) == 0
    ensures Spares(c, Start(program, call), stacks, t, x)
  {
    TopElsewhere(stacks, c.terminal, t);
    NoStart(c, program, call);
    assert c.k.terms[c.terminal].processNum == stacks[c.terminal][0];
  }

  lemma StartSpares(c: Cpu, program: Option<seq<Byte>>, call: Context, stacks: seq<seq<nat>>, t: nat, x: nat)
    requires Running(c, stacks) && t < TERMINAL_NUM && 1 <= x <= PROCESS_NUM_MAX && c.terminal != t
    requires StartedSlot(c, Start(program, call)) != 0
    ensures Spares(c, Start(program, call), stacks, t, x)
  {
    TopElsewhere(stacks, c.terminal, t);
    StartedParts(c, program, call);
  }

  lemma LastSlots(c: Cpu, call: Context, stacks: seq<seq<nat>>, t: nat, x: nat)
    requires Running(c, stacks) && t < TERMINAL_NUM && 1 <= x <= PROCESS_NUM_MAX && c.terminal != t
    requires |stacks[c.terminal]| == 1
    requires var r, s := Exited(c, call), StartedSlot(c, Exit(call));
      s != 0 && r.k.pcbs == c.k.pcbs[s := r.k.pcbs[s]] && r.k.pcbs[s].prev == 0 && r.k.pcbs[s].slot.call == call
    ensures 0 !in stacks[t] && Recorded(c, Exit(call), Exited(c, call), stacks[t], x)
    ensures StartedSlot(c, Exit(call)) != x ==> Untouched(c, Exit(call), Exited(c, call), x)
  {
    TopElsewhere(stacks, c.terminal, t);
  }

  lemma LastSpares(c: Cpu, call: Context, stacks: seq<seq<nat>>, t: nat, x: nat)
    requires Running(c, stacks) && t < TERMINAL_NUM && 1 <= x <= PROCESS_NUM_MAX && c.terminal != t
    requires |stacks[c.terminal]| == 1
    ensures Spares(c, Exit(call), stacks, t, x)
  {
    LastStep(c, call, stacks);
    LastSlots(c, call, stacks, t, x);
    assert After(c, Exit(call)) == Exited(c, call);
  }

  lemma ReturnSpares(c: Cpu, call: Context, stacks: seq<seq<nat>>, t: nat, x: nat)
    requires Running(c, stacks) && t < TERMINAL_NUM && 1 <= x <= PROCESS_NUM_MAX && c.terminal != t
    requires |stacks[c.terminal]| > 1 && Placed(c, stacks)
    ensures Spares(c, Exit(call), stacks, t, x)
  {
    TopElsewhere(stacks, c.terminal, t);
    ReturnStep(c, stacks);
  }

  lemma StepSpares(c: Cpu, e: Entry, stacks: seq<seq<nat>>, t: nat, x: nat)
    requires Running(c, stacks) && t < TERMINAL_NUM && 1 <= x <= PROCESS_NUM_MAX
    requires e.Preempt? || (c.terminal != t && Placed(c, stacks))
    ensures Spares(c, e, stacks, t, x)
  {
    match e
    case Preempt(here) =>
    case Start(program, call) =>
      if StartedSlot(c, e) == 0 { NoStartSpares(c, program, call, stacks, t, x); }
      else { StartSpares(c, program, call, stacks, t, x); }
    case Exit(call) =>
      if |stacks[c.terminal]| == 1 { LastSpares(c, call, stacks, t, x); } else { ReturnSpares(c, call, stacks, t, x); }
  }

  // ---- runs of entries ----

  function RunAll(c: Cpu, es: seq<Entry>): (r: Cpu)
    requires Wired(c)
    ensures Wired(r)
  {
    if es == [] then c else After(RunAll(c, es[..|es| - 1]), es[|es| - 1])
  }

  /** Does the run contain an execute or a halt? */
  predicate Entered(es: seq<Entry>) {
    es != [] && (Entered(es[..|es| - 1]) || !es[|es| - 1].Preempt?)
  }

  /** The call of the last entry that started a process in slot x. */
  function LastCall(c: Cpu, es: seq<Entry>, x: nat): Option<Context>
    requires Wired(c)
  {
    if es == [] then None
    else
      var front, last := es[..|es| - 1], es[|es| - 1];
      if StartedSlot(RunAll(c, front), last) == x then Some(CallOf(last)) else LastCall(c, front, x)
  }

  /** The timer takes the processor from the running terminal, and until the end of the run others have it. */
  predicate Away(c: Cpu, es: seq<Entry>)
    requires Wired(c)
  {
    && es != [] && es[0].Preempt?
    && forall j :: 0 < j < |es| ==> RunAll(c, es[..j]).terminal != c.terminal
  }

  /** How slot x stands after the run es from c to r, `theirs` being terminal t's stack all along. */
  predicate Kept(c: Cpu, es: seq<Entry>, r: Cpu, theirs: seq<nat>, x: nat)
    requires Wired(c) && Wired(r) && x <= PROCESS_NUM_MAX
  {
    match LastCall(c, es, x)
    case Some(call) => r.k.pcbs[x].prev !in theirs && r.k.pcbs[x].slot.call == call
    case None => r.k.pcbs[x].prev == c.k.pcbs[x].prev && r.k.pcbs[x].slot.call == c.k.pcbs[x].slot.call
  }

  /** The slot still belongs to no other terminal, and remembers what it did, but for what the first tick saved. */
  predicate StillHere(c: Cpu, here: Context, r: Cpu, st: seq<seq<nat>>, t: nat, x: nat)
    requires Wired(c) && Wired(r) && x <= PROCESS_NUM_MAX
  {
    OnlyHere(st, t, x) && r.k.pcbs[x] == if c.stack == x then SavedIn(c.k.pcbs[x], here) else c.k.pcbs[x]
  }

  predicate SparedAll(c: Cpu, es: seq<Entry>, stacks: seq<seq<nat>>, st: seq<seq<nat>>, x: nat)
    requires Running(c, stacks) && Away(c, es) && x <= PROCESS_NUM_MAX
  {
    var r, t := RunAll(c, es), c.terminal;
    && Running(r, st) && Placed(r, st) && st[t] == stacks[t] && r.k.terms[t] == c.k.terms[t]
    && (if Entered(es) then r.current !in stacks[t] else r.current == c.current)
    && Kept(c, es, r, stacks[t], x)
    && (OnlyHere(stacks, t, x) && LastCall(c, es, x).None? ==> StillHere(c, es[0].here, r, st, t, x))
  }

  lemma RunOne(c: Cpu, es: seq<Entry>, x: nat)
    requires Wired(c) && |es| == 1 && es[0].Preempt? && x > 0
    ensures RunAll(c, es) == After(c, es[0]) && LastCall(c, es, x).None? && !Entered(es)
  {
    assert es[..0] == [] && RunAll(c, es[..0]) == c && LastCall(c, es[..0], x).None? && !Entered(es[..0]);
  }

  lemma FirstSpares(c: Cpu, es: seq<Entry>, stacks: seq<seq<nat>>, x: nat)
    requires Running(c, stacks) && Away(c, es) && 1 <= x <= PROCESS_NUM_MAX && |es| == 1
    ensures SparedAll(c, es, stacks, stacks, x)
  {
    var e := es[0];
    RunOne(c, es, x);
    StepRuns(c, e, stacks);
    StepSpares(c, e, stacks, c.terminal, x);
  }

  lemma FrontAway(c: Cpu, es: seq<Entry>)
    requires Wired(c) && Away(c, es) && |es| > 1
    ensures Away(c, es[..|es| - 1]) && RunAll(c, es[..|es| - 1]).terminal != c.terminal
  {
    var front := es[..|es| - 1];
    assert forall j :: 0 < j < |front| ==> front[..j] == es[..j];
  }

  lemma NextKept(c: Cpu, es: seq<Entry>, stacks: seq<seq<nat>>, mid: seq<seq<nat>>, x: nat)
    requires Running(c, stacks) && Away(c, es) && 1 <= x <= PROCESS_NUM_MAX && |es| > 1 && Away(c, es[..|es| - 1])
    requires SparedAll(c, es[..|es| - 1], stacks, mid, x)
    requires Spares(RunAll(c, es[..|es| - 1]), es[|es| - 1], mid, c.terminal, x)
    requires RunAll(c, es[..|es| - 1]).terminal != c.terminal
    ensures var r, t := RunAll(c, es), c.terminal;
      && Kept(c, es, r, stacks[t], x)
      && (OnlyHere(stacks, t, x) && LastCall(c, es, x).None? ==>
            StillHere(c, es[0].here, r, StepStacks(RunAll(c, es[..|es| - 1]), es[|es| - 1], mid), t, x))
  {
  }

  lemma NextSpares(c: Cpu, es: seq<Entry>, stacks: seq<seq<nat>>, mid: seq<seq<nat>>, x: nat)
    requires Running(c, stacks) && Away(c, es) && 1 <= x <= PROCESS_NUM_MAX && |es| > 1 && Away(c, es[..|es| - 1])
    requires SparedAll(c, es[..|es| - 1], stacks, mid, x)
    ensures SparedAll(c, es, stacks, StepStacks(RunAll(c, es[..|es| - 1]), es[|es| - 1], mid), x)
  {
    var front, e, t := es[..|es| - 1], es[|es| - 1], c.terminal;
    var before := RunAll(c, front);
    FrontAway(c, es);
    StepRuns(before, e, mid);
    StepSpares(before, e, mid, t, x);
    NextKept(c, es, stacks, mid, x);
  }

  /** What entries of other terminals keep while terminal t is put aside. */
  lemma {:induction false} RunSpares(c: Cpu, es: seq<Entry>, stacks: seq<seq<nat>>, x: nat) returns (st: seq<seq<nat>>)
    requires Running(c, stacks) && Away(c, es) && 1 <= x <= PROCESS_NUM_MAX
    ensures SparedAll(c, es, stacks, st, x)
    decreases |es|
  {
    if |es| == 1 {
      FirstSpares(c, es, stacks, x);
      st := stacks;
    } else {
      var n := |es| - 1;
      FrontAway(c, es);
      var mid := RunSpares(c, es[..n], stacks, x);
      NextSpares(c, es, stacks, mid, x);
      st := StepStacks(RunAll(c, es[..n]), es[n], mid);
    }
  }

  // ---- execute, overtaken ----

  lemma {:induction false} SameSearch(process: seq<bool>, m: State, s: nat)
    requires |process| == PROCESS_NUM_MAX + 1 && |m.stacks| == TERMINAL_NUM && UseShown(process, m)
    requires 1 <= s <= PROCESS_NUM_MAX + 1
    ensures FirstFree(process, s) == LeastFree(m, s)
    decreases PROCESS_NUM_MAX + 1 - s
  {
    if s <= PROCESS_NUM_MAX { SameSearch(process, m, s + 1); }
  }

  /** Not interrupted, the code's execute is the atomic machine's. */
  lemma StartedIsExecute(c: Cpu, m: State, program: Option<seq<Byte>>, call: Context)
    requires Wired(c) && Describes(c.k, m) && c.terminal == m.running
    ensures Describes(Started(c, program, call).k, DoExecute(m, program, call))
  {
    SameSearch(c.k.process, m, 1);
    if LeastFree(m, 1) <= PROCESS_NUM_MAX && program.Some? {
      PushLinks(c.k, m, program.value, call);
      assert Started(c, program, call).k == PushTables(c.k, m.running, LeastFree(m, 1), program.value, call);
    }
  }

  /** The same holds of the code's timer tick between two terminals, ... */
  lemma PreemptedIsTick(c: Cpu, m: State, here: Context)
    requires Wired(c) && Describes(c.k, m) && Valid(m) && FlagsShown(c.k.terms, m)
    requires c.terminal == m.running && c.stack == Top(m) && (m.stacks[1] != [] || m.stacks[2] != [])
    ensures var r, after := Preempted(c, here), DoTick(m, here);
      Describes(r.k, after) && r.terminal == after.running && r.stack == r.page == Top(after)
  {
    SlotLinks(c.k, m, Top(m), m.slots[Top(m)].(saved := here));
    assert Raised(c.k.terms) == Flags(m);
    assert Flags(m)[m.running];
  }

  /** ... and of its halt of a terminal's last process. */
  lemma ExitedIsHalt(c: Cpu, m: State, call: Context)
    requires Wired(c) && Describes(c.k, m) && Valid(m) && c.terminal == m.running && |m.stacks[m.running]| == 1
    ensures Describes(Exited(c, call).k, DoHalt(m, call))
  {
    PopForShell(c.k, m);
    var t := c.k.terms[c.terminal];
    assert Emptied(c).k == Tables(c.k.process[Top(m) := false], c.k.pcbs,
                                  c.k.terms[m.running := t.(total := 0, processNum := 0)]);
    StartedIsExecute(Emptied(c), Pop(m), SHELL, call);
  }

  lemma {:induction false} OnlyTicks(c: Cpu, es: seq<Entry>)
    requires Wired(c)
    ensures !Entered(es) ==> RunAll(c, es).k.process == c.k.process
  {
    if es != [] { OnlyTicks(c, es[..|es| - 1]); }
  }

  /**
    An execute has set current_process_num and is put aside anywhere before its cli; by then it has found
    slot s, before or after the gap. When it goes on, the tables stay sound if and only if no other
    terminal's execute or halt came through in the gap, be it one that failed: each of them leaves
    current_process_num as somebody else's number, which becomes the new process's parent.
  */
  lemma OvertakenExecute(c: Cpu, stacks: seq<seq<nat>>, es: seq<Entry>, s: nat, argument: seq<Byte>, call: Context)
    requires Running(c, stacks) && Away(c, es) && c.current == c.k.terms[c.terminal].processNum
    requires RunAll(c, es).terminal == c.terminal
    requires s <= PROCESS_NUM_MAX && (s == FirstFree(c.k.process, 1) || s == FirstFree(RunAll(c, es).k.process, 1))
    ensures Sound(Enter(RunAll(c, es), s, argument, call).k) <==> !Entered(es)
  {
    var r, t := RunAll(c, es), c.terminal;
    var st := RunSpares(c, es, stacks, s);
    PushExactly(r.k, st, t, s, NewPcb(r, s, argument, call), true);
    OnlyTicks(c, es);
    assert stacks[t][0] in stacks[t];
  }
}
