/** What holds over whole runs of the process machine: counts, contexts, descriptors, fairness. */
module Runs {
  import opened Common
  import opened Bytes
  import opened FileSystem
  import opened Machine
  import Scheduler

  predicate AllAdmissible(es: seq<Event>) {
    forall i :: 0 <= i < |es| ==> Admissible(es[i])
  }

  function Front(es: seq<Event>): seq<Event>
    requires es != []
  {
    es[..|es| - 1]
  }

  function Last(es: seq<Event>): Event
    requires es != []
  {
    es[|es| - 1]
  }

  /** The state after the events es, in order. */
  function Run(m: State, es: seq<Event>): (r: State)
    requires Valid(m) && AllAdmissible(es)
    ensures Valid(r)
  {
    if es == [] then m
    else
      var before := Run(m, Front(es));
      StepKeepsValid(before, Last(es));
      Step(before, Last(es))
  }

  /** One process, in slot 1, on terminal 0, which has the processor. */
  predicate OnlyFirst(m: State) {
    && |m.stacks| == TERMINAL_NUM && m.running == 0
    && m.stacks[0] == [1] && m.stacks[1] == [] && m.stacks[2] == []
  }

  /** The machine before the boot code's execute, with the memory of the control blocks as it happens to be. */
  function Empty(slots: seq<Slot>): State { State([[], [], []], 0, 0, slots) }

  lemma BootValid(slots: seq<Slot>, call: Context)
    requires |slots| == PROCESS_NUM_MAX + 1 && forall s :: 0 <= s < |slots| ==> |slots[s].fds| == FD_N
    ensures var m := DoExecute(Empty(slots), SHELL, call);
      && Valid(m) && OnlyFirst(m) && m.displayed == 0
      && m.slots[1].call == call && m.slots[1].argument == []
      && forall s :: 0 <= s < |slots| && s != 1 ==> m.slots[s] == slots[s]
  {
    var m := Empty(slots);
    PushShape(m, [], call);
    assert LeastFree(m, 1) == 1;
    assert [1] + m.stacks[0] == [1];
  }

  /** The machine once the boot code has started the first shell on terminal 0. */
  function Boot(slots: seq<Slot>, call: Context): (m: State)
    requires |slots| == PROCESS_NUM_MAX + 1 && forall s :: 0 <= s < |slots| ==> |slots[s].fds| == FD_N
    ensures Valid(m) && OnlyFirst(m)
  {
    BootValid(slots, call);
    DoExecute(Empty(slots), SHELL, call)
  }

  // ---- counts ----

  function Total(m: State): nat
    requires |m.stacks| == TERMINAL_NUM
  {
    |m.stacks[0]| + |m.stacks[1]| + |m.stacks[2]|
  }

  function UsedSlots(m: State): set<nat>
    requires |m.stacks| == TERMINAL_NUM
  {
    set s | 1 <= s <= PROCESS_NUM_MAX && InUse(m, s)
  }

  /** The used slots are counted by the process counts of the three terminals. */
  lemma CountUsed(m: State)
    requires |m.stacks| == TERMINAL_NUM && InRange(m.stacks) && Distinct(m.stacks)
    ensures Total(m) == |UsedSlots(m)|
  {
    var all := m.stacks[0] + m.stacks[1] + m.stacks[2];
    var a, b := |m.stacks[0]|, |m.stacks[0]| + |m.stacks[1]|;
    forall i | 0 <= i < |all|
      ensures all[i] == if i < a then m.stacks[0][i] else if i < b then m.stacks[1][i - a] else m.stacks[2][i - b]
    {
    }
    MembersCount(all);
    assert forall s :: s in all <==> s in m.stacks[0] || s in m.stacks[1] || s in m.stacks[2];
    assert Members(all) == UsedSlots(m);
  }

  const SLOTS: set<nat> := {1, 2, 3, 4, 5, 6}

  lemma SlotsTaken(m: State)
    requires |m.stacks| == TERMINAL_NUM
    ensures LeastFree(m, 1) > PROCESS_NUM_MAX <==> |UsedSlots(m)| == PROCESS_NUM_MAX
    ensures |UsedSlots(m)| <= PROCESS_NUM_MAX
  {
    assert |SLOTS| == PROCESS_NUM_MAX;
    SubsetCount(UsedSlots(m), SLOTS);
    var free := LeastFree(m, 1);
    if free <= PROCESS_NUM_MAX {
      assert free in SLOTS && free !in UsedSlots(m);
    } else {
      forall s | s in SLOTS ensures s in UsedSlots(m) {
        assert 1 <= s < free;
      }
      assert UsedSlots(m) == SLOTS;
    }
  }

  /** execute finds no slot exactly when six processes exist, and there are never more. */
  lemma FullMeansSix(m: State)
    requires Shape(m)
    ensures Total(m) <= PROCESS_NUM_MAX
    ensures LeastFree(m, 1) > PROCESS_NUM_MAX <==> Total(m) == PROCESS_NUM_MAX
  {
    CountUsed(m);
    SlotsTaken(m);
  }

  // ---- contexts ----

  /** Only the running terminal has processes, as after boot. */
  predicate OnlyRunning(m: State) {
    forall u :: 0 <= u < |m.stacks| && u != m.running ==> m.stacks[u] == []
  }

  /** The token an event hands over when it takes the processor from a terminal. */
  function SavedToken(e: Event): Context {
    match e
    case Tick(saved) => saved
    case Switch(_, saved, _) => saved
    case Execute(_, call) => call
    case Halt(call) => call
    case _ => Context(0, 0)
  }

  /** The context in which terminal t last lost the processor, read off the run alone. */
  function Lost(m: State, es: seq<Event>, t: nat): Option<Context>
    requires Valid(m) && AllAdmissible(es)
  {
    if es == [] then None
    else if Run(m, Front(es)).running == t && Run(m, es).running != t then Some(SavedToken(Last(es)))
    else Lost(m, Front(es), t)
  }

  /** Starting a process leaves the other terminals' processes alone. */
  lemma ExecuteUntouched(m: State, program: Option<seq<Byte>>, call: Context, t: nat)
    requires Shape(m) && t < TERMINAL_NUM && t != m.running
    ensures DoExecute(m, program, call).stacks[t] == m.stacks[t]
    ensures m.stacks[t] != [] ==> DoExecute(m, program, call).slots[m.stacks[t][0]] == m.slots[m.stacks[t][0]]
  {
    assert m.stacks[t] != [] ==> InUse(m, m.stacks[t][0]);
  }

  lemma SpawnUntouched(m: State, terminal: nat, saved: Context, call: Context, t: nat)
    requires Valid(m) && terminal < TERMINAL_NUM && m.stacks[terminal] == []
    requires t < TERMINAL_NUM && t != m.running && t != Spawn(m, terminal, saved, call).running
    ensures Spawn(m, terminal, saved, call).stacks[t] == m.stacks[t]
    ensures m.stacks[t] != [] ==> Spawn(m, terminal, saved, call).slots[m.stacks[t][0]] == m.slots[m.stacks[t][0]]
  {
    assert m.stacks[t] != [] ==> m.stacks[t][0] != Top(m);
    if t != terminal {
      ExecuteUntouched(Save(m, saved).(displayed := terminal, running := terminal), SHELL, call, t);
    }
  }

  /** One step leaves alone every terminal that has not the processor before or after it. */
  lemma WaitingUntouched(m: State, e: Event, t: nat)
    requires Valid(m) && Admissible(e) && t < TERMINAL_NUM
    requires t != m.running && t != Step(m, e).running
    ensures Step(m, e).stacks[t] == m.stacks[t]
    ensures m.stacks[t] != [] ==> Step(m, e).slots[m.stacks[t][0]] == m.slots[m.stacks[t][0]]
  {
    assert m.stacks[t] != [] ==> m.stacks[t][0] != Top(m);
    match e
    case Execute(program, call) => ExecuteUntouched(m, program, call, t);
    case Halt(call) =>
      PopShape(m);
      ExecuteUntouched(Pop(m), SHELL, call, t);
    case Tick(saved) =>
    case Switch(terminal, saved, call) =>
      if terminal != m.displayed && m.stacks[terminal] == [] && terminal != 0 {
        SpawnUntouched(m, terminal, saved, call, t);
      }
    case Open(_) =>
    case Close(_) =>
  }

  /** A terminal that loses the processor has the event's context saved with its top process. */
  lemma LosingSaves(m: State, e: Event)
    requires Valid(m) && Admissible(e) && Step(m, e).running != m.running
    ensures Step(m, e).stacks[m.running] == m.stacks[m.running]
    ensures Step(m, e).slots[Top(m)].saved == SavedToken(e)
  {
    assert Top(m) in m.stacks[m.running];
  }

  /** What a step leaves with a terminal that does not run after it. */
  lemma WaitingSlot(m: State, e: Event, t: nat)
    requires Valid(m) && Admissible(e) && t < TERMINAL_NUM && t != Step(m, e).running
    ensures Step(m, e).stacks[t] == m.stacks[t]
    ensures m.stacks[t] != [] ==> var s := m.stacks[t][0];
      Step(m, e).slots[s].saved == if t == m.running then SavedToken(e) else m.slots[s].saved
  {
    if t == m.running { LosingSaves(m, e); } else { WaitingUntouched(m, e, t); }
  }

  /**
    Context safety: after any run, every terminal that has processes but not the processor holds, in
    its top process's own control block, the context in which it last lost the processor.
  */
  lemma {:induction false} SavedIsLost(m: State, es: seq<Event>, t: nat)
    requires Valid(m) && OnlyRunning(m) && AllAdmissible(es) && t < TERMINAL_NUM
    ensures var r := Run(m, es);
      t != r.running && r.stacks[t] != [] ==> Lost(m, es, t) == Some(r.slots[r.stacks[t][0]].saved)
  {
    if es != [] && t != Run(m, es).running {
      WaitingSlot(Run(m, Front(es)), Last(es), t);
      SavedIsLost(m, Front(es), t);
    }
  }

  /** A tick that changes terminals leaves the control block of the process it resumes as it was. */
  lemma TickTurns(m: State, saved: Context)
    requires Valid(m) && DoTick(m, saved).running != m.running
    ensures var r := DoTick(m, saved);
      r.stacks == m.stacks && m.stacks[r.running] != [] && r.slots[Top(r)] == m.slots[Top(r)]
  {
    assert Flags(m)[m.running];
  }

  /** Every timer tick that changes terminals resumes the new one where it last lost the processor. */
  lemma TickResumesLost(m: State, es: seq<Event>, saved: Context)
    requires Valid(m) && OnlyRunning(m) && AllAdmissible(es)
    ensures var before, r := Run(m, es), DoTick(Run(m, es), saved);
      r.running != before.running ==> r.stacks == before.stacks && Lost(m, es, r.running) == Some(r.slots[Top(r)].saved)
  {
    var before, r := Run(m, es), DoTick(Run(m, es), saved);
    if r.running != before.running {
      TickTurns(before, saved);
      SavedIsLost(m, es, r.running);
    }
  }

  /** Did the step from m to r start a process in slot s? */
  predicate Starts(m: State, e: Event, r: State, s: nat)
    requires Valid(m) && Valid(r)
  {
    && Top(r) == s
    && (|r.stacks[r.running]| > |m.stacks[r.running]| || (e.Halt? && |m.stacks[m.running]| == 1))
  }

  /** The context in which execute was called, and the program it was given, by an event that starts a process. */
  function CallToken(e: Event): Context {
    match e
    case Execute(_, call) => call
    case Halt(call) => call
    case Switch(_, _, call) => call
    case _ => Context(0, 0)
  }

  function ProgramOf(e: Event): Option<seq<Byte>> {
    match e
    case Execute(program, _) => program
    case _ => SHELL
  }

  /** The last event of a run that started a process in slot s; None if the process was there from the start. */
  function Creator(m: State, es: seq<Event>, s: nat): Option<Event>
    requires Valid(m) && AllAdmissible(es)
  {
    if es == [] then None
    else if Starts(Run(m, Front(es)), Last(es), Run(m, es), s) then Some(Last(es))
    else Creator(m, Front(es), s)
  }

  /**
    What a step does to the creation records: a new process gets the event's call context and
    argument, every other process was there before and keeps its own.
  */
  predicate CallRecorded(m: State, e: Event, r: State, s: nat)
    requires Valid(m) && Valid(r) && s <= PROCESS_NUM_MAX
  {
    if Starts(m, e, r, s) then r.slots[s].call == CallToken(e) && Some(r.slots[s].argument) == ProgramOf(e)
    else InUse(m, s) && r.slots[s].call == m.slots[s].call && r.slots[s].argument == m.slots[s].argument
  }

  lemma ExecuteRecordsCall(m: State, e: Event, s: nat)
    requires e.Execute? && Valid(m) && Valid(DoExecute(m, e.program, e.call))
    requires s <= PROCESS_NUM_MAX && InUse(DoExecute(m, e.program, e.call), s)
    ensures CallRecorded(m, e, DoExecute(m, e.program, e.call), s)
  {
    if e.program.Some? { PushUses(m, e.program.value, e.call, s); }
  }

  lemma HaltRecordsCall(m: State, e: Event, s: nat)
    requires e.Halt? && Valid(m) && Valid(DoHalt(m, e.call)) && s <= PROCESS_NUM_MAX && InUse(DoHalt(m, e.call), s)
    ensures CallRecorded(m, e, DoHalt(m, e.call), s)
  {
    PopShape(m);
    PopUses(m, s);
    if |m.stacks[m.running]| == 1 {
      ShellFindsSlot(m);
      PushUses(Pop(m), SHELL.value, e.call, s);
    }
  }

  lemma SwitchRecordsCall(m: State, e: Event, s: nat)
    requires e.Switch? && e.terminal < TERMINAL_NUM && Valid(m) && Valid(DoSwitch(m, e.terminal, e.saved, e.call))
    requires s <= PROCESS_NUM_MAX && InUse(DoSwitch(m, e.terminal, e.saved, e.call), s)
    ensures CallRecorded(m, e, DoSwitch(m, e.terminal, e.saved, e.call), s)
  {
    if e.terminal != m.displayed && m.stacks[e.terminal] == [] && e.terminal != 0 {
      SpawnPushes(m, e.terminal, e.saved, e.call);
      PushUses(Save(m, e.saved).(displayed := e.terminal, running := e.terminal), [], e.call, s);
    }
  }

  lemma StepRecordsCall(m: State, e: Event, s: nat)
    requires Valid(m) && Admissible(e) && Valid(Step(m, e)) && s <= PROCESS_NUM_MAX && InUse(Step(m, e), s)
    ensures CallRecorded(m, e, Step(m, e), s)
  {
    match e
    case Execute(program, call) => ExecuteRecordsCall(m, e, s);
    case Halt(call) => HaltRecordsCall(m, e, s);
    case Switch(terminal, saved, call) => SwitchRecordsCall(m, e, s);
    case _ =>
  }

  /**
    Every process keeps, to its end, the context of the very execute call that created it, and the
    argument it was created with.
  */
  lemma {:induction false} CreatorsRemembered(m: State, es: seq<Event>, s: nat)
    requires Valid(m) && AllAdmissible(es) && s <= PROCESS_NUM_MAX && InUse(Run(m, es), s)
    ensures match Creator(m, es, s)
      case None =>
        InUse(m, s) && Run(m, es).slots[s].call == m.slots[s].call
          && Run(m, es).slots[s].argument == m.slots[s].argument
      case Some(e) =>
        Run(m, es).slots[s].call == CallToken(e) && Some(Run(m, es).slots[s].argument) == ProgramOf(e)
  {
    if es != [] {
      var before := Run(m, Front(es));
      StepRecordsCall(before, Last(es), s);
      if !Starts(before, Last(es), Run(m, es), s) { CreatorsRemembered(m, Front(es), s); }
    }
  }

  /** What the jump at the end of a halt that is not a terminal's last restores. */
  function HaltResumes(m: State): Context
    requires Valid(m)
  {
    m.slots[Top(m)].call
  }

  lemma HaltReturns(m: State, call: Context)
    requires Valid(m) && |m.stacks[m.running]| > 1
    ensures var after := DoHalt(m, call);
      after.running == m.running && after.stacks[m.running] == m.stacks[m.running][1..]
    ensures 1 <= Top(m) <= PROCESS_NUM_MAX && InUse(m, Top(m))
  {
    assert Top(m) in m.stacks[m.running];
  }

  /**
    A halt that is not a terminal's last hands the processor to the parent and resumes it inside the
    execute call that created the halting process.
  */
  lemma HaltResumesCreator(m: State, es: seq<Event>, call: Context)
    requires Valid(m) && AllAdmissible(es)
    ensures var before, after := Run(m, es), DoHalt(Run(m, es), call);
      |before.stacks[before.running]| > 1 ==>
      && after.running == before.running
      && after.stacks[after.running] == before.stacks[before.running][1..]
      && match Creator(m, es, Top(before))
         case None => HaltResumes(before) == m.slots[Top(before)].call
         case Some(e) => HaltResumes(before) == CallToken(e)
  {
    var before := Run(m, es);
    if |before.stacks[before.running]| > 1 {
      HaltReturns(before, call);
      CreatorsRemembered(m, es, Top(before));
    }
  }

  // ---- descriptors ----

  /** Nothing above the two standard descriptors is open. */
  predicate NoneOpen(fds: seq<FileDesc>) {
    forall i :: 2 <= i < |fds| ==> !fds[i].inUse
  }

  /** Exactly descriptors 0 and 1 are open. */
  predicate OnlyStandard(fds: seq<FileDesc>) {
    |fds| == FD_N && fds[0].inUse && fds[1].inUse && NoneOpen(fds)
  }

  /** No free slot remembers an open descriptor. */
  predicate FreeSlotsClosed(m: State)
    requires Shape(m)
  {
    forall s :: 1 <= s <= PROCESS_NUM_MAX && !InUse(m, s) ==> NoneOpen(m.slots[s].fds)
  }

  /** A terminal's last process halts with nothing open but the standard descriptors. */
  predicate Tidy(m: State, e: Event)
    requires Valid(m)
  {
    e.Halt? && |m.stacks[m.running]| == 1 ==> NoneOpen(Fds(m))
  }

  lemma StartFdsOpen(fds: seq<FileDesc>)
    requires |fds| == FD_N
    ensures OnlyStandard(StartFds(fds)) <==> NoneOpen(fds)
  {
    assert forall i :: 2 <= i < FD_N ==> StartFds(fds)[i] == StartFds(fds)[2..][i - 2] && fds[i] == fds[2..][i - 2];
  }

  lemma PushClosed(m: State, argument: seq<Byte>, call: Context)
    requires Shape(m) && LeastFree(m, 1) <= PROCESS_NUM_MAX && FreeSlotsClosed(m)
    requires Shape(Push(m, argument, call))
    ensures FreeSlotsClosed(Push(m, argument, call))
    ensures OnlyStandard(Push(m, argument, call).slots[LeastFree(m, 1)].fds)
  {
    var f := LeastFree(m, 1);
    StartFdsOpen(m.slots[f].fds);
    forall s | 1 <= s <= PROCESS_NUM_MAX && !InUse(Push(m, argument, call), s)
      ensures NoneOpen(Push(m, argument, call).slots[s].fds)
    {
      PushUses(m, argument, call, s);
    }
  }

  lemma PopClosed(m: State)
    requires Valid(m) && Shape(Pop(m)) && FreeSlotsClosed(m) && NoneOpen(Fds(m))
    ensures FreeSlotsClosed(Pop(m))
  {
    forall s | 1 <= s <= PROCESS_NUM_MAX && !InUse(Pop(m), s) ensures NoneOpen(m.slots[s].fds) {
      PopUses(m, s);
    }
  }

  /**
    How descriptors leak, exactly: halt replaces a terminal's last process without closing
    anything, so afterwards the new shell has only its standard descriptors and no free slot remembers
    an open one if and only if the halting process had closed everything itself.
  */
  lemma LastHaltLeaks(m: State, call: Context)
    requires Valid(m) && Valid(DoHalt(m, call)) && FreeSlotsClosed(m) && |m.stacks[m.running]| == 1
    ensures FreeSlotsClosed(DoHalt(m, call)) && OnlyStandard(Fds(DoHalt(m, call))) <==> NoneOpen(Fds(m))
  {
    PopShape(m);
    ShellFindsSlot(m);
    var p := Pop(m);
    var f := LeastFree(p, 1);
    PushShape(p, [], call);
    StartFdsOpen(m.slots[f].fds);
    if NoneOpen(Fds(m)) {
      PopClosed(m);
      PushClosed(p, [], call);
    } else if f != Top(m) {
      PushUses(p, [], call, Top(m));
    }
  }

  lemma HaltClosed(m: State, call: Context)
    requires Valid(m) && Valid(DoHalt(m, call)) && FreeSlotsClosed(m) && |m.stacks[m.running]| > 1
    ensures FreeSlotsClosed(DoHalt(m, call))
  {
    PopShape(m);
    forall s | 1 <= s <= PROCESS_NUM_MAX && !InUse(DoHalt(m, call), s) ensures NoneOpen(DoHalt(m, call).slots[s].fds) {
      PopUses(m, s);
    }
  }

  lemma SpawnClosed(m: State, terminal: nat, saved: Context, call: Context)
    requires Valid(m) && FreeSlotsClosed(m) && terminal < TERMINAL_NUM && m.stacks[terminal] == []
    requires Valid(Spawn(m, terminal, saved, call))
    ensures var r := Spawn(m, terminal, saved, call);
      FreeSlotsClosed(r) && (r.stacks != m.stacks ==> OnlyStandard(Fds(r)))
  {
    SpawnPushes(m, terminal, saved, call);
    var aside := Save(m, saved).(displayed := terminal, running := terminal);
    if LeastFree(aside, 1) <= PROCESS_NUM_MAX {
      PushShape(aside, [], call);
      PushClosed(aside, [], call);
    }
  }

  lemma ExecuteClosed(m: State, program: Option<seq<Byte>>, call: Context)
    requires Valid(m) && FreeSlotsClosed(m)
    ensures var r := DoExecute(m, program, call);
      && Valid(r) && FreeSlotsClosed(r) && (r.stacks != m.stacks ==> OnlyStandard(Fds(r)))
      && (|r.stacks[r.running]| > |m.stacks[r.running]| ==> r.stacks != m.stacks)
  {
    if LeastFree(m, 1) <= PROCESS_NUM_MAX && program.Some? {
      PushShape(m, program.value, call);
      PushClosed(m, program.value, call);
    }
  }

  lemma StepClosed(m: State, e: Event)
    requires Valid(m) && Admissible(e) && Valid(Step(m, e)) && FreeSlotsClosed(m) && Tidy(m, e)
    ensures FreeSlotsClosed(Step(m, e))
    ensures Starts(m, e, Step(m, e), Top(Step(m, e))) ==> OnlyStandard(Fds(Step(m, e)))
  {
    match e
    case Execute(program, call) => ExecuteClosed(m, program, call);
    case Halt(call) =>
      if |m.stacks[m.running]| == 1 { LastHaltLeaks(m, call); } else { HaltClosed(m, call); }
    case Tick(saved) =>
    case Switch(terminal, saved, call) =>
      if terminal != m.displayed && terminal != 0 && m.stacks[terminal] == [] { SpawnClosed(m, terminal, saved, call); }
    case Open(_) =>
    case Close(_) =>
  }

  /** Every last halt of the run is tidy. */
  predicate AllTidy(m: State, es: seq<Event>)
    requires Valid(m) && AllAdmissible(es)
  {
    es != [] ==> AllTidy(m, Front(es)) && Tidy(Run(m, Front(es)), Last(es))
  }

  /** After every step of the run free slots remember nothing open, and a new process has just descriptors 0 and 1. */
  predicate CleanThroughout(m: State, es: seq<Event>)
    requires Valid(m) && AllAdmissible(es)
  {
    es != [] ==>
      && CleanThroughout(m, Front(es))
      && FreeSlotsClosed(Run(m, es))
      && (Starts(Run(m, Front(es)), Last(es), Run(m, es), Top(Run(m, es))) ==> OnlyStandard(Fds(Run(m, es))))
  }

  /** One step keeps things clean if and only if it is not the halt of a terminal's last process with files open. */
  lemma StepClean(m: State, e: Event)
    requires Valid(m) && Admissible(e) && Valid(Step(m, e)) && FreeSlotsClosed(m)
    ensures FreeSlotsClosed(Step(m, e)) && (Starts(m, e, Step(m, e), Top(Step(m, e))) ==> OnlyStandard(Fds(Step(m, e))))
       <==> Tidy(m, e)
  {
    if Tidy(m, e) {
      StepClosed(m, e);
    } else {
      LastHaltLeaks(m, e.call);
    }
  }

  /**
    Over any run of execute, halt, open, close, ticks and switches, every process that starts has exactly
    descriptors 0 and 1 open, and no free slot remembers an open one, if and only if terminals' last
    processes halt tidily.
  */
  lemma {:induction false} NewProcessesStartClosed(m: State, es: seq<Event>)
    requires Valid(m) && FreeSlotsClosed(m) && AllAdmissible(es)
    ensures CleanThroughout(m, es) <==> AllTidy(m, es)
    ensures AllTidy(m, es) ==> FreeSlotsClosed(Run(m, es))
  {
    if es != [] {
      var before := Run(m, Front(es));
      NewProcessesStartClosed(m, Front(es));
      assert Run(m, es) == Step(before, Last(es));
      if AllTidy(m, Front(es)) { StepClean(before, Last(es)); }
    }
  }

  /** No slot's memory holds an open descriptor above the standard two. */
  predicate CleanMemory(slots: seq<Slot>) {
    forall s :: 1 <= s <= PROCESS_NUM_MAX && s < |slots| ==> NoneOpen(slots[s].fds)
  }

  /** After boot the first shell and the free slots are clean if and only if the memory of the control blocks was. */
  lemma BootClean(slots: seq<Slot>, call: Context)
    requires |slots| == PROCESS_NUM_MAX + 1 && forall s :: 0 <= s < |slots| ==> |slots[s].fds| == FD_N
    ensures FreeSlotsClosed(Boot(slots, call)) && OnlyStandard(Fds(Boot(slots, call))) <==> CleanMemory(slots)
  {
    assert LeastFree(Empty(slots), 1) == 1;
    var b := Boot(slots, call);
    assert b.stacks[0] == [1] + [];
    StartFdsOpen(slots[1].fds);
    forall s | 1 <= s <= PROCESS_NUM_MAX
      ensures (InUse(b, s) <==> s == 1) && (s != 1 ==> b.slots[s] == slots[s])
    {
    }
  }

  /**
    From boot on: everything stays clean, from the first shell on, if and only if memory was clean and
    last halts are tidy.
  */
  lemma CleanFromBoot(slots: seq<Slot>, call: Context, es: seq<Event>)
    requires |slots| == PROCESS_NUM_MAX + 1 && forall s :: 0 <= s < |slots| ==> |slots[s].fds| == FD_N
    requires AllAdmissible(es)
    ensures var m := Boot(slots, call);
      FreeSlotsClosed(m) && OnlyStandard(Fds(m)) && CleanThroughout(m, es) <==> CleanMemory(slots) && AllTidy(m, es)
  {
    BootClean(slots, call);
    if CleanMemory(slots) { NewProcessesStartClosed(Boot(slots, call), es); }
  }

  /** Boot, open a file, halt: the shell that takes over starts with the file still open. */
  lemma ShellInheritsFile(slots: seq<Slot>, entry: Dentry, a: Context, b: Context)
    requires |slots| == PROCESS_NUM_MAX + 1 && forall s :: 0 <= s < |slots| ==> |slots[s].fds| == FD_N
    requires CleanMemory(slots)
    ensures var after := Step(Boot(slots, a), Open(Some(entry)));
      && Valid(after) && OpenResult(Fds(Boot(slots, a)), Some(entry)) == 2
      && Valid(DoHalt(after, b)) && Fds(DoHalt(after, b))[2].inUse && Top(DoHalt(after, b)) == 1
  {
  }

  /** The descriptor after an open of the entry d. */
  predicate Opened(fd: FileDesc, d: Dentry) {
    fd.inUse && fd.pos == 0 && fd.kind == d.fileType &&
    fd.inode == if d.fileType == FILE_TYPE_FILE then d.inodeNum else 0
  }

  /**
    open returns the least closed descriptor from 2 to 7, fails only for an unknown name or when all six
    are in use, and then changes nothing. The descriptor is opened at the start of the entry's own file,
    the other seven stay as they were.
  */
  lemma OpenIsLeast(fds: seq<FileDesc>, entry: Option<Dentry>)
    requires |fds| == FD_N
    ensures var fd, after := OpenResult(fds, entry), OpenFds(fds, entry);
      if fd == -1 then (entry.None? || forall i :: 2 <= i < FD_N ==> fds[i].inUse) && after == fds
      else && 2 <= fd < FD_N && !fds[fd].inUse && (forall i :: 2 <= i < fd ==> fds[i].inUse)
           && entry.Some? && Opened(after[fd], entry.value)
           && forall i :: 0 <= i < FD_N && i != fd ==> after[i] == fds[i]
  {
  }

  /**
    close closes exactly the open descriptors from 2 to 7, changes nothing but the one's being open, and
    makes a descriptor open has just returned the next one to be returned.
  */
  lemma CloseExactly(fds: seq<FileDesc>, fd: int, entry: Option<Dentry>)
    requires |fds| == FD_N
    ensures var after := CloseFds(fds, fd);
      if CloseResult(fds, fd) == 0
      then && 2 <= fd < FD_N && fds[fd].inUse && after[fd] == fds[fd].(inUse := false)
           && forall i :: 0 <= i < FD_N && i != fd ==> after[i] == fds[i]
      else CloseResult(fds, fd) == -1 && after == fds && (2 <= fd < FD_N ==> !fds[fd].inUse)
    ensures var after, i := OpenFds(fds, entry), OpenResult(fds, entry);
      i != -1 ==> CloseResult(after, i) == 0 && OpenResult(CloseFds(after, i), entry) == i
  {
    var i := OpenResult(fds, entry);
    if i != -1 {
      var again := CloseFds(OpenFds(fds, entry), i);
      assert forall k :: 0 <= k < FD_N ==> again[k].inUse == fds[k].inUse;
      assert !again[LeastFreeFd(again, 2)].inUse;
    }
  }

  // ---- what an event does not touch ----

  /** Only a switch changes which terminal is displayed, and it always does: to the one it names. */
  lemma DisplayedBy(m: State, e: Event)
    requires Valid(m) && Admissible(e)
    ensures Step(m, e).displayed == if e.Switch? then e.terminal else m.displayed
  {
    match e
    case Halt(call) => PopShape(m);
    case Switch(terminal, saved, call) =>
      if terminal != m.displayed && terminal != 0 && m.stacks[terminal] == [] {
        SpawnPushes(m, terminal, saved, call);
      }
    case _ =>
  }

  /** A switch to a terminal in use, or to the one displayed, changes nothing else. */
  lemma SwitchToUsed(m: State, terminal: nat, saved: Context, call: Context)
    requires Valid(m) && terminal < TERMINAL_NUM && (m.stacks[terminal] != [] || terminal == m.displayed)
    ensures DoSwitch(m, terminal, saved, call) == m.(displayed := terminal)
  {
  }

  /** The event changes the descriptors of the running process itself. */
  predicate OwnFds(e: Event) { e.Open? || e.Close? || e.Halt? }

  lemma HaltKeepsFds(m: State, call: Context, s: nat)
    requires Valid(m) && Valid(DoHalt(m, call)) && s <= PROCESS_NUM_MAX
    requires InUse(m, s) && s != Top(m)
    ensures DoHalt(m, call).slots[s].fds == m.slots[s].fds
  {
    PopShape(m);
    PopUses(m, s);
  }

  lemma SpawnKeepsFds(m: State, terminal: nat, saved: Context, call: Context, s: nat)
    requires Valid(m) && terminal < TERMINAL_NUM && m.stacks[terminal] == []
    requires s <= PROCESS_NUM_MAX && InUse(m, s)
    ensures Valid(Spawn(m, terminal, saved, call))
    ensures Spawn(m, terminal, saved, call).slots[s].fds == m.slots[s].fds
  {
    SpawnPushes(m, terminal, saved, call);
    SameFree(m, Save(m, saved).(displayed := terminal, running := terminal), 1);
  }

  /** A process that was there before and still is keeps its descriptors, but for its own open, close and halt. */
  lemma FdsKept(m: State, e: Event, s: nat)
    requires Valid(m) && Admissible(e) && Valid(Step(m, e)) && s <= PROCESS_NUM_MAX
    requires InUse(m, s) && InUse(Step(m, e), s) && (s != Top(m) || !OwnFds(e))
    ensures Step(m, e).slots[s].fds == m.slots[s].fds
  {
    match e
    case Execute(_, _) =>
    case Halt(call) => HaltKeepsFds(m, call, s);
    case Tick(_) =>
    case Switch(terminal, saved, call) => if m.stacks[terminal] == [] { SpawnKeepsFds(m, terminal, saved, call, s); }
    case Open(_) =>
    case Close(_) =>
  }

  // ---- fairness ----

  /** One tick after the other, each saving its own context. */
  function Ticks(saved: seq<Context>): (es: seq<Event>)
    ensures |es| == |saved| && AllAdmissible(es)
  {
    seq(|saved|, i requires 0 <= i < |saved| => Tick(saved[i]))
  }

  lemma TickIsNext(m: State, saved: Context)
    requires Valid(m)
    ensures DoTick(m, saved).running == Scheduler.Next(Flags(m), m.running)
    ensures DoTick(m, saved).stacks == m.stacks
  {
    if m.stacks[1] == [] && m.stacks[2] == [] {
      assert Flags(m)[Scheduler.Next(Flags(m), m.running)];
    }
  }

  /** The last of a series of ticks meets a proper system. */
  lemma LastTick(m: State, saved: seq<Context>)
    requires Valid(m) && saved != []
    ensures var before := Run(m, Ticks(saved[..|saved| - 1]));
      Valid(before) && Run(m, Ticks(saved)) == DoTick(before, saved[|saved| - 1])
  {
    assert Front(Ticks(saved)) == Ticks(saved[..|saved| - 1]);
  }

  lemma {:induction false} TicksAreTurns(m: State, saved: seq<Context>)
    requires Valid(m)
    ensures Run(m, Ticks(saved)).stacks == m.stacks
    ensures Run(m, Ticks(saved)).running == Scheduler.Turn(Flags(m), m.running, |saved|)
    decreases |saved|
  {
    if saved != [] {
      var n := |saved| - 1;
      LastTick(m, saved);
      TicksAreTurns(m, saved[..n]);
      TickIsNext(Run(m, Ticks(saved[..n])), saved[n]);
    }
  }

  /** Of any three ticks in a row, one gives the processor to terminal t, if it has a process. */
  lemma RunsWithinThreeTicks(m: State, saved: seq<Context>, t: nat) returns (k: nat)
    requires Valid(m) && t < TERMINAL_NUM && m.stacks[t] != [] && |saved| == TERMINAL_NUM
    ensures 1 <= k <= TERMINAL_NUM && Run(m, Ticks(saved[..k])).running == t
  {
    k := Scheduler.RunsWithin(Flags(m), m.running, t);
    TicksAreTurns(m, saved[..k]);
  }
}
