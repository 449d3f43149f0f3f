/**
  A halt that returns to its parent and is put aside between two of its statements: exactly when it
  ends as it should.
*/
module HaltInterrupted {
  import opened Common
  import opened Bytes
  import opened Machine
  import opened ProcessTables
  import opened ProcessLinks
  import opened Interrupted
  import opened Interruptions
  import Scheduler

  /** Between kernel entries: page and kernel stack are the top process's, and it has a parent. */
  predicate Ready(c: Cpu, stacks: seq<seq<nat>>) {
    Running(c, stacks) && Placed(c, stacks) && c.page == c.stack && |stacks[c.terminal]| > 1
  }

  /** What the last tick resumes: the context saved with the process it gives the processor to. */
  function Resumed(c: Cpu): Context
    requires Wired(c)
  {
    c.k.pcbs[c.stack].slot.saved
  }

  /** The stacks without the halting process. */
  function Rest(stacks: seq<seq<nat>>, t: nat): seq<seq<nat>>
    requires t < |stacks| && stacks[t] != []
  {
    stacks[t := stacks[t][1..]]
  }

  lemma UsedIsNotStarted(c: Cpu, e: Entry, stacks: seq<seq<nat>>, t: nat, x: nat)
    requires Running(c, stacks) && t < TERMINAL_NUM && 1 <= x <= PROCESS_NUM_MAX && x in stacks[t]
    requires e.Preempt? || c.terminal != t
    ensures StartedSlot(c, e) != x
  {
    TopElsewhere(stacks, c.terminal, t);
    assert On(stacks, x);
  }

  /** In the slot of a process that stays on its terminal's stack no other is started. */
  lemma {:induction false} NeverStarted(c: Cpu, es: seq<Entry>, stacks: seq<seq<nat>>, x: nat)
    requires Running(c, stacks) && Away(c, es) && 1 <= x <= PROCESS_NUM_MAX && x in stacks[c.terminal]
    ensures LastCall(c, es, x).None?
    decreases |es|
  {
    var front := es[..|es| - 1];
    if |es| == 1 {
      assert LastCall(c, front, x).None?;
    } else {
      FrontAway(c, es);
      NeverStarted(c, front, stacks, x);
      var st := RunSpares(c, front, stacks, x);
      UsedIsNotStarted(RunAll(c, front), es[|es| - 1], st, c.terminal, x);
    }
  }

  // ---- before the slot is freed ----

  /** The terminal's entries at the end, whatever its count was. */
  lemma FinishedTerms(c: Cpu, total: nat)
    requires Wired(c)
    ensures var t, self := c.k.terms[c.terminal], c.k.pcbs[c.stack];
      var d := c.(k := c.k.(terms := c.k.terms[c.terminal := t.(total := total)]));
      Wired(d) && Finished(d, 3).k == Tables(c.k.process, c.k.pcbs[c.stack := Interrupted.Closed(self)],
                                             c.k.terms[c.terminal := Terminal(self.prev, t.flag, total)])
  {
    var t, self := c.k.terms[c.terminal], c.k.pcbs[c.stack];
    var d := c.(k := c.k.(terms := c.k.terms[c.terminal := t.(total := total)]));
    FinishedFrom4(d);
    UpdateTwice(c.k.terms, c.terminal, t.(total := total), Terminal(self.prev, t.flag, total));
  }

  lemma FinishedFrom3(c: Cpu)
    requires Wired(c) && c.k.terms[c.terminal].total > 0
    ensures var t, self := c.k.terms[c.terminal], c.k.pcbs[c.stack];
      Finished(c, 2).k == Tables(c.k.process, c.k.pcbs[c.stack := Interrupted.Closed(self)],
                                 c.k.terms[c.terminal := Terminal(self.prev, t.flag, t.total - 1)])
  {
    FinishedStep(c, 2);
    FinishedTerms(c, c.k.terms[c.terminal].total - 1);
  }

  lemma FinishedFrom2(c: Cpu)
    requires Wired(c) && c.k.terms[c.terminal].total > 0
    ensures var t, self := c.k.terms[c.terminal], c.k.pcbs[c.stack];
      Finished(c, 1).k == Tables(c.k.process[c.current := false], c.k.pcbs[c.stack := Interrupted.Closed(self)],
                                 c.k.terms[c.terminal := Terminal(self.prev, t.flag, t.total - 1)])
  {
    FinishedStep(c, 1);
    FinishedFrom3(Statement(c, 2));
  }

  /**
    From its second statement on, halt leaves sound tables if and only if current_process_num is the
    halting process.
  */
  lemma FreesItself(c: Cpu, stacks: seq<seq<nat>>)
    requires Running(c, stacks) && Placed(c, stacks)
    ensures Sound(Finished(c, 1).k) <==> c.current == c.stack
    ensures Finished(c, 1).k.pcbs[c.stack].slot.call == c.k.pcbs[c.stack].slot.call
  {
    var t, s := c.terminal, c.stack;
    FinishedFrom2(c);
    var closed := c.k.(pcbs := c.k.pcbs[s := Interrupted.Closed(c.k.pcbs[s])]);
    LinksWrite(c.k, stacks, s, Interrupted.Closed(c.k.pcbs[s]));
    PopExactly(closed, stacks, t, c.current);
  }

  lemma TopOnlyHere(stacks: seq<seq<nat>>, t: nat)
    requires InRange(stacks) && Distinct(stacks) && t < |stacks|
    ensures forall i :: 0 <= i < |stacks[t]| ==>
      1 <= stacks[t][i] <= PROCESS_NUM_MAX && OnlyHere(stacks, t, stacks[t][i])
  {
  }

  /** A tick before any statement, or between reading and using current_process_num. */
  lemma TurnBeforeFree(c: Cpu, stacks: seq<seq<nat>>, p: nat, es: seq<Entry>)
    requires Ready(c, stacks) && p <= 1 && Away(Halted(c, p), es) && RunAll(Halted(c, p), es).terminal == c.terminal
    ensures var r := RunAll(Halted(c, p), es);
      && r.stack == c.stack && Resumed(r) == es[0].here
      && (Sound(Finished(r, p).k) <==> (p == 1 ==> !Entered(es)))
      && Finished(r, p).k.pcbs[c.stack].slot.call == c.k.pcbs[c.stack].slot.call
  {
    var h, s, t := Halted(c, p), c.stack, c.terminal;
    assert p == 1 ==> h == c.(current := s) by { assert Halted(c, 0) == c; }
    TopOnlyHere(stacks, t);
    NeverStarted(h, es, stacks, s);
    var st := RunSpares(h, es, stacks, s);
    var r := RunAll(h, es);
    assert s in stacks[t];
    if p == 0 {
      FinishedStep(r, 0);
      FreesItself(Statement(r, 1), st);
    } else {
      FreesItself(r, st);
    }
  }

  // ---- while the process is still the terminal's, its slot free ----

  /** The same, but for terminal t's entries, which nobody reads while t does not run. */
  predicate Twins(a: Cpu, b: Cpu, t: nat)
    requires Wired(a) && Wired(b) && t < TERMINAL_NUM
  {
    && a.k.process == b.k.process && a.k.pcbs == b.k.pcbs && a.terminal == b.terminal && a.current == b.current
    && (forall u :: 0 <= u < TERMINAL_NUM && u != t ==> a.k.terms[u] == b.k.terms[u])
    && a.k.terms[t].flag == b.k.terms[t].flag
  }

  lemma TwinsPreempted(a: Cpu, b: Cpu, here: Context, t: nat)
    requires Wired(a) && Wired(b) && t < TERMINAL_NUM && Twins(a, b, t) && a.stack == b.stack
    ensures var x, y := Preempted(a, here), Preempted(b, here);
      Twins(x, y, t) && (x.terminal != t ==> x.stack == y.stack) && x.k.terms[t] == a.k.terms[t]
      && x.stack == x.k.terms[x.terminal].processNum
  {
    assert Raised(a.k.terms) == Raised(b.k.terms);
  }

  lemma TwinsStarted(a: Cpu, b: Cpu, program: Option<seq<Byte>>, call: Context, t: nat)
    requires Wired(a) && Wired(b) && t < TERMINAL_NUM && Twins(a, b, t) && a.stack == b.stack && a.terminal != t
    ensures var x, y := Started(a, program, call), Started(b, program, call);
      Twins(x, y, t) && x.stack == y.stack && x.terminal == a.terminal && x.k.terms[t] == a.k.terms[t]
    ensures StartedSlot(a, Start(program, call)) == StartedSlot(b, Start(program, call))
  {
  }

  lemma TwinsExited(a: Cpu, b: Cpu, call: Context, t: nat)
    requires Wired(a) && Wired(b) && t < TERMINAL_NUM && Twins(a, b, t) && a.stack == b.stack && a.terminal != t
    ensures var x, y := Exited(a, call), Exited(b, call);
      Twins(x, y, t) && x.stack == y.stack && x.terminal == a.terminal && x.k.terms[t] == a.k.terms[t]
    ensures StartedSlot(a, Exit(call)) == StartedSlot(b, Exit(call))
  {
    if a.k.terms[a.terminal].total <= 1 {
      TwinsStarted(Emptied(a), Emptied(b), SHELL, call, t);
    } else {
      HaltedAll(a);
      HaltedAll(b);
    }
  }

  lemma TwinsStep(a: Cpu, b: Cpu, e: Entry, t: nat)
    requires Wired(a) && Wired(b) && t < TERMINAL_NUM && Twins(a, b, t) && a.stack == b.stack
    requires e.Preempt? || a.terminal != t
    ensures var x, y := After(a, e), After(b, e);
      Twins(x, y, t) && (x.terminal != t ==> x.stack == y.stack) && x.k.terms[t] == a.k.terms[t]
    ensures e.Preempt? ==> After(a, e).stack == After(a, e).k.terms[After(a, e).terminal].processNum
    ensures !e.Preempt? ==> After(a, e).terminal == a.terminal
    ensures StartedSlot(a, e) == StartedSlot(b, e)
  {
    match e
    case Preempt(here) => TwinsPreempted(a, b, here, t);
    case Start(program, call) => TwinsStarted(a, b, program, call, t);
    case Exit(call) => TwinsExited(a, b, call, t);
  }

  /** Run alongside each other, the two stay twins and start the same processes. */
  predicate Alongside(a: Cpu, b: Cpu, es: seq<Entry>, x: nat)
    requires Wired(a) && Wired(b)
  {
    var r, w, t := RunAll(a, es), RunAll(b, es), a.terminal;
    && Twins(r, w, t) && r.k.terms[t] == a.k.terms[t] && LastCall(a, es, x) == LastCall(b, es, x)
    && (if r.terminal == t then r.stack == a.k.terms[t].processNum else r.stack == w.stack)
  }

  lemma FirstTwins(a: Cpu, b: Cpu, es: seq<Entry>, x: nat)
    requires Wired(a) && Wired(b) && Twins(a, b, a.terminal) && a.stack == b.stack && |es| == 1 && es[0].Preempt?
      && x > 0
    ensures Alongside(a, b, es, x)
  {
    RunOne(a, es, x);
    RunOne(b, es, x);
    TwinsStep(a, b, es[0], a.terminal);
  }

  lemma NextTwins(a: Cpu, b: Cpu, es: seq<Entry>, x: nat)
    requires Wired(a) && Wired(b) && |es| > 1 && Alongside(a, b, es[..|es| - 1], x)
    requires RunAll(a, es[..|es| - 1]).terminal != a.terminal
    ensures Alongside(a, b, es, x)
  {
    TwinsStep(RunAll(a, es[..|es| - 1]), RunAll(b, es[..|es| - 1]), es[|es| - 1], a.terminal);
  }

  lemma StillAway(c: Cpu, es: seq<Entry>)
    requires Wired(c) && |es| > 1 && Away(c, es[..|es| - 1]) && RunAll(c, es[..|es| - 1]).terminal != c.terminal
    ensures Away(c, es)
  {
    var front := es[..|es| - 1];
    forall j | 0 < j < |es| ensures RunAll(c, es[..j]).terminal != c.terminal {
      assert es[..j] == if j == |front| then front else front[..j];
    }
  }

  lemma {:induction false} TwinsRun(a: Cpu, b: Cpu, es: seq<Entry>, x: nat)
    requires Wired(a) && Wired(b) && Twins(a, b, a.terminal) && a.stack == b.stack && Away(a, es) && x > 0
    ensures Alongside(a, b, es, x) && Away(b, es)
    decreases |es|
  {
    if |es| == 1 {
      FirstTwins(a, b, es, x);
    } else {
      FrontAway(a, es);
      TwinsRun(a, b, es[..|es| - 1], x);
      NextTwins(a, b, es, x);
      StillAway(b, es);
    }
  }

  /** The states after the second and the third statement. */
  lemma HaltedFreed(c: Cpu, stacks: seq<seq<nat>>, p: nat)
    requires Ready(c, stacks) && (p == 2 || p == 3)
    ensures var t, s, term := c.terminal, c.stack, c.k.terms[c.terminal];
      Halted(c, p) == c.(k := Tables(c.k.process[s := false], c.k.pcbs,
                                     c.k.terms[t := term.(total := if p == 2 then term.total else term.total - 1)]),
                         current := s)
  {
    var t, s := c.terminal, c.stack;
    assert Halted(c, 0) == c;
    var one := c.(current := s);
    assert Halted(c, 1) == one;
    assert Halted(c, 2) == one.(k := one.k.(process := c.k.process[s := false]));
    assert c.k.terms[t].total > 0;
    if p == 3 { HaltedHalf(c); }
  }

  /** The same state with the terminal's entries as they will be when halt is through: those tables are sound. */
  function Ahead(c: Cpu, stacks: seq<seq<nat>>): (d: Cpu)
    requires Ready(c, stacks)
    ensures Wired(d)
  {
    PopExactly(c.k, stacks, c.terminal, c.stack);
    c.(k := Popped(c.k, c.terminal, c.stack), current := c.stack)
  }

  lemma AheadRuns(c: Cpu, stacks: seq<seq<nat>>, p: nat)
    requires Ready(c, stacks) && (p == 2 || p == 3)
    ensures var d, t := Ahead(c, stacks), c.terminal;
      && Running(d, Rest(stacks, t)) && Twins(Halted(c, p), d, t) && Halted(c, p).stack == d.stack == c.stack
      && OnlyHere(Rest(stacks, t), t, c.stack) && d.k.pcbs == c.k.pcbs
      && d.k.terms[t].processNum == stacks[t][1] && d.k.terms[t].total == |stacks[t]| - 1
      && c.k.pcbs[c.stack].prev == stacks[t][1]
  {
    HaltedFreed(c, stacks, p);
    PopExactly(c.k, stacks, c.terminal, c.stack);
    TopOnlyHere(stacks, c.terminal);
    assert Chained(c.k.pcbs, stacks[c.terminal]);
    assert Below(stacks[c.terminal], 0) == stacks[c.terminal][1];
  }

  /** The statements that are left make q, what the slot then has for a parent, the terminal's process. */
  lemma LeftToDo(r: Cpu, w: Cpu, st: seq<seq<nat>>, p: nat)
    requires (p == 2 || p == 3) && Running(w, st) && Wired(r) && w.terminal == r.terminal && Twins(r, w, w.terminal)
    requires r.k.terms[r.terminal].total == w.k.terms[w.terminal].total + (if p == 2 then 1 else 0)
    requires 1 <= r.stack <= PROCESS_NUM_MAX
    ensures Sound(Finished(r, p).k) <==> r.k.pcbs[r.stack].prev == w.k.terms[w.terminal].processNum
    ensures Finished(r, p).k.pcbs[r.stack].slot.call == r.k.pcbs[r.stack].slot.call
  {
    var t, s := r.terminal, r.stack;
    if p == 2 { FinishedFrom3(r); } else { FinishedFrom4(r); }
    var closed := w.k.(pcbs := w.k.pcbs[s := Interrupted.Closed(w.k.pcbs[s])]);
    LinksWrite(w.k, st, s, Interrupted.Closed(w.k.pcbs[s]));
    TopExactly(closed, st, t, r.k.pcbs[s].prev);
    assert Finished(r, p).k == WithTop(closed, t, r.k.pcbs[s].prev);
  }

  /** A tick while the freed slot is still the terminal's process. */
  lemma TurnWhileFreed(c: Cpu, stacks: seq<seq<nat>>, p: nat, es: seq<Entry>)
    requires Ready(c, stacks) && (p == 2 || p == 3) && Away(Halted(c, p), es) && c.stack > 0
    requires RunAll(Halted(c, p), es).terminal == c.terminal
    ensures var r := RunAll(Halted(c, p), es);
      && r.stack == c.stack
      && (Sound(Finished(r, p).k) <==> LastCall(Halted(c, p), es, c.stack).None?)
      && (LastCall(Halted(c, p), es, c.stack).None? ==>
            Resumed(r) == es[0].here && Finished(r, p).k.pcbs[c.stack].slot.call == c.k.pcbs[c.stack].slot.call)
  {
    var h, d, s, t := Halted(c, p), Ahead(c, stacks), c.stack, c.terminal;
    AheadRuns(c, stacks, p);
    HaltedFreed(c, stacks, p);
    TwinsRun(h, d, es, s);
    var st := RunSpares(d, es, Rest(stacks, t), s);
    assert stacks[t][1] == stacks[t][1..][0];
    LeftToDo(RunAll(h, es), RunAll(d, es), st, p);
  }

  // ---- when the parent is the terminal's process ----

  lemma HaltedLate(c: Cpu, stacks: seq<seq<nat>>, p: nat)
    requires Ready(c, stacks) && 4 <= p <= 7
    ensures var h, t, s := Halted(c, p), c.terminal, c.stack;
      && h.k == (var k := Ahead(c, stacks).k; if p < 6 then k
        else k.(pcbs := c.k.pcbs[s := Interrupted.Closed(c.k.pcbs[s])]))
      && h.stack == (if p < 7 then s else stacks[t][1])
    decreases p
  {
    PopExactly(c.k, stacks, c.terminal, c.stack);
    AheadRuns(c, stacks, 3);
    if p == 4 { HaltedFreed(c, stacks, 3); } else { HaltedLate(c, stacks, p - 1); }
  }

  lemma LateRuns(c: Cpu, stacks: seq<seq<nat>>, p: nat)
    requires Ready(c, stacks) && 4 <= p <= 7
    ensures var h, t := Halted(c, p), c.terminal;
      && Running(h, Rest(stacks, t)) && h.stack == (if p < 7 then c.stack else stacks[t][1])
      && forall x :: 0 <= x <= PROCESS_NUM_MAX ==>
           h.k.pcbs[x].slot.saved == c.k.pcbs[x].slot.saved && h.k.pcbs[x].slot.call == c.k.pcbs[x].slot.call
  {
    var t, s := c.terminal, c.stack;
    HaltedLate(c, stacks, p);
    AheadRuns(c, stacks, 3);
    assert Ahead(c, stacks).k.pcbs == c.k.pcbs;
    LinksWrite(Ahead(c, stacks).k, Rest(stacks, t), s, Interrupted.Closed(c.k.pcbs[s]));
  }

  /**
    A tick from then on: the parent's context is fetched, which is the interrupted one only when esp0
    is the parent's too.
  */
  lemma TurnAfterParent(c: Cpu, stacks: seq<seq<nat>>, p: nat, es: seq<Entry>)
    requires Ready(c, stacks) && 4 <= p <= 7 && Away(Halted(c, p), es) && 1 <= c.stack <= PROCESS_NUM_MAX
    requires RunAll(Halted(c, p), es).terminal == c.terminal
    ensures var r := RunAll(Halted(c, p), es);
      && r.stack == stacks[c.terminal][1] && Sound(r.k)
      && Resumed(r) == (if p < 7 then c.k.pcbs[stacks[c.terminal][1]].slot.saved else es[0].here)
      && r.k.pcbs[c.stack].slot.call == match LastCall(Halted(c, p), es, c.stack)
         case None => c.k.pcbs[c.stack].slot.call
         case Some(call) => call
  {
    var h, t, parent := Halted(c, p), c.terminal, stacks[c.terminal][1];
    LateRuns(c, stacks, p);
    var rest := Rest(stacks, t);
    assert rest[t][0] == parent && stacks[t][0] == c.stack;
    TopOnlyHere(stacks, t);
    TopOnlyHere(rest, t);
    NeverStarted(h, es, rest, parent);
    var st := RunSpares(h, es, rest, parent);
    var also := RunSpares(h, es, rest, c.stack);
    StandsOnce(stacks, t, 0, t, 1);
  }

  // ---- all together ----

  /**
    Halt is put aside after its first p statements, for a turn in which other terminals' programs execute
    and halt as they like. It goes on and ends as it should if and only if
    - nothing has been done yet (p == 0), or
    - current_process_num has been read but not used (1) and there was no execute or halt, or
    - the slot is free but the terminal's (2, 3), or all but the final jump is done (7), and no process has
      been started in the slot.
    Between the change of process_num and that of esp0 (4 to 6) it is always lost: the parent is resumed
    in its place, where it last lost the processor. Otherwise it is resumed, but leaves unsound tables or, at
    7, jumps into the execute of the process that took the slot.
  */
  lemma TurnInHalt(c: Cpu, stacks: seq<seq<nat>>, p: nat, es: seq<Entry>)
    requires Ready(c, stacks) && p <= 7 && Away(Halted(c, p), es) && RunAll(Halted(c, p), es).terminal == c.terminal
    ensures var s, parent, t := c.stack, stacks[c.terminal][1], c.terminal;
      var r := RunAll(Halted(c, p), es);
      var f, taken := Finished(r, p), LastCall(Halted(c, p), es, s);
      && (4 <= p <= 6 ==> r.stack == parent && Resumed(r) == c.k.pcbs[parent].slot.saved)
      && (p <= 1 ==> Resumed(r) == es[0].here && f.k.pcbs[s].slot.call == c.k.pcbs[s].slot.call
                     && (Sound(f.k) <==> p == 0 || !Entered(es)))
      && (2 <= p <= 3 ==> (Sound(f.k) <==> taken.None?)
                          && (taken.None? ==>
                                Resumed(r) == es[0].here && f.k.pcbs[s].slot.call == c.k.pcbs[s].slot.call))
      && (p == 7 ==> Resumed(r) == es[0].here && Sound(f.k)
                     && f.k.pcbs[s].slot.call == if taken.Some? then taken.value else c.k.pcbs[s].slot.call)
  {
    TopOnlyHere(stacks, c.terminal);
    assert c.stack == stacks[c.terminal][0];
    if p <= 1 {
      TurnBeforeFree(c, stacks, p, es);
    } else if p <= 3 {
      TurnWhileFreed(c, stacks, p, es);
    } else {
      TurnAfterParent(c, stacks, p, es);
    }
  }

  /** The seven statements together are the halt of the atomic machine. */
  lemma HaltedIsHalt(c: Cpu, m: State)
    requires Wired(c) && Describes(c.k, m) && Valid(m) && FlagsShown(c.k.terms, m) && c.terminal == m.running
    requires c.page == c.stack == Top(m) && |m.stacks[m.running]| > 1
    ensures Ready(c, m.stacks)
    ensures Describes(Halted(c, 7).k, DoHalt(m, m.slots[Top(m)].call))
    ensures Halted(c, 7).page == Halted(c, 7).stack == m.stacks[m.running][1]
  {
    DescribesLinks(c.k, m);
    ReturnLinks(c.k, m);
    ParentOf(c.k, m);
    HaltedAll(c);
    assert Halted(c, 7).k == ReturnTables(c.k, m.running, Top(m));
  }
}
