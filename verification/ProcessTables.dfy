/**
  The tables in which the kernel keeps the process stacks: the slot flags, the control blocks with
  their parent links, and the per-terminal counters (syscall.h, lib.h). `process` has entries 0 to 6,
  entry 0 being taken.
*/
module ProcessTables {
  import opened Common
  import opened Bytes
  import opened Machine
  import Runs

  /** pcb_t: what the slot remembers, the parent link and the process's own number. */
  datatype Pcb = Pcb(slot: Slot, prev: nat, num: nat)

  datatype Terminal = Terminal(processNum: nat, flag: bool, total: nat)

  datatype Tables = Tables(process: seq<bool>, pcbs: seq<Pcb>, terms: seq<Terminal>)

  /** The process above which s[i] was started; 0 if it is a terminal's first. */
  function Below(s: seq<nat>, i: nat): nat { if i + 1 < |s| then s[i + 1] else 0 }

  function TopOf(s: seq<nat>): nat { if s == [] then 0 else s[0] }

  predicate Sized(k: Tables) {
    |k.process| == PROCESS_NUM_MAX + 1 && |k.pcbs| == PROCESS_NUM_MAX + 1 && |k.terms| == TERMINAL_NUM
  }

  /** The parent links of one terminal's processes. */
  predicate Chained(pcbs: seq<Pcb>, stack: seq<nat>) {
    forall i {:trigger Below(stack, i)} :: 0 <= i < |stack| ==>
      stack[i] < |pcbs| && pcbs[stack[i]].num == stack[i] && pcbs[stack[i]].prev == Below(stack, i)
  }

  predicate UseShown(process: seq<bool>, m: State)
    requires |process| == PROCESS_NUM_MAX + 1 && |m.stacks| == TERMINAL_NUM
  {
    process[0] && forall s :: 1 <= s <= PROCESS_NUM_MAX ==> (process[s] <==> InUse(m, s))
  }

  predicate SlotsShown(pcbs: seq<Pcb>, m: State)
    requires |pcbs| == |m.slots| == PROCESS_NUM_MAX + 1
  {
    forall s :: 0 <= s <= PROCESS_NUM_MAX ==> pcbs[s].slot == m.slots[s]
  }

  predicate CountsShown(terms: seq<Terminal>, m: State)
    requires |terms| == |m.stacks| == TERMINAL_NUM
  {
    forall t :: 0 <= t < TERMINAL_NUM ==> terms[t].processNum == TopOf(m.stacks[t]) && terms[t].total == |m.stacks[t]|
  }

  predicate ChainsShown(pcbs: seq<Pcb>, stacks: seq<seq<nat>>) {
    forall t :: 0 <= t < |stacks| ==> Chained(pcbs, stacks[t])
  }

  /** The tables describe the stacks of m. */
  predicate Describes(k: Tables, m: State) {
    && Shape(m) && Sized(k) && UseShown(k.process, m) && SlotsShown(k.pcbs, m) && CountsShown(k.terms, m)
    && ChainsShown(k.pcbs, m.stacks)
  }

  /** Between kernel entries a terminal's flag is up exactly when it has a process. */
  predicate FlagsShown(terms: seq<Terminal>, m: State)
    requires |terms| == |m.stacks| == TERMINAL_NUM
  {
    forall t :: 0 <= t < TERMINAL_NUM ==> (terms[t].flag <==> m.stacks[t] != [])
  }

  /** The process reached from p over k parent links. */
  function Ancestor(pcbs: seq<Pcb>, p: nat, k: nat): nat {
    if k == 0 then p
    else
      var a := Ancestor(pcbs, p, k - 1);
      if a < |pcbs| then pcbs[a].prev else 0
  }

  lemma {:induction false} AncestorIsStack(pcbs: seq<Pcb>, stack: seq<nat>, k: nat)
    requires Chained(pcbs, stack) && stack != [] && k <= |stack|
    ensures Ancestor(pcbs, stack[0], k) == if k < |stack| then stack[k] else 0
  {
    if k > 0 {
      AncestorIsStack(pcbs, stack, k - 1);
      assert Below(stack, k - 1) == if k < |stack| then stack[k] else 0;
    }
  }

  lemma AncestorOf(k: Tables, m: State, t: nat, i: nat)
    requires Describes(k, m) && t < TERMINAL_NUM && i <= k.terms[t].total
    ensures k.terms[t].total == |m.stacks[t]|
    ensures Ancestor(k.pcbs, k.terms[t].processNum, i) == if i < |m.stacks[t]| then m.stacks[t][i] else 0
  {
    assert Chained(k.pcbs, m.stacks[t]);
    if m.stacks[t] != [] { AncestorIsStack(k.pcbs, m.stacks[t], i); }
  }

  /**
    From a terminal's process number the parent links run through exactly `total` used slots and then
    reach 0.
  */
  lemma ChainRuns(k: Tables, m: State, t: nat, i: nat)
    requires Describes(k, m) && t < TERMINAL_NUM && i < k.terms[t].total
    ensures var a := Ancestor(k.pcbs, k.terms[t].processNum, i); 1 <= a <= PROCESS_NUM_MAX && k.process[a]
    ensures Ancestor(k.pcbs, k.terms[t].processNum, k.terms[t].total) == 0
  {
    AncestorOf(k, m, t, i);
    AncestorOf(k, m, t, k.terms[t].total);
    assert m.stacks[t][i] in m.stacks[t];
    assert InUse(m, m.stacks[t][i]);
  }

  /** No slot is on two chains, or twice on one. */
  lemma ChainsApart(k: Tables, m: State, t: nat, i: nat, u: nat, j: nat)
    requires Describes(k, m) && t < TERMINAL_NUM && i < k.terms[t].total && u < TERMINAL_NUM && j < k.terms[u].total
    ensures Ancestor(k.pcbs, k.terms[t].processNum, i) == Ancestor(k.pcbs, k.terms[u].processNum, j)
       <==> t == u && i == j
  {
    AncestorOf(k, m, t, i);
    AncestorOf(k, m, u, j);
  }

  /** Every slot marked used is on a chain. */
  lemma UsedSlotsOnChains(k: Tables, m: State, s: nat) returns (t: nat, i: nat)
    requires Describes(k, m) && 1 <= s <= PROCESS_NUM_MAX && k.process[s]
    ensures t < TERMINAL_NUM && i < k.terms[t].total && Ancestor(k.pcbs, k.terms[t].processNum, i) == s
  {
    t := if s in m.stacks[0] then 0 else if s in m.stacks[1] then 1 else 2;
    i :| 0 <= i < |m.stacks[t]| && m.stacks[t][i] == s;
    AncestorOf(k, m, t, i);
  }

  /** The per-terminal counts add up to the number of slots marked used. */
  lemma CountsAddUp(k: Tables, m: State)
    requires Describes(k, m)
    ensures k.terms[0].total + k.terms[1].total + k.terms[2].total
         == |set s | 1 <= s <= PROCESS_NUM_MAX && k.process[s]|
  {
    Runs.CountUsed(m);
    assert Runs.UsedSlots(m) == set s | 1 <= s <= PROCESS_NUM_MAX && k.process[s];
  }

  // ---- how the tables follow the stacks ----

  /** The assignments of execute. */
  function PushTables(k: Tables, t: nat, s: nat, argument: seq<Byte>, call: Context): Tables
    requires Sized(k) && t < TERMINAL_NUM && s <= PROCESS_NUM_MAX && |k.pcbs[s].slot.fds| == FD_N
  {
    Tables(k.process[s := true],
           k.pcbs[s := Pcb(k.pcbs[s].slot.(fds := StartFds(k.pcbs[s].slot.fds), call := call, argument := argument),
                           k.terms[t].processNum, s)],
           k.terms[t := Terminal(s, true, k.terms[t].total + 1)])
  }

  lemma ChainedPush(pcbs: seq<Pcb>, stack: seq<nat>, s: nat, p: Pcb)
    requires Chained(pcbs, stack) && s < |pcbs| && s !in stack && p.num == s && p.prev == TopOf(stack)
    ensures Chained(pcbs[s := p], [s] + stack)
  {
    forall i | 0 <= i < |stack| + 1
      ensures ([s] + stack)[i] < |pcbs| && pcbs[s := p][([s] + stack)[i]].num == ([s] + stack)[i]
      ensures pcbs[s := p][([s] + stack)[i]].prev == Below([s] + stack, i)
    {
      if i > 0 { assert Below([s] + stack, i) == Below(stack, i - 1); }
    }
  }

  lemma ChainedApart(pcbs: seq<Pcb>, stack: seq<nat>, s: nat, p: Pcb)
    requires Chained(pcbs, stack) && s < |pcbs|
    requires s !in stack || (pcbs[s].prev == p.prev && pcbs[s].num == p.num)
    ensures Chained(pcbs[s := p], stack)
  {
    forall i | 0 <= i < |stack|
      ensures stack[i] < |pcbs| && pcbs[s := p][stack[i]].num == stack[i]
        && pcbs[s := p][stack[i]].prev == Below(stack, i)
    {
      var below := Below(stack, i);
      assert stack[i] == s ==> s in stack;
    }
  }

  lemma PushChains(pcbs: seq<Pcb>, stacks: seq<seq<nat>>, t: nat, s: nat, p: Pcb)
    requires ChainsShown(pcbs, stacks) && t < |stacks| && s < |pcbs| && p.num == s && p.prev == TopOf(stacks[t])
    requires forall u :: 0 <= u < |stacks| ==> s !in stacks[u]
    ensures ChainsShown(pcbs[s := p], stacks[t := [s] + stacks[t]])
  {
    var pushed := stacks[t := [s] + stacks[t]];
    forall u | 0 <= u < |stacks| ensures Chained(pcbs[s := p], pushed[u]) {
      assert Chained(pcbs, stacks[u]);
      if u == t { ChainedPush(pcbs, stacks[u], s, p); } else { ChainedApart(pcbs, stacks[u], s, p); }
    }
  }

  lemma PushUseShown(process: seq<bool>, m: State, argument: seq<Byte>, call: Context)
    requires |process| == PROCESS_NUM_MAX + 1 && Shape(m) && UseShown(process, m) && LeastFree(m, 1) <= PROCESS_NUM_MAX
    ensures UseShown(process[LeastFree(m, 1) := true], Push(m, argument, call))
  {
    forall s | 1 <= s <= PROCESS_NUM_MAX
      ensures process[LeastFree(m, 1) := true][s] <==> InUse(Push(m, argument, call), s)
    {
      PushUses(m, argument, call, s);
    }
  }

  lemma PushCounts(k: Tables, m: State, argument: seq<Byte>, call: Context)
    requires Describes(k, m) && LeastFree(m, 1) <= PROCESS_NUM_MAX
    ensures var s := LeastFree(m, 1);
      CountsShown(k.terms[m.running := Terminal(s, true, k.terms[m.running].total + 1)], Push(m, argument, call))
  {
  }

  /** execute's assignments carry the tables along with the new process on the stack. */
  lemma PushLinks(k: Tables, m: State, argument: seq<Byte>, call: Context)
    requires Describes(k, m) && LeastFree(m, 1) <= PROCESS_NUM_MAX
    ensures |k.pcbs[LeastFree(m, 1)].slot.fds| == FD_N
    ensures Describes(PushTables(k, m.running, LeastFree(m, 1), argument, call), Push(m, argument, call))
    ensures Push(m, argument, call).stacks[m.running] != [] && Top(Push(m, argument, call)) == LeastFree(m, 1)
  {
    var s := LeastFree(m, 1);
    assert k.pcbs[s].slot == m.slots[s];
    var r := PushTables(k, m.running, s, argument, call);
    PushShape(m, argument, call);
    PushChains(k.pcbs, m.stacks, m.running, s, r.pcbs[s]);
    PushUseShown(k.process, m, argument, call);
    PushCounts(k, m, argument, call);
  }

  /** The assignments of halt to the slot flags and the terminal. */
  function PopTables(k: Tables, t: nat, s: nat): Tables
    requires Sized(k) && t < TERMINAL_NUM && s <= PROCESS_NUM_MAX && k.terms[t].total > 0
  {
    Tables(k.process[s := false], k.pcbs,
           k.terms[t := Terminal(k.pcbs[s].prev, k.terms[t].flag, k.terms[t].total - 1)])
  }

  lemma ChainedTail(pcbs: seq<Pcb>, stack: seq<nat>)
    requires Chained(pcbs, stack) && stack != []
    ensures Chained(pcbs, stack[1..])
  {
    forall i | 0 <= i < |stack| - 1
      ensures var s := stack[1..][i]; s < |pcbs| && pcbs[s].num == s && pcbs[s].prev == Below(stack[1..], i)
    {
      assert Below(stack[1..], i) == Below(stack, i + 1);
    }
  }

  lemma PopChains(pcbs: seq<Pcb>, stacks: seq<seq<nat>>, t: nat)
    requires ChainsShown(pcbs, stacks) && t < |stacks| && stacks[t] != []
    ensures ChainsShown(pcbs, stacks[t := stacks[t][1..]])
  {
    var popped := stacks[t := stacks[t][1..]];
    forall u | 0 <= u < |stacks| ensures Chained(pcbs, popped[u]) {
      assert Chained(pcbs, stacks[u]);
      if u == t { ChainedTail(pcbs, stacks[t]); }
    }
  }

  /** halt's assignments carry the tables along with the process leaving the stack. */
  lemma PopLinks(k: Tables, m: State)
    requires Describes(k, m) && m.stacks[m.running] != []
    ensures k.terms[m.running].total > 0 && Describes(PopTables(k, m.running, Top(m)), Pop(m))
  {
    PopShape(m);
    assert Chained(k.pcbs, m.stacks[m.running]);
    assert k.pcbs[Top(m)].prev == Below(m.stacks[m.running], 0) == TopOf(m.stacks[m.running][1..]);
    PopChains(k.pcbs, m.stacks, m.running);
    forall x | 1 <= x <= PROCESS_NUM_MAX ensures k.process[Top(m) := false][x] <==> InUse(Pop(m), x) {
      PopUses(m, x);
    }
  }

  /** Writing what a slot remembers touches no link. */
  lemma SlotLinks(k: Tables, m: State, s: nat, slot: Slot)
    requires Describes(k, m) && s <= PROCESS_NUM_MAX && |slot.fds| == FD_N
    ensures Describes(k.(pcbs := k.pcbs[s := k.pcbs[s].(slot := slot)]), m.(slots := m.slots[s := slot]))
  {
    var pcbs := k.pcbs[s := k.pcbs[s].(slot := slot)];
    forall t | 0 <= t < TERMINAL_NUM ensures Chained(pcbs, m.stacks[t]) {
      assert Chained(k.pcbs, m.stacks[t]);
      ChainedApart(k.pcbs, m.stacks[t], s, pcbs[s]);
    }
  }

  lemma ParentOf(k: Tables, m: State)
    requires Describes(k, m) && |m.stacks[m.running]| > 1
    ensures k.pcbs[Top(m)].prev == m.stacks[m.running][1] && 1 <= m.stacks[m.running][1] <= PROCESS_NUM_MAX
  {
    assert Chained(k.pcbs, m.stacks[m.running]);
    assert Below(m.stacks[m.running], 0) == m.stacks[m.running][1];
  }

  /** The assignments of a halt that returns to the parent. */
  function ReturnTables(k: Tables, t: nat, s: nat): Tables
    requires Sized(k) && t < TERMINAL_NUM && s <= PROCESS_NUM_MAX && k.terms[t].total > 0
  {
    PopTables(k, t, s).(pcbs := k.pcbs[s := k.pcbs[s].(slot := k.pcbs[s].slot.(fds := EndFds(k.pcbs[s].slot.fds)))])
  }

  lemma ReturnLinks(k: Tables, m: State)
    requires Describes(k, m) && Valid(m) && FlagsShown(k.terms, m) && |m.stacks[m.running]| > 1
    ensures k.terms[m.running].total > 0 && 1 <= k.pcbs[Top(m)].prev <= PROCESS_NUM_MAX
    ensures var r, after := DoHalt(m, m.slots[Top(m)].call), ReturnTables(k, m.running, Top(m));
      && Valid(r) && Describes(after, r) && FlagsShown(after.terms, r)
      && r.running == m.running && r.displayed == m.displayed && Top(r) == k.pcbs[Top(m)].prev
  {
    ParentOf(k, m);
    PopLinks(k, m);
    PopShape(m);
    SlotLinks(PopTables(k, m.running, Top(m)), Pop(m), Top(m), m.slots[Top(m)].(fds := EndFds(m.slots[Top(m)].fds)));
  }

  /** The tables in the middle of halt, when a terminal's last process is gone and its shell not yet there. */
  lemma PopForShell(k: Tables, m: State)
    requires Describes(k, m) && |m.stacks[m.running]| == 1
    ensures k.terms[m.running].processNum == Top(m) && k.terms[m.running].total == 1
    ensures LeastFree(Pop(m), 1) <= PROCESS_NUM_MAX
    ensures Describes(Tables(k.process[Top(m) := false], k.pcbs,
                             k.terms[m.running := k.terms[m.running].(total := 0, processNum := 0)]), Pop(m))
  {
    PopLinks(k, m);
    PopShape(m);
    assert Chained(k.pcbs, m.stacks[m.running]);
    assert Below(m.stacks[m.running], 0) == 0;
  }
}
