/**
  When slot flags, parent links and counters fit together at all: whether there are three stacks of
  processes that they show. This is what is left of the tables' meaning when an entry into the kernel
  has been interrupted half-way, so each lemma says exactly which last assignment leaves sound tables.
*/
module ProcessLinks {
  import opened Common
  import opened Machine
  import opened ProcessTables
  import Runs

  /** A state with these stacks; its other fields do not matter here. */
  function Of(stacks: seq<seq<nat>>): State { State(stacks, 0, 0, []) }

  predicate On(stacks: seq<seq<nat>>, s: nat)
    requires |stacks| == TERMINAL_NUM
  {
    InUse(Of(stacks), s)
  }

  /** The tables show these stacks; what the slots remember does not matter. */
  predicate Links(k: Tables, stacks: seq<seq<nat>>) {
    && Sized(k) && |stacks| == TERMINAL_NUM && InRange(stacks) && Distinct(stacks)
    && UseShown(k.process, Of(stacks)) && CountsShown(k.terms, Of(stacks)) && ChainsShown(k.pcbs, stacks)
  }

  /** They show some stacks. */
  ghost predicate Sound(k: Tables) { exists stacks :: Links(k, stacks) }

  lemma DescribesLinks(k: Tables, m: State)
    requires Describes(k, m)
    ensures Links(k, m.stacks) && Sound(k)
  {
    assert Links(k, m.stacks);
  }

  // ---- there is only one way to read the tables ----

  predicate Positive(stack: seq<nat>) { forall i :: 0 <= i < |stack| ==> stack[i] >= 1 }

  lemma {:induction false} ChainUnique(pcbs: seq<Pcb>, a: seq<nat>, b: seq<nat>)
    requires Chained(pcbs, a) && Chained(pcbs, b) && Positive(a) && Positive(b) && TopOf(a) == TopOf(b)
    ensures a == b
    decreases |a|
  {
    if a != [] && b != [] {
      ChainedTail(pcbs, a);
      ChainedTail(pcbs, b);
      assert Below(a, 0) == Below(b, 0);
      ChainUnique(pcbs, a[1..], b[1..]);
      assert a == [a[0]] + a[1..] && b == [b[0]] + b[1..];
    }
  }

  lemma StacksUnique(pcbs: seq<Pcb>, terms: seq<Terminal>, a: seq<seq<nat>>, b: seq<seq<nat>>)
    requires |terms| == |a| == |b| == TERMINAL_NUM && InRange(a) && InRange(b)
    requires ChainsShown(pcbs, a) && ChainsShown(pcbs, b) && CountsShown(terms, Of(a)) && CountsShown(terms, Of(b))
    ensures a == b
  {
    forall t | 0 <= t < TERMINAL_NUM ensures a[t] == b[t] { ChainUnique(pcbs, a[t], b[t]); }
  }

  lemma {:induction false} ChainedFrom(pcbs: seq<Pcb>, stack: seq<nat>, i: nat)
    requires Chained(pcbs, stack) && i <= |stack|
    ensures Chained(pcbs, stack[i..])
    decreases i
  {
    if i == 0 {
      assert stack[0..] == stack;
    } else {
      ChainedFrom(pcbs, stack, i - 1);
      ChainedTail(pcbs, stack[i - 1..]);
      assert stack[i - 1..][1..] == stack[i..];
    }
  }

  // ---- how sound tables are carried along ----

  /** The slot flag, the control block and the terminal's entries of a new process. */
  function Pushed(k: Tables, t: nat, s: nat, p: Pcb, flag: bool): Tables
    requires Sized(k) && t < TERMINAL_NUM && s <= PROCESS_NUM_MAX
  {
    Tables(k.process[s := true], k.pcbs[s := p], k.terms[t := Terminal(s, flag, k.terms[t].total + 1)])
  }

  lemma UsePush(process: seq<bool>, stacks: seq<seq<nat>>, t: nat, s: nat)
    requires |process| == PROCESS_NUM_MAX + 1 && |stacks| == TERMINAL_NUM && UseShown(process, Of(stacks))
    requires t < TERMINAL_NUM && 1 <= s <= PROCESS_NUM_MAX
    ensures UseShown(process[s := true], Of(stacks[t := [s] + stacks[t]]))
  {
    var pushed := stacks[t := [s] + stacks[t]];
    forall x | 1 <= x <= PROCESS_NUM_MAX ensures On(pushed, x) <==> x == s || On(stacks, x) {
      assert x in [s] + stacks[t] <==> x == s || x in stacks[t];
    }
  }

  lemma LinksPush(k: Tables, stacks: seq<seq<nat>>, t: nat, s: nat, p: Pcb, flag: bool)
    requires Links(k, stacks) && t < TERMINAL_NUM && 1 <= s <= PROCESS_NUM_MAX && !k.process[s]
    requires p.num == s && p.prev == k.terms[t].processNum
    ensures Links(Pushed(k, t, s, p, flag), stacks[t := [s] + stacks[t]])
  {
    assert !On(stacks, s);
    PushStacks(stacks, t, s);
    PushChains(k.pcbs, stacks, t, s, p);
    UsePush(k.process, stacks, t, s);
  }

  /** The assignments of a process's end: `freed` is the slot that is marked free. */
  function Popped(k: Tables, t: nat, freed: nat): Tables
    requires Sized(k) && t < TERMINAL_NUM && freed <= PROCESS_NUM_MAX
    requires k.terms[t].total > 0 && k.terms[t].processNum <= PROCESS_NUM_MAX
  {
    Tables(k.process[freed := false], k.pcbs,
           k.terms[t := Terminal(k.pcbs[k.terms[t].processNum].prev, k.terms[t].flag, k.terms[t].total - 1)])
  }

  lemma PopParts(k: Tables, stacks: seq<seq<nat>>, t: nat)
    requires Links(k, stacks) && t < TERMINAL_NUM && stacks[t] != []
    ensures k.terms[t].total > 0 && 1 <= k.terms[t].processNum <= PROCESS_NUM_MAX
    ensures var popped := stacks[t := stacks[t][1..]];
      && InRange(popped) && Distinct(popped) && ChainsShown(k.pcbs, popped) && !On(popped, stacks[t][0])
      && CountsShown(Popped(k, t, 0).terms, Of(popped))
  {
    PopStacks(stacks, t);
    PopChains(k.pcbs, stacks, t);
    assert Chained(k.pcbs, stacks[t]);
    assert k.pcbs[stacks[t][0]].prev == Below(stacks[t], 0) == TopOf(stacks[t][1..]);
  }

  lemma OtherFreed(k: Tables, stacks: seq<seq<nat>>, t: nat, freed: nat, other: seq<seq<nat>>)
    requires Links(k, stacks) && t < TERMINAL_NUM && stacks[t] != [] && freed <= PROCESS_NUM_MAX
    requires k.terms[t].total > 0 && k.terms[t].processNum <= PROCESS_NUM_MAX
    ensures Links(Popped(k, t, freed), other) ==> freed == stacks[t][0]
  {
    PopParts(k, stacks, t);
    var popped := stacks[t := stacks[t][1..]];
    if Links(Popped(k, t, freed), other) { StacksUnique(k.pcbs, Popped(k, t, freed).terms, popped, other); }
    assert On(stacks, stacks[t][0]);
  }

  /** Ending a terminal's top process leaves sound tables if and only if it is its own slot that is freed. */
  lemma PopExactly(k: Tables, stacks: seq<seq<nat>>, t: nat, freed: nat)
    requires Links(k, stacks) && t < TERMINAL_NUM && stacks[t] != [] && freed <= PROCESS_NUM_MAX
    ensures k.terms[t].total > 0 && k.terms[t].processNum <= PROCESS_NUM_MAX
    ensures freed == stacks[t][0] ==> Links(Popped(k, t, freed), stacks[t := stacks[t][1..]])
    ensures Sound(Popped(k, t, freed)) <==> freed == stacks[t][0]
  {
    PopParts(k, stacks, t);
    var popped, s := stacks[t := stacks[t][1..]], stacks[t][0];
    if freed == s {
      forall x | 1 <= x <= PROCESS_NUM_MAX ensures On(popped, x) <==> x != s && On(stacks, x) {
        assert x in stacks[t] <==> x == s || x in stacks[t][1..];
      }
    } else {
      var after := Popped(k, t, freed);
      forall other ensures !Links(after, other) { OtherFreed(k, stacks, t, freed, other); }
    }
  }

  /** A slot that is on no stack may remember anything, one that is on a stack anything but other links. */
  lemma LinksWrite(k: Tables, stacks: seq<seq<nat>>, s: nat, p: Pcb)
    requires Links(k, stacks) && s <= PROCESS_NUM_MAX
    requires !On(stacks, s) || (p.prev == k.pcbs[s].prev && p.num == k.pcbs[s].num)
    ensures Links(k.(pcbs := k.pcbs[s := p]), stacks)
  {
    forall t | 0 <= t < TERMINAL_NUM ensures Chained(k.pcbs[s := p], stacks[t]) {
      assert Chained(k.pcbs, stacks[t]);
      ChainedApart(k.pcbs, stacks[t], s, p);
    }
  }

  // ---- a wrong parent ----

  function WithTop(k: Tables, t: nat, q: nat): Tables
    requires Sized(k) && t < TERMINAL_NUM
  {
    k.(terms := k.terms[t := k.terms[t].(processNum := q)])
  }

  lemma ChainMeets(pcbs: seq<Pcb>, a: seq<nat>, i: nat, b: seq<nat>)
    requires Chained(pcbs, a) && Chained(pcbs, b) && Positive(a) && Positive(b)
    requires i < |a| && b != [] && a[i] == b[0]
    ensures |b| == |a| - i
  {
    ChainedFrom(pcbs, a, i);
    ChainUnique(pcbs, a[i..], b);
  }

  lemma WhereOn(stacks: seq<seq<nat>>, s: nat) returns (u: nat, i: nat)
    requires |stacks| == TERMINAL_NUM && On(stacks, s)
    ensures u < TERMINAL_NUM && i < |stacks[u]| && stacks[u][i] == s
  {
    u := if s in stacks[0] then 0 else if s in stacks[1] then 1 else 2;
    i :| 0 <= i < |stacks[u]| && stacks[u][i] == s;
  }

  lemma AllChained(pcbs: seq<Pcb>, stacks: seq<seq<nat>>, t: nat)
    requires ChainsShown(pcbs, stacks) && InRange(stacks) && t < |stacks|
    ensures Chained(pcbs, stacks[t]) && Positive(stacks[t])
  {
  }

  lemma StandsOnce(stacks: seq<seq<nat>>, t: nat, i: nat, u: nat, j: nat)
    requires Distinct(stacks) && t < |stacks| && u < |stacks|
    ensures i < |stacks[t]| && j < |stacks[u]| && stacks[t][i] == stacks[u][j] ==> t == u && i == j
  {
  }

  lemma WrongTop(k: Tables, stacks: seq<seq<nat>>, t: nat, q: nat, other: seq<seq<nat>>)
    requires Links(k, stacks) && t < TERMINAL_NUM
    ensures Links(WithTop(k, t, q), other) ==> q == k.terms[t].processNum
  {
    if Links(WithTop(k, t, q), other) && stacks[t] != [] {
      assert |other[t]| == |stacks[t]| && other[t][0] == q && On(other, q);
      var u, i := WhereOn(stacks, q);
      AllChained(k.pcbs, stacks, u);
      AllChained(k.pcbs, other, t);
      ChainMeets(k.pcbs, stacks[u], i, other[t]);
      StandsOnce(other, u, i, t, 0);
      if u != t {
        AllChained(k.pcbs, other, u);
        ChainUnique(k.pcbs, stacks[u], other[u]);
      }
    }
  }

  /** If a terminal is given another top process, whoever it is, the tables are no longer sound. */
  lemma TopExactly(k: Tables, stacks: seq<seq<nat>>, t: nat, q: nat)
    requires Links(k, stacks) && t < TERMINAL_NUM
    ensures Sound(WithTop(k, t, q)) <==> q == k.terms[t].processNum
  {
    if q == k.terms[t].processNum {
      assert WithTop(k, t, q) == k;
    } else {
      forall other ensures !Links(WithTop(k, t, q), other) { WrongTop(k, stacks, t, q, other); }
    }
  }

  // ---- a late start ----

  /** The counters add up to the number of slots marked used. */
  lemma UsedCounted(k: Tables, stacks: seq<seq<nat>>)
    requires Links(k, stacks)
    ensures k.terms[0].total + k.terms[1].total + k.terms[2].total
         == |set s | 1 <= s <= PROCESS_NUM_MAX && k.process[s]|
  {
    Runs.CountUsed(Of(stacks));
    assert (set s | 1 <= s <= PROCESS_NUM_MAX && k.process[s]) == Runs.UsedSlots(Of(stacks));
  }

  lemma TakenSlot(k: Tables, stacks: seq<seq<nat>>, t: nat, s: nat, p: Pcb, flag: bool, other: seq<seq<nat>>)
    requires Links(k, stacks) && t < TERMINAL_NUM && 1 <= s <= PROCESS_NUM_MAX
    ensures Links(Pushed(k, t, s, p, flag), other) ==> !k.process[s]
  {
    var r := Pushed(k, t, s, p, flag);
    UsedCounted(k, stacks);
    if Links(r, other) { UsedCounted(r, other); }
    assert k.process[s] ==> r.process == k.process;
  }

  /** Flags play no part in what the tables show. */
  lemma FlagsAside(a: Tables, b: Tables, stacks: seq<seq<nat>>)
    requires Links(a, stacks) && a.process == b.process && a.pcbs == b.pcbs && |b.terms| == |a.terms|
    requires forall t :: 0 <= t < |a.terms| ==>
      a.terms[t].processNum == b.terms[t].processNum && a.terms[t].total == b.terms[t].total
    ensures Links(b, stacks)
  {
  }

  lemma WrongParent(k: Tables, stacks: seq<seq<nat>>, t: nat, s: nat, p: Pcb, flag: bool, other: seq<seq<nat>>)
    requires Links(k, stacks) && t < TERMINAL_NUM && 1 <= s <= PROCESS_NUM_MAX && p.num == s && !k.process[s]
    ensures Links(Pushed(k, t, s, p, flag), other) ==> p.prev == k.terms[t].processNum
  {
    var r := Pushed(k, t, s, p, flag);
    if Links(r, other) {
      PopExactly(r, other, t, s);
      var popped := other[t := other[t][1..]];
      var back := Popped(r, t, s);
      LinksWrite(back, popped, s, k.pcbs[s]);
      assert back.pcbs[s := k.pcbs[s]] == k.pcbs;
      FlagsAside(back.(pcbs := k.pcbs), WithTop(k, t, p.prev), popped);
      WrongTop(k, stacks, t, p.prev, popped);
    }
  }

  /**
    A process is entered into slot s of terminal t, p.prev being its parent link: the tables stay sound
    if and only if the parent is the terminal's top process and the slot is free.
  */
  lemma PushExactly(k: Tables, stacks: seq<seq<nat>>, t: nat, s: nat, p: Pcb, flag: bool)
    requires Links(k, stacks) && t < TERMINAL_NUM && 1 <= s <= PROCESS_NUM_MAX && p.num == s
    ensures Sound(Pushed(k, t, s, p, flag)) <==> p.prev == k.terms[t].processNum && !k.process[s]
  {
    var r := Pushed(k, t, s, p, flag);
    if p.prev == k.terms[t].processNum && !k.process[s] {
      LinksPush(k, stacks, t, s, p, flag);
    } else {
      forall other ensures !Links(r, other) {
        if k.process[s] { TakenSlot(k, stacks, t, s, p, flag, other); }
          else { WrongParent(k, stacks, t, s, p, flag, other); }
      }
    }
  }
}
