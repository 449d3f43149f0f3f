/**
  Three terminals share one video memory (lib.c, keyboard.c): the displayed terminal's screen is in
  the hardware, the others' in backing stores, and a switch copies both ways.
*/
module Video {
  import opened Common
  import opened Bytes
  import opened Screen

  datatype Console = Console(video: seq<Byte>, stores: seq<seq<Byte>>, cursors: seq<Cursor>, running: nat,
    displayed: nat)

  predicate Ready(k: Console) {
    && |k.video| == BYTES && |k.stores| == TERMINAL_NUM && |k.cursors| == TERMINAL_NUM
    && k.running < TERMINAL_NUM && k.displayed < TERMINAL_NUM
    && (forall t :: 0 <= t < TERMINAL_NUM ==> |k.stores[t]| == BYTES)
    && forall t :: 0 <= t < TERMINAL_NUM ==> OnScreen(k.cursors[t])
  }

  /** The screen terminal t would have to itself. */
  function Logical(k: Console, t: nat): (s: Screen)
    requires Ready(k) && t < TERMINAL_NUM
    ensures Ok(s)
  {
    Screen(if t == k.displayed then k.video else k.stores[t], k.cursors[t])
  }

  /**
    Putc: output of the running terminal's program. Echo: a key echoed to the displayed terminal.
    Clear: clear for the running terminal. Wipe: Ctrl+L on the displayed one. Switch: the display goes
    to another terminal, which is cleared first when a shell is to be started there and which then has
    the processor; if no shell could be started, execute says so there and the processor goes back. Turn:
    the timer gives the processor to a terminal.
  */
  datatype Event =
    | Putc(c: Byte)
    | Echo(c: Byte)
    | Clear
    | Wipe
    | Switch(terminal: nat)
    | SwitchNew(terminal: nat, started: bool)
    | Turn(terminal: nat)

  predicate Possible(k: Console, e: Event)
    requires Ready(k)
  {
    match e
    case Putc(c) => Fits(k.cursors[k.running], c)
    case Echo(c) => Fits(k.cursors[k.displayed], c)
    case Switch(t) => t < TERMINAL_NUM
    case SwitchNew(t, _) => t < TERMINAL_NUM
    case Turn(t) => t < TERMINAL_NUM
    case _ => true
  }

  // ---- the code's memory traffic ----

  function EchoTo(k: Console, c: Byte): Console
    requires Ready(k) && Fits(k.cursors[k.displayed], c)
  {
    var s := Put(Screen(k.video, k.cursors[k.displayed]), c);
    k.(video := s.mem, cursors := k.cursors[k.displayed := s.cur])
  }

  function PutTo(k: Console, c: Byte): Console
    requires Ready(k) && Fits(k.cursors[k.running], c)
  {
    if k.running == k.displayed then EchoTo(k, c)
    else
      var s := Put(Screen(k.stores[k.running], k.cursors[k.running]), c);
      k.(stores := k.stores[k.running := s.mem], cursors := k.cursors[k.running := s.cur])
  }

  function ClearRunning(k: Console): Console
    requires Ready(k)
  {
    var cleared :=
      if k.running == k.displayed then k.(video := Blank().mem)
      else k.(stores := k.stores[k.running := Blank().mem]);
    cleared.(cursors := k.cursors[k.running := Cursor(0, 0, 0)])
  }

  function Swap(k: Console, t: nat): Console
    requires Ready(k) && t < TERMINAL_NUM
  {
    var stores := k.stores[k.displayed := k.video];
    k.(stores := stores, video := stores[t], displayed := t)
  }

  /** "no more process" and a newline. */
  const NO_MORE: seq<Byte> := [110, 111, 32, 109, 111, 114, 101, 32, 112, 114, 111, 99, 101, 115, 115, NEWLINE]

  /** printf of plain text. */
  function PrintTo(k: Console, cs: seq<Byte>): (r: Console)
    requires Ready(k) && BACKSPACE !in cs
    ensures Ready(r) && r.running == k.running && r.displayed == k.displayed
    decreases |cs|
  {
    if cs == [] then k else PrintTo(PutTo(k, cs[0]), cs[1..])
  }

  function Step(k: Console, e: Event): (r: Console)
    requires Ready(k) && Possible(k, e)
    ensures Ready(r)
  {
    match e
    case Putc(c) => PutTo(k, c)
    case Echo(c) => EchoTo(k, c)
    case Clear => ClearRunning(k)
    case Wipe => ClearRunning(k.(running := k.displayed)).(running := k.running)
    case Switch(t) => Swap(k, t)
    case SwitchNew(t, started) =>
      var r := ClearRunning(Swap(k, t).(running := t));
      if started then r else PrintTo(r, NO_MORE).(running := k.running)
    case Turn(t) => k.(running := t)
  }

  // ---- private screens ----

  datatype Op = PutOp(c: Byte) | ClearOp

  function Apply(s: Screen, op: Op): (r: Screen)
    requires Ok(s) && (op.PutOp? ==> Fits(s.cur, op.c))
    ensures Ok(r)
  {
    match op
    case PutOp(c) => Put(s, c)
    case ClearOp => Blank()
  }

  predicate AllApply(s: Screen, ops: seq<Op>)
    requires Ok(s)
    decreases |ops|
  {
    ops == [] || ((ops[0].PutOp? ==> Fits(s.cur, ops[0].c)) && AllApply(Apply(s, ops[0]), ops[1..]))
  }

  function ApplyAll(s: Screen, ops: seq<Op>): (r: Screen)
    requires Ok(s) && AllApply(s, ops)
    ensures Ok(r)
    decreases |ops|
  {
    if ops == [] then s else ApplyAll(Apply(s, ops[0]), ops[1..])
  }

  /** Who has the processor and the display after an event. */
  function NextRunning(running: nat, e: Event): nat {
    match e
    case Turn(t) => t
    case SwitchNew(t, true) => t
    case _ => running
  }

  function NextDisplayed(displayed: nat, e: Event): nat {
    match e
    case Switch(t) => t
    case SwitchNew(t, _) => t
    case _ => displayed
  }

  function PutOps(cs: seq<Byte>): (ops: seq<Op>)
    ensures |ops| == |cs| && forall i :: 0 <= i < |cs| ==> ops[i] == PutOp(cs[i])
  {
    seq(|cs|, i requires 0 <= i < |cs| => PutOp(cs[i]))
  }

  /** What an event means to terminal t. */
  function Own(running: nat, displayed: nat, e: Event, t: nat): seq<Op> {
    match e
    case Putc(c) => if t == running then [PutOp(c)] else []
    case Echo(c) => if t == displayed then [PutOp(c)] else []
    case Clear => if t == running then [ClearOp] else []
    case Wipe => if t == displayed then [ClearOp] else []
    case SwitchNew(u, started) => if t == u then [ClearOp] + (if started then [] else PutOps(NO_MORE)) else []
    case _ => []
  }

  /** The operations of a run that concern terminal t. */
  function OwnAll(running: nat, displayed: nat, es: seq<Event>, t: nat): seq<Op>
    decreases |es|
  {
    if es == [] then [] else
    Own(running, displayed, es[0], t) + OwnAll(NextRunning(running, es[0]), NextDisplayed(displayed, es[0]), es[1..], t)
  }

  predicate AllPossible(k: Console, es: seq<Event>)
    requires Ready(k)
    decreases |es|
  {
    es == [] || (Possible(k, es[0]) && AllPossible(Step(k, es[0]), es[1..]))
  }

  function Run(k: Console, es: seq<Event>): (r: Console)
    requires Ready(k) && AllPossible(k, es)
    ensures Ready(r)
    decreases |es|
  {
    if es == [] then k else Run(Step(k, es[0]), es[1..])
  }

  /** Printed text goes to the running terminal's screen alone. */
  lemma {:induction false} PrintIsPrivate(k: Console, cs: seq<Byte>, t: nat)
    requires Ready(k) && BACKSPACE !in cs && t < TERMINAL_NUM
    ensures AllApply(Logical(k, k.running), PutOps(cs))
    ensures Logical(PrintTo(k, cs), t) == if t == k.running then ApplyAll(Logical(k, t), PutOps(cs)) else Logical(k, t)
    decreases |cs|
  {
    if cs != [] {
      assert PutOps(cs)[1..] == PutOps(cs[1..]);
      PrintIsPrivate(PutTo(k, cs[0]), cs[1..], t);
    }
  }

  lemma SwitchIsPrivate(k: Console, u: nat, t: nat)
    requires Ready(k) && u < TERMINAL_NUM && t < TERMINAL_NUM
    ensures var ops := Own(k.running, k.displayed, SwitchNew(u, false), t);
      AllApply(Logical(k, t), ops) && Logical(Step(k, SwitchNew(u, false)), t) == ApplyAll(Logical(k, t), ops)
  {
    var r := ClearRunning(Swap(k, u).(running := u));
    PrintIsPrivate(r, NO_MORE, t);
    assert ([ClearOp] + PutOps(NO_MORE))[1..] == PutOps(NO_MORE);
  }

  /** One event does to every terminal's screen what it means to that terminal, and nothing else. */
  lemma StepIsPrivate(k: Console, e: Event, t: nat)
    requires Ready(k) && Possible(k, e) && t < TERMINAL_NUM
    ensures var r := Step(k, e);
      r.running == NextRunning(k.running, e) && r.displayed == NextDisplayed(k.displayed, e)
    ensures var ops := Own(k.running, k.displayed, e, t);
      AllApply(Logical(k, t), ops) && Logical(Step(k, e), t) == ApplyAll(Logical(k, t), ops)
  {
    if e.SwitchNew? && !e.started { SwitchIsPrivate(k, e.terminal, t); }
  }

  lemma {:induction false} AppliesAppend(s: Screen, a: seq<Op>, b: seq<Op>)
    requires Ok(s) && AllApply(s, a) && AllApply(ApplyAll(s, a), b)
    ensures AllApply(s, a + b) && ApplyAll(s, a + b) == ApplyAll(ApplyAll(s, a), b)
    decreases |a|
  {
    if a == [] {
      assert a + b == b;
    } else {
      assert (a + b)[0] == a[0] && (a + b)[1..] == a[1..] + b;
      AppliesAppend(Apply(s, a[0]), a[1..], b);
    }
  }

  /**
    Terminal independence: however output, echo, clearing, switching and scheduling interleave, every
    terminal's screen and cursor are what its own operations alone make of a private screen.
  */
  lemma {:induction false} TerminalsIndependent(k: Console, es: seq<Event>, t: nat)
    requires Ready(k) && AllPossible(k, es) && t < TERMINAL_NUM
    ensures var ops := OwnAll(k.running, k.displayed, es, t);
      AllApply(Logical(k, t), ops) && Logical(Run(k, es), t) == ApplyAll(Logical(k, t), ops)
    decreases |es|
  {
    if es != [] {
      var next := Step(k, es[0]);
      StepIsPrivate(k, es[0], t);
      TerminalsIndependent(next, es[1..], t);
      AppliesAppend(Logical(k, t), Own(k.running, k.displayed, es[0], t),
        OwnAll(next.running, next.displayed, es[1..], t));
    }
  }
}
