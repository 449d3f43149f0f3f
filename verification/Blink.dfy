/**
  Blinking characters (blink.S): the phase of one of them under the periodic tick, and a list of them
  under add, remove, sync and tick. Lengths, countdown and status are 16-bit words.
*/
module Blink {
  import opened Common
  import opened Bytes
  import Arithmetic

  const SCREEN := 2000      // 80 * 25 locations, and as many pool slots
  const WORD := 0x1_0000

  type Word = w: int | 0 <= w < 0x1_0000

  datatype Blinker = Blinker(location: Word, onChar: Byte, offChar: Byte, onLength: Word, offLength: Word,
                             countdown: Word, status: Word)

  // ---- one character ----

  /** mp1_rtc_tasklet on one node: the countdown is compared as a signed word. */
  function Tick(b: Blinker): Blinker {
    var left := (b.countdown - 1) % WORD;
    if 0 < left < 0x8000 then b.(countdown := left)
    else if b.status % 2 == 1 then b.(countdown := b.offLength, status := b.status - 1)
    else b.(countdown := b.onLength, status := b.status + 1)
  }

  /** How mp1_ioctl_add completes the user's structure. */
  function Fresh(b: Blinker): Blinker { b.(countdown := b.onLength, status := 1) }

  function Ticks(b: Blinker, t: nat): Blinker {
    if t == 0 then b else Tick(Ticks(b, t - 1))
  }

  /** For how many ticks a phase of the given length lasts: 0 and the lengths above 0x8000 last one tick. */
  function Lasts(length: Word): (n: nat)
    ensures n > 0
  {
    if 1 <= length <= 0x8000 then length else 1
  }

  /** The state r ticks into a period that starts with the on phase. */
  function InPeriod(b: Blinker, r: nat): Blinker
    requires r < Lasts(b.onLength) + Lasts(b.offLength)
  {
    if r < Lasts(b.onLength) then b.(status := 1, countdown := b.onLength - r)
    else b.(status := 0, countdown := b.offLength - (r - Lasts(b.onLength)))
  }

  lemma TickInPeriod(b: Blinker, r: nat)
    requires r < Lasts(b.onLength) + Lasts(b.offLength)
    ensures var period := Lasts(b.onLength) + Lasts(b.offLength);
      Tick(InPeriod(b, r)) == InPeriod(b, if r + 1 == period then 0 else r + 1)
  {
  }

  lemma ModStep(t: nat, m: nat)
    requires m > 0
    ensures (t + 1) % m == if t % m + 1 == m then 0 else t % m + 1
  {
    var q, r := t / m, t % m;
    assert t == m * q + r;
    if r + 1 == m {
      assert t + 1 == m * (q + 1) + 0;
      Arithmetic.DivisionOf(m, q + 1, 0);
    } else {
      Arithmetic.DivisionOf(m, q, r + 1);
    }
  }

  /**
    The closed form: t ticks after it was added, a character that was never synced is on exactly when
    t modulo the period is less than the length of its on phase, and the countdown is the time left.
  */
  lemma {:induction false} PhaseAfter(b: Blinker, t: nat)
    ensures var period := Lasts(b.onLength) + Lasts(b.offLength);
      Ticks(Fresh(b), t) == InPeriod(b, t % period)
  {
    var period := Lasts(b.onLength) + Lasts(b.offLength);
    if t == 0 {
      Arithmetic.DivisionOf(period, 0, 0);
    } else {
      PhaseAfter(b, t - 1);
      ModStep(t - 1, period);
      TickInPeriod(b, (t - 1) % period);
    }
  }

  /** For lengths from 1 to 0x8000 the phases last just as long as they are asked to. */
  lemma PhaseOfProperLengths(b: Blinker, t: nat)
    requires 1 <= b.onLength <= 0x8000 && 1 <= b.offLength <= 0x8000
    ensures var r, period := t % (b.onLength + b.offLength), b.onLength + b.offLength;
      var after := Ticks(Fresh(b), t);
      && (after.status == 1 <==> r < b.onLength) && (after.status == 0 <==> r >= b.onLength)
      && after.countdown == (if r < b.onLength then b.onLength - r else period - r)
  {
    PhaseAfter(b, t);
  }

  // ---- the list ----

  datatype Event =
    | Add(b: Blinker)
    | Remove(location: Word)
    | Sync(source: Word, target: Word)
    | TickAll

  /** The index of the first node at a location; the length of the list if there is none. */
  function FirstAt(l: seq<Blinker>, location: Word): (i: nat)
    ensures i <= |l| && (i < |l| ==> l[i].location == location)
    ensures forall k :: 0 <= k < i ==> l[k].location != location
  {
    if l == [] || l[0].location == location then 0 else 1 + FirstAt(l[1..], location)
  }

  function Find(l: seq<Blinker>, location: Word): Option<Blinker> {
    var i := FirstAt(l, location);
    if i < |l| then Some(l[i]) else None
  }

  /** add fails for a location off the screen and when all slots are taken. */
  predicate Addable(l: seq<Blinker>, b: Blinker) { b.location < SCREEN && |l| < SCREEN }

  function Removed(l: seq<Blinker>, i: nat): seq<Blinker>
    requires i < |l|
  {
    l[..i] + l[i + 1..]
  }

  function Synced(source: Blinker, target: Blinker): Blinker {
    target.(onLength := source.onLength, offLength := source.offLength, countdown := source.countdown,
      status := source.status)
  }

  function TickList(l: seq<Blinker>): (r: seq<Blinker>)
    ensures |r| == |l| && forall i :: 0 <= i < |l| ==> r[i] == Tick(l[i])
  {
    seq(|l|, i requires 0 <= i < |l| => Tick(l[i]))
  }

  function Step(l: seq<Blinker>, e: Event): seq<Blinker> {
    match e
    case Add(b) => if Addable(l, b) then [Fresh(b)] + l else l
    case Remove(location) => if FirstAt(l, location) < |l| then Removed(l, FirstAt(l, location)) else l
    case Sync(source, target) =>
      var i, j := FirstAt(l, source), FirstAt(l, target);
      if i < |l| && j < |l| then l[j := Synced(l[i], l[j])] else l
    case TickAll => TickList(l)
  }

  function Run(l: seq<Blinker>, es: seq<Event>): seq<Blinker>
    decreases |es|
  {
    if es == [] then l else Run(Step(l, es[0]), es[1..])
  }

  /** No node at location 0 is entered: such a node is the one that does not stay a node (see BlinkList). */
  predicate Lasting(l: seq<Blinker>, e: Event) {
    e.Add? && Addable(l, e.b) ==> e.b.location != 0
  }

  predicate AllLasting(l: seq<Blinker>, es: seq<Event>)
    decreases |es|
  {
    es == [] || (Lasting(l, es[0]) && AllLasting(Step(l, es[0]), es[1..]))
  }

  predicate NoneAtZero(l: seq<Blinker>) {
    forall i :: 0 <= i < |l| ==> l[i].location != 0
  }

  /** The event neither adds nor removes a node at the location nor makes it follow another. */
  predicate Spares(e: Event, location: Word) {
    match e
    case Add(b) => b.location != location
    case Remove(other) => other != location
    case Sync(_, target) => target != location
    case TickAll => true
  }

  predicate AllSpare(es: seq<Event>, location: Word) {
    forall i :: 0 <= i < |es| ==> Spares(es[i], location)
  }

  function TickCount(es: seq<Event>): nat {
    if es == [] then 0 else (if es[0].TickAll? then 1 else 0) + TickCount(es[1..])
  }

  lemma FirstAtIs(l: seq<Blinker>, location: Word, i: nat)
    requires i <= |l| && (i < |l| ==> l[i].location == location)
    requires forall k :: 0 <= k < i ==> l[k].location != location
    ensures FirstAt(l, location) == i
  {
  }

  lemma RemoveSpares(l: seq<Blinker>, j: nat, location: Word)
    requires j < |l| && l[j].location != location
    ensures Find(Removed(l, j), location) == Find(l, location)
  {
    var i := FirstAt(l, location);
    FirstAtIs(Removed(l, j), location, if j < i then i - 1 else i);
  }

  /** One event that spares a location leaves its node alone, but for the tick. */
  lemma StepSpares(l: seq<Blinker>, e: Event, location: Word)
    requires Spares(e, location)
    ensures Find(Step(l, e), location) == match Find(l, location)
      case None => None
      case Some(b) => Some(if e.TickAll? then Tick(b) else b)
  {
    var i := FirstAt(l, location);
    match e
    case Add(b) => if Addable(l, b) { FirstAtIs([Fresh(b)] + l, location, i + 1); }
    case Remove(other) => if FirstAt(l, other) < |l| { RemoveSpares(l, FirstAt(l, other), location); }
    case Sync(source, target) => FirstAtIs(Step(l, e), location, i);
    case TickAll => FirstAtIs(TickList(l), location, i);
  }

  /** How many nodes stand at a location. */
  function CountAt(l: seq<Blinker>, location: Word): nat {
    if l == [] then 0 else (if l[0].location == location then 1 else 0) + CountAt(l[1..], location)
  }

  lemma {:induction false} CountAppend(a: seq<Blinker>, b: seq<Blinker>, location: Word)
    ensures CountAt(a + b, location) == CountAt(a, location) + CountAt(b, location)
  {
    if a == [] {
      assert a + b == b;
    } else {
      assert (a + b)[0] == a[0] && (a + b)[1..] == a[1..] + b;
      CountAppend(a[1..], b, location);
    }
  }

  lemma {:induction false} CountMeansFound(l: seq<Blinker>, location: Word)
    ensures CountAt(l, location) > 0 <==> Find(l, location).Some?
  {
    if l != [] { CountMeansFound(l[1..], location); }
  }

  lemma CountRemoved(l: seq<Blinker>, i: nat, location: Word)
    requires i < |l|
    ensures CountAt(Removed(l, i), location) == CountAt(l, location) - (if l[i].location == location then 1 else 0)
  {
    var a, b := l[..i], l[i + 1..];
    assert l == a + ([l[i]] + b);
    CountAppend(a, [l[i]] + b, location);
    CountAppend([l[i]], b, location);
    CountAppend(a, b, location);
    assert [l[i]][1..] == [];
  }

  /**
    A remove takes away the first node at its location, just that, and nothing if there is none: one node
    less at the location, as many as before at any other.
  */
  lemma RemoveTakesOne(l: seq<Blinker>, x: Word, y: Word)
    ensures var r := Step(l, Remove(x));
      if Find(l, x).None? then r == l
      else
        && CountAt(r, y) == CountAt(l, y) - (if x == y then 1 else 0)
        && exists i :: 0 <= i < |l| && l[i].location == x && r == l[..i] + l[i + 1..]
             && forall k :: 0 <= k < i ==> l[k].location != x
  {
    if FirstAt(l, x) < |l| { CountRemoved(l, FirstAt(l, x), y); }
  }

  /** With one node a location, none is found where one was removed. */
  lemma RemovedIsGone(l: seq<Blinker>, x: Word)
    requires CountAt(l, x) <= 1
    ensures Find(Step(l, Remove(x)), x).None?
  {
    CountMeansFound(l, x);
    RemoveTakesOne(l, x, x);
    CountMeansFound(Step(l, Remove(x)), x);
  }

  /** An add that does not fail puts one node more at its location, completed as a new one, and leaves the others. */
  lemma AddPutsOne(l: seq<Blinker>, b: Blinker, y: Word)
    ensures var r := Step(l, Add(b));
      if Addable(l, b)
      then && |r| == |l| + 1 && r[1..] == l && CountAt(r, y) == CountAt(l, y) + (if b.location == y then 1 else 0)
           && Find(r, b.location) == Some(b.(countdown := b.onLength, status := 1))
      else r == l
  {
    if Addable(l, b) {
      CountAppend([Fresh(b)], l, y);
      assert [Fresh(b)][1..] == [];
      FirstAtIs([Fresh(b)] + l, b.location, 0);
    }
  }

  /** A sync gives the target the source's lengths, countdown and phase; it keeps its place and its own characters. */
  lemma SyncCopiesPhase(l: seq<Blinker>, source: Word, target: Word)
    ensures var r := Step(l, Sync(source, target));
      if Find(l, source).None? || Find(l, target).None? then r == l
      else
        && Find(r, target).Some? && |r| == |l|
        && (forall k :: 0 <= k < |l| && (l[k].location != target || r[k] != Find(r, target).value) ==> r[k] == l[k])
        && var from, was, now := Find(l, source).value, Find(l, target).value, Find(r, target).value;
           && now.location == target && now.onChar == was.onChar && now.offChar == was.offChar
           && now.onLength == from.onLength && now.offLength == from.offLength
           && now.countdown == from.countdown && now.status == from.status
  {
    FirstAtIs(Step(l, Sync(source, target)), target, FirstAt(l, target));
  }

  lemma TicksThenOne(b: Blinker, t: nat)
    ensures Ticks(Tick(b), t) == Ticks(b, t + 1)
  {
    if t > 0 { TicksThenOne(b, t - 1); }
  }

  lemma StepLasts(l: seq<Blinker>, e: Event)
    requires NoneAtZero(l) && Lasting(l, e)
    ensures NoneAtZero(Step(l, e))
  {
  }

  /** Over any run of the device that spares a location, its node changes only with the ticks. */
  lemma {:induction false} RunSpares(l: seq<Blinker>, es: seq<Event>, location: Word)
    requires NoneAtZero(l) && AllLasting(l, es) && AllSpare(es, location)
    ensures Find(Run(l, es), location) == match Find(l, location)
      case None => None
      case Some(b) => Some(Ticks(b, TickCount(es)))
    decreases |es|
  {
    if es != [] {
      var next := Step(l, es[0]);
      StepSpares(l, es[0], location);
      StepLasts(l, es[0]);
      assert forall i :: 0 <= i < |es| - 1 ==> es[1..][i] == es[i + 1];
      RunSpares(next, es[1..], location);
      if Find(l, location).Some? && es[0].TickAll? { TicksThenOne(Find(l, location).value, TickCount(es[1..])); }
    }
  }

  /** A node that was added and then spared is, at every later time, where the closed form says. */
  lemma AddedNodeBlinks(l: seq<Blinker>, b: Blinker, es: seq<Event>)
    requires NoneAtZero(l) && Addable(l, b) && AllLasting(l, [Add(b)] + es) && AllSpare(es, b.location)
    ensures var period := Lasts(b.onLength) + Lasts(b.offLength);
      Find(Run(Step(l, Add(b)), es), b.location) == Some(InPeriod(b, TickCount(es) % period))
  {
    var added := [Fresh(b)] + l;
    assert ([Add(b)] + es)[1..] == es;
    StepLasts(l, Add(b));
    FirstAtIs(added, b.location, 0);
    RunSpares(added, es, b.location);
    PhaseAfter(b, TickCount(es));
  }

  /** Same lengths, same countdown, same status. */
  predicate InStep(a: Blinker, b: Blinker) {
    a.onLength == b.onLength && a.offLength == b.offLength && a.countdown == b.countdown && a.status == b.status
  }

  lemma {:induction false} TicksInStep(a: Blinker, b: Blinker, t: nat)
    requires InStep(a, b)
    ensures InStep(Ticks(a, t), Ticks(b, t))
  {
    if t > 0 { TicksInStep(a, b, t - 1); }
  }

  /** After a sync the two nodes stay in step over any run that spares both. */
  lemma SyncedStayInStep(l: seq<Blinker>, source: Word, target: Word, es: seq<Event>)
    requires Find(l, source).Some? && Find(l, target).Some?
    requires NoneAtZero(l) && AllLasting(l, [Sync(source, target)] + es)
    requires AllSpare(es, source) && AllSpare(es, target)
    ensures var after := Run(Step(l, Sync(source, target)), es);
      && Find(after, source).Some? && Find(after, target).Some?
      && InStep(Find(after, source).value, Find(after, target).value)
  {
    var next := Step(l, Sync(source, target));
    assert ([Sync(source, target)] + es)[1..] == es;
    StepLasts(l, Sync(source, target));
    FirstAtIs(next, source, FirstAt(l, source));
    FirstAtIs(next, target, FirstAt(l, target));
    RunSpares(next, es, source);
    RunSpares(next, es, target);
    TicksInStep(Find(next, source).value, Find(next, target).value, TickCount(es));
  }
}
