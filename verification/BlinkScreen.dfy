/** What the blink device draws (blink.S): when the screen shows every character in its phase, and when it does not. */
module BlinkScreen {
  import opened Common
  import opened Bytes
  import opened Blink

  const VIDEO_BYTES := 4000

  /** mp1_poke. */
  function Poke(video: seq<Byte>, location: nat, c: Byte): (r: seq<Byte>)
    ensures |r| == |video|
  {
    if 2 * location < |video| then video[2 * location := c] else video
  }

  /** The character a node is to show in its phase. */
  function Showing(b: Blinker): Byte { if b.status % 2 == 1 then b.onChar else b.offChar }

  /** mp1_rtc_tasklet draws a node only when its phase changes. */
  function DrawTick(video: seq<Byte>, b: Blinker): (r: seq<Byte>)
    ensures |r| == |video|
  {
    if 0 < (b.countdown - 1) % WORD < 0x8000 then video
      else Poke(video, b.location, if b.status % 2 == 1 then b.offChar else b.onChar)
  }

  /** The nodes of l are ticked one after the other. */
  function DrawTicks(video: seq<Byte>, l: seq<Blinker>): (r: seq<Byte>)
    ensures |r| == |video|
    decreases |l|
  {
    if l == [] then video else DrawTicks(DrawTick(video, l[0]), l[1..])
  }

  /** What an event draws. The conditional move of mp1_ioctl_sync never selects the on character. */
  function Paint(video: seq<Byte>, l: seq<Blinker>, e: Event): (r: seq<Byte>)
    ensures |r| == |video|
  {
    match e
    case Add(b) => if Addable(l, b) then Poke(video, b.location, b.onChar) else video
    case Remove(_) => video
    case Sync(source, target) =>
      var i, j := FirstAt(l, source), FirstAt(l, target);
      if i < |l| && j < |l| then Poke(video, l[j].location, l[j].offChar) else video
    case TickAll => DrawTicks(video, l)
  }

  /** The screen shows every node in its phase. */
  predicate Drawn(video: seq<Byte>, l: seq<Blinker>) {
    && |video| == VIDEO_BYTES
    && forall i :: 0 <= i < |l| ==> l[i].location < SCREEN && video[2 * l[i].location] == Showing(l[i])
  }

  predicate Apart(l: seq<Blinker>) {
    forall i, j :: 0 <= i < j < |l| ==> l[i].location != l[j].location
  }

  lemma {:induction false} DrawTicksElsewhere(video: seq<Byte>, l: seq<Blinker>, cell: nat)
    requires cell < |video| && forall i :: 0 <= i < |l| ==> 2 * l[i].location != cell
    ensures DrawTicks(video, l)[cell] == video[cell]
    decreases |l|
  {
    if l != [] { DrawTicksElsewhere(DrawTick(video, l[0]), l[1..], cell); }
  }

  lemma {:induction false} DrawTicksDraw(video: seq<Byte>, l: seq<Blinker>, i: nat)
    requires Drawn(video, l) && Apart(l) && i < |l|
    ensures DrawTicks(video, l)[2 * l[i].location] == Showing(Tick(l[i]))
    decreases |l|
  {
    var next, rest := DrawTick(video, l[0]), l[1..];
    assert forall k :: 0 <= k < |rest| ==> rest[k] == l[k + 1];
    if i == 0 {
      DrawTicksElsewhere(next, rest, 2 * l[0].location);
    } else {
      DrawTicksDraw(next, rest, i - 1);
    }
  }

  /** Is the event a sync that leaves the off character on the screen of a node that is on? */
  predicate MissesOn(l: seq<Blinker>, e: Event) {
    e.Sync? &&
    var i, j := FirstAt(l, e.source), FirstAt(l, e.target);
    i < |l| && j < |l| && l[i].status % 2 == 1 && l[j].onChar != l[j].offChar
  }

  /** No node is added where there is one already, or at location 0, where none stays. */
  predicate Separate(l: seq<Blinker>, e: Event) {
    Lasting(l, e) && (e.Add? && Addable(l, e.b) ==> FirstAt(l, e.b.location) == |l|)
  }

  lemma StepApart(l: seq<Blinker>, e: Event)
    requires Apart(l) && Separate(l, e)
    ensures Apart(Step(l, e))
  {
  }

  lemma SyncDraws(video: seq<Byte>, l: seq<Blinker>, source: Word, target: Word)
    requires Drawn(video, l) && Apart(l)
    ensures Drawn(Paint(video, l, Sync(source, target)), Step(l, Sync(source, target)))
      <==> !MissesOn(l, Sync(source, target))
  {
    var i, j := FirstAt(l, source), FirstAt(l, target);
    if i < |l| && j < |l| {
      var r, after := Step(l, Sync(source, target)), Paint(video, l, Sync(source, target));
      assert r[j].location == l[j].location && after[2 * r[j].location] == l[j].offChar;
      forall k | 0 <= k < |l| && k != j ensures after[2 * r[k].location] == Showing(r[k]) {
        assert l[k].location != l[j].location;
      }
    }
  }

  /**
    One event keeps the screen showing every node in its phase if and only if it is not a sync that
    misses an on phase.
  */
  lemma PaintKeeps(video: seq<Byte>, l: seq<Blinker>, e: Event)
    requires Drawn(video, l) && Apart(l) && NoneAtZero(l) && Separate(l, e)
    ensures Drawn(Paint(video, l, e), Step(l, e)) <==> !MissesOn(l, e)
  {
    var after, r := Paint(video, l, e), Step(l, e);
    match e
    case Add(b) =>
    case Remove(_) =>
    case TickAll =>
      forall i | 0 <= i < |l| ensures after[2 * l[i].location] == Showing(r[i]) { DrawTicksDraw(video, l, i); }
    case Sync(source, target) => SyncDraws(video, l, source, target);
  }

  predicate AllSeparate(l: seq<Blinker>, es: seq<Event>)
    decreases |es|
  {
    es == [] || (Separate(l, es[0]) && AllSeparate(Step(l, es[0]), es[1..]))
  }

  predicate NoneMisses(l: seq<Blinker>, es: seq<Event>)
    decreases |es|
  {
    es == [] || (!MissesOn(l, es[0]) && NoneMisses(Step(l, es[0]), es[1..]))
  }

  /** After each event of the run the screen shows every node in its phase. */
  predicate DrawnThroughout(video: seq<Byte>, l: seq<Blinker>, es: seq<Event>)
    decreases |es|
  {
    es == [] ||
    (Drawn(Paint(video, l, es[0]), Step(l, es[0])) && DrawnThroughout(Paint(video, l, es[0]), Step(l, es[0]), es[1..]))
  }

  /** The screen after a run. */
  function PaintAll(video: seq<Byte>, l: seq<Blinker>, es: seq<Event>): seq<Byte>
    decreases |es|
  {
    if es == [] then video else PaintAll(Paint(video, l, es[0]), Step(l, es[0]), es[1..])
  }

  /**
    Over any run that adds nodes at new places only, the screen shows every phase throughout if and
    only if no sync misses one.
  */
  lemma {:induction false} ScreenShowsPhases(video: seq<Byte>, l: seq<Blinker>, es: seq<Event>)
    requires Drawn(video, l) && Apart(l) && NoneAtZero(l) && AllSeparate(l, es)
    ensures DrawnThroughout(video, l, es) <==> NoneMisses(l, es)
    ensures NoneMisses(l, es) ==> Drawn(PaintAll(video, l, es), Run(l, es))
    decreases |es|
  {
    if es != [] {
      PaintKeeps(video, l, es[0]);
      StepApart(l, es[0]);
      StepLasts(l, es[0]);
      if !MissesOn(l, es[0]) { ScreenShowsPhases(Paint(video, l, es[0]), Step(l, es[0]), es[1..]); }
    }
  }
}
