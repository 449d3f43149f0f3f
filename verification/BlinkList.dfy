/**
  The blink list as it lies in memory (blink.S, fish.c): nodes linked by index in a fixed pool whose
  slots are free when their location is 0. NULL is -1.
*/
module BlinkList {
  import opened Common
  import opened Bytes
  import opened Blink
  import BlinkScreen

  const NULL := -1

  datatype Node = Node(b: Blinker, next: int)

  const EMPTY: Node := Node(Blinker(0, 0, 0, 0, 0, 0, 0), NULL)

  /** The slot that stands i-th in the list; NULL past its end. */
  function At(order: seq<nat>, i: nat): int { if i < |order| then order[i] else NULL }

  predicate Linked(pool: seq<Node>, order: seq<nat>) {
    forall i {:trigger pool[order[i]]} :: 0 <= i < |order| ==>
      order[i] < |pool| && pool[order[i]].next == At(order, i + 1)
  }

  /** The nodes of the list are exactly the slots in use. */
  predicate Exact(pool: seq<Node>, order: seq<nat>) {
    forall s :: 0 <= s < |pool| ==> (pool[s].b.location != 0 <==> s in order)
  }

  /** From `head` the links run through the slots `order`, each once, to NULL, and through every slot in use. */
  predicate Rep(pool: seq<Node>, head: int, order: seq<nat>) {
    && |pool| == SCREEN && head == At(order, 0) && (forall i :: 0 <= i < |order| ==> order[i] < SCREEN)
    && Linked(pool, order) && NoRepeats(order) && Exact(pool, order)
  }

  function Contents(pool: seq<Node>, order: seq<nat>): (l: seq<Blinker>)
    requires forall i :: 0 <= i < |order| ==> order[i] < |pool|
    ensures |l| == |order| && forall i :: 0 <= i < |order| ==> l[i] == pool[order[i]].b
  {
    seq(|order|, i requires 0 <= i < |order| => pool[order[i]].b)
  }

  /** The slot mp1_malloc finds from s on; |pool| if there is none. */
  function FirstFree(pool: seq<Node>, s: nat): (r: nat)
    requires s <= |pool|
    ensures s <= r <= |pool| && (r < |pool| ==> pool[r].b.location == 0)
    ensures forall k :: s <= k < r ==> pool[k].b.location != 0
    decreases |pool| - s
  {
    if s == |pool| || pool[s].b.location == 0 then s else FirstFree(pool, s + 1)
  }

  // ---- how each operation carries the list along ----

  /** The memory after mp1_ioctl_add has put a node into slot f. */
  function Inserted(pool: seq<Node>, head: int, f: nat, b: Blinker): seq<Node>
    requires f < |pool|
  {
    pool[f := Node(Fresh(b), head)]
  }

  lemma InsertLinked(pool: seq<Node>, head: int, order: seq<nat>, f: nat, n: Node)
    requires (forall k :: 0 <= k < |order| ==> order[k] < |pool|) && Linked(pool, order)
    requires f < |pool| && f !in order && n.next == head == At(order, 0)
    ensures Linked(pool[f := n], [f] + order)
  {
    var after, grown := pool[f := n], [f] + order;
    forall i | 0 <= i < |grown| ensures grown[i] < |pool| && after[grown[i]].next == At(grown, i + 1) {
      if i > 0 { assert grown[i] == order[i - 1] && pool[order[i - 1]].next == At(order, i); }
    }
  }

  lemma InsertExact(pool: seq<Node>, order: seq<nat>, f: nat, n: Node)
    requires Exact(pool, order) && f < |pool| && n.b.location != 0
    ensures Exact(pool[f := n], [f] + order)
  {
  }

  lemma InsertContents(pool: seq<Node>, order: seq<nat>, f: nat, n: Node)
    requires (forall i :: 0 <= i < |order| ==> order[i] < |pool|) && f < |pool| && f !in order
    ensures forall i :: 0 <= i < |order| + 1 ==> ([f] + order)[i] < |pool|
    ensures Contents(pool[f := n], [f] + order) == [n.b] + Contents(pool, order)
  {
    forall i | 0 <= i < |order| ensures pool[f := n][order[i]] == pool[order[i]] {
      assert order[i] in order;
    }
  }

  lemma InsertRep(pool: seq<Node>, head: int, order: seq<nat>, f: nat, b: Blinker)
    requires Rep(pool, head, order) && f < SCREEN && pool[f].b.location == 0 && b.location != 0
    ensures Rep(Inserted(pool, head, f, b), f, [f] + order)
    ensures Contents(Inserted(pool, head, f, b), [f] + order) == [Fresh(b)] + Contents(pool, order)
  {
    assert f !in order;
    InsertLinked(pool, head, order, f, Node(Fresh(b), head));
    InsertExact(pool, order, f, Node(Fresh(b), head));
    InsertContents(pool, order, f, Node(Fresh(b), head));
  }

  lemma HeadInUse(pool: seq<Node>, f: nat, order: seq<nat>)
    ensures Rep(pool, f, order) ==> f < |pool| && pool[f].b.location != 0
  {
    if Rep(pool, f, order) { assert order[0] in order; }
  }

  /**
    Location 0 is the one location that breaks the list: as soon as a node has it, no list from its
    slot on is exact.
  */
  lemma ZeroBreaksRep(pool: seq<Node>, head: int, order: seq<nat>, f: nat, b: Blinker)
    requires Rep(pool, head, order) && f < SCREEN && pool[f].b.location == 0
    ensures (exists after :: Rep(Inserted(pool, head, f, b), f, after)) <==> b.location != 0
  {
    if b.location != 0 {
      InsertRep(pool, head, order, f, b);
    } else {
      forall after ensures !Rep(Inserted(pool, head, f, b), f, after) {
        HeadInUse(Inserted(pool, head, f, b), f, after);
      }
    }
  }

  lemma FreeIs(pool: seq<Node>, f: nat)
    requires f < |pool| && pool[f].b.location == 0 && forall k :: 0 <= k < f ==> pool[k].b.location != 0
    ensures FirstFree(pool, 0) == f
  {
  }

  /** Whatever is added directly after a node at location 0 takes its slot and becomes its own successor. */
  lemma AddAfterZeroLoops(pool: seq<Node>, head: int, zero: Blinker, next: Blinker)
    requires zero.location == 0 && FirstFree(pool, 0) < |pool|
    ensures var f := FirstFree(pool, 0);
      var once := Inserted(pool, head, f, zero);
      FirstFree(once, 0) == f && Inserted(once, f, f, next)[f].next == f
  {
    var f := FirstFree(pool, 0);
    FreeIs(Inserted(pool, head, f, zero), f);
  }

  /** The memory after the node at position i has been unlinked and its slot freed. */
  function Unlinked(pool: seq<Node>, order: seq<nat>, i: nat): seq<Node>
    requires i < |order| && forall k :: 0 <= k < |order| ==> order[k] < |pool|
  {
    var next := pool[order[i]].next;
    var relinked := if i == 0 then pool else pool[order[i - 1] := pool[order[i - 1]].(next := next)];
    relinked[order[i] := EMPTY]
  }

  function Dropped(order: seq<nat>, i: nat): (r: seq<nat>)
    requires i < |order|
    ensures |r| == |order| - 1 && forall k :: 0 <= k < |r| ==> r[k] == if k < i then order[k] else order[k + 1]
  {
    order[..i] + order[i + 1..]
  }

  lemma UnlinkLinked(pool: seq<Node>, order: seq<nat>, i: nat)
    requires (forall k :: 0 <= k < |order| ==> order[k] < |pool|) && Linked(pool, order) && NoRepeats(order)
      && i < |order|
    ensures Linked(Unlinked(pool, order, i), Dropped(order, i))
  {
    var after, left := Unlinked(pool, order, i), Dropped(order, i);
    assert pool[order[i]].next == At(order, i + 1);
    forall k | 0 <= k < |left| ensures left[k] < |pool| && after[left[k]].next == At(left, k + 1) {
      var was := if k < i then k else k + 1;
      assert left[k] == order[was] && pool[order[was]].next == At(order, was + 1);
    }
  }

  lemma DroppedMembers(order: seq<nat>, i: nat, s: nat)
    requires NoRepeats(order) && i < |order|
    ensures s in Dropped(order, i) <==> s in order && s != order[i]
  {
    if s in order && s != order[i] {
      var k :| 0 <= k < |order| && order[k] == s;
      assert Dropped(order, i)[if k < i then k else k - 1] == s;
    }
  }

  lemma UnlinkExact(pool: seq<Node>, order: seq<nat>, i: nat)
    requires (forall k :: 0 <= k < |order| ==> order[k] < |pool|) && Exact(pool, order) && NoRepeats(order)
      && i < |order|
    ensures Exact(Unlinked(pool, order, i), Dropped(order, i))
  {
    forall s | 0 <= s < |pool| ensures Unlinked(pool, order, i)[s].b.location != 0 <==> s in Dropped(order, i) {
      DroppedMembers(order, i, s);
    }
  }

  lemma UnlinkContents(pool: seq<Node>, order: seq<nat>, i: nat)
    requires (forall k :: 0 <= k < |order| ==> order[k] < |pool|) && NoRepeats(order) && i < |order|
    ensures Contents(Unlinked(pool, order, i), Dropped(order, i)) == Removed(Contents(pool, order), i)
  {
    forall k | 0 <= k < |order| - 1
      ensures Unlinked(pool, order, i)[Dropped(order, i)[k]].b == Removed(Contents(pool, order), i)[k]
    {
      assert Dropped(order, i)[k] != order[i];
    }
  }

  lemma DroppedDistinct(order: seq<nat>, i: nat)
    requires NoRepeats(order) && i < |order|
    ensures NoRepeats(Dropped(order, i))
  {
  }

  lemma UnlinkRep(pool: seq<Node>, head: int, order: seq<nat>, i: nat)
    requires Rep(pool, head, order) && i < |order|
    ensures Rep(Unlinked(pool, order, i), if i == 0 then pool[order[0]].next else head, Dropped(order, i))
    ensures Contents(Unlinked(pool, order, i), Dropped(order, i)) == Removed(Contents(pool, order), i)
  {
    UnlinkLinked(pool, order, i);
    UnlinkExact(pool, order, i);
    UnlinkContents(pool, order, i);
    DroppedDistinct(order, i);
    assert pool[order[0]].next == At(order, 1);
  }

  /** Rewriting a node in place, its location and link kept. */
  lemma RewriteRep(pool: seq<Node>, head: int, order: seq<nat>, i: nat, b: Blinker)
    requires Rep(pool, head, order) && i < |order| && b.location == pool[order[i]].b.location
    ensures Rep(pool[order[i] := pool[order[i]].(b := b)], head, order)
    ensures Contents(pool[order[i] := pool[order[i]].(b := b)], order) == Contents(pool, order)[i := b]
  {
    var after := pool[order[i] := pool[order[i]].(b := b)];
    forall k | 0 <= k < |order| ensures after[order[k]].next == At(order, k + 1) {
      assert pool[order[k]].next == At(order, k + 1);
    }
    assert forall s :: 0 <= s < SCREEN ==> after[s].b.location == pool[s].b.location;
  }

  function Upto(n: nat): (r: set<nat>)
    ensures |r| == n && forall s :: s in r <==> 0 <= s < n
  {
    if n == 0 then {} else Upto(n - 1) + {n - 1}
  }

  lemma AllUsed(pool: seq<Node>, order: seq<nat>)
    requires Exact(pool, order) && forall i :: 0 <= i < |order| ==> order[i] < |pool|
    ensures FirstFree(pool, 0) == |pool| <==> Members(order) == Upto(|pool|)
  {
    var f := FirstFree(pool, 0);
    if f == |pool| {
      forall s | s in Upto(|pool|) ensures s in Members(order) { assert pool[s].b.location != 0; }
    } else {
      assert f in Upto(|pool|) && f !in Members(order);
    }
  }

  /** There is no free slot exactly when the list has 2000 nodes. */
  lemma FullMeansAll(pool: seq<Node>, head: int, order: seq<nat>)
    requires Rep(pool, head, order)
    ensures |order| <= SCREEN
    ensures FirstFree(pool, 0) == SCREEN <==> |order| == SCREEN
  {
    MembersCount(order);
    SubsetCount(Members(order), Upto(SCREEN));
    AllUsed(pool, order);
  }

  /** The slots an add can still use. */
  function FreeSlots(pool: seq<Node>): set<nat> { set s: nat | s < |pool| && pool[s].b.location == 0 }

  /** Nodes and free slots make up the pool. */
  lemma FreeCounted(pool: seq<Node>, head: int, order: seq<nat>)
    requires Rep(pool, head, order)
    ensures |FreeSlots(pool)| + |order| == SCREEN
  {
    MembersCount(order);
    assert Upto(SCREEN) == FreeSlots(pool) + Members(order);
    assert FreeSlots(pool) !! Members(order);
  }

  /** Every location in the pool is one on the screen. */
  predicate OnVideo(pool: seq<Node>) {
    forall s :: 0 <= s < |pool| ==> pool[s].b.location < SCREEN
  }

  lemma UnlinkOnVideo(pool: seq<Node>, order: seq<nat>, i: nat)
    requires OnVideo(pool) && i < |order| && forall k :: 0 <= k < |order| ==> order[k] < |pool|
    ensures OnVideo(Unlinked(pool, order, i))
  {
  }

  // ---- in place ----

  lemma DrawNext(video: seq<Byte>, l: seq<Blinker>, i: nat)
    requires i < |l|
    ensures BlinkScreen.DrawTicks(video, l[i..]) == BlinkScreen.DrawTicks(BlinkScreen.DrawTick(video, l[i]), l[i + 1..])
  {
    assert l[i..][1..] == l[i + 1..];
  }

  class BlinkDevice {
    const pool: array<Node>
    const video: array<Byte>
    var head: int
    ghost var order: seq<nat>

    ghost predicate Valid()
      reads this, pool
    {
      Rep(pool[..], head, order) && OnVideo(pool[..]) && video.Length == BlinkScreen.VIDEO_BYTES
    }

    ghost function List(): seq<Blinker>
      requires Valid()
      reads this, pool
    {
      Contents(pool[..], order)
    }

    /** main clears the pool before anything else. */
    constructor (video: array<Byte>)
      requires video.Length == BlinkScreen.VIDEO_BYTES
      ensures Valid() && List() == [] && fresh(pool) && this.video == video
    {
      this.video := video;
      pool := new Node[SCREEN](_ => EMPTY);
      head := NULL;
      order := [];
    }

    /** mp1_poke. */
    method Poke(location: nat, c: Byte)
      requires 2 * location < video.Length
      modifies video
      ensures video[..] == BlinkScreen.Poke(old(video[..]), location, c)
    {
      video[2 * location] := c;
    }

    method Malloc() returns (i: int)
      requires pool.Length == SCREEN
      ensures i == if FirstFree(pool[..], 0) < SCREEN then FirstFree(pool[..], 0) else NULL
    {
      for k := 0 to SCREEN
        invariant FirstFree(pool[..], k) == FirstFree(pool[..], 0)
      {
        if pool[k].b.location == 0 {
          return k;
        }
      }
      return NULL;
    }

    /** mp1_ioctl_add. A node at location 0 goes into the memory like any other, but the list is no longer one. */
    method Add(b: Blinker) returns (r: int)
      requires Valid()
      modifies this, pool, video
      ensures r == if Addable(old(List()), b) then 0 else -1
      ensures r == 0 ==> head == FirstFree(old(pool[..]), 0) < SCREEN
      ensures r == 0 ==> pool[..] == Inserted(old(pool[..]), old(head), FirstFree(old(pool[..]), 0), b)
      ensures r == -1 ==> pool[..] == old(pool[..]) && head == old(head)
      ensures Valid() <==> Lasting(old(List()), Event.Add(b))
      ensures Valid() ==> List() == Step(old(List()), Event.Add(b))
      ensures video[..] == BlinkScreen.Paint(old(video[..]), old(List()), Event.Add(b))
    {
      FullMeansAll(pool[..], head, order);
      if b.location >= SCREEN {
        return -1;
      }
      var n := Fresh(b);
      var edx := Malloc();
      if edx == NULL {
        return -1;
      }
      if b.location != 0 { InsertRep(pool[..], head, order, edx, b); }
      ghost var after := Inserted(pool[..], head, edx, b);
      pool[edx] := Node(n, pool[edx].next);
      pool[edx] := pool[edx].(next := head);
      head := edx;
      order := [edx] + order;
      assert pool[..] == after;
      if b.location == 0 { HeadInUse(pool[..], edx, order); }
      Poke(b.location, b.onChar);
      return 0;
    }

    /** mp1_find_helper: the node, and where it stands in the list. */
    method FindHelper(location: Word) returns (ebx: int, ghost i: nat)
      requires Valid()
      ensures i == FirstAt(List(), location) && ebx == At(order, FirstAt(List(), location))
    {
      ebx, i := head, 0;
      ghost var l := List();
      while ebx != NULL && pool[ebx].b.location != location
        invariant 0 <= i <= |order| && ebx == At(order, i)
        invariant forall k :: 0 <= k < i ==> l[k].location != location
        decreases |order| - i
      {
        ebx := pool[ebx].next;
        i := i + 1;
      }
      FirstAtIs(l, location, i);
    }

    /** The removal itself, edx being the node before eax, and mp1_free. */
    method Unlink(edx: int, eax: int, ghost i: nat)
      requires Valid() && i < |order| && eax == order[i] && edx == if i == 0 then NULL else order[i - 1]
      modifies this`head, pool
      ensures pool[..] == Unlinked(old(pool[..]), order, i)
      ensures head == if i == 0 then old(pool[eax]).next else old(head)
    {
      var ecx := pool[eax].next;
      if edx == NULL {
        head := ecx;
      } else {
        pool[edx] := pool[edx].(next := ecx);
      }
      pool[eax] := EMPTY;
    }

    /** The search for the link to a node of the list; NULL stands for the list head itself. */
    method FindPrevious(eax: int, ghost i: nat) returns (edx: int)
      requires Valid() && i < |order| && eax == order[i]
      ensures edx == if i == 0 then NULL else order[i - 1]
    {
      edx := NULL;
      var link := head;
      ghost var k := 0;
      while link != eax
        invariant 0 <= k <= i && link == order[k] && edx == if k == 0 then NULL else order[k - 1]
        decreases i - k
      {
        assert k < i;
        edx := link;
        link := pool[edx].next;
        k := k + 1;
      }
      assert k == i;
    }

    /** mp1_ioctl_remove: unlink the first node at the location and free its slot. */
    method Remove(location: Word) returns (r: int)
      requires Valid()
      modifies this, pool
      ensures Valid() && List() == Step(old(List()), Event.Remove(location))
      ensures |FreeSlots(pool[..])| == |FreeSlots(old(pool[..]))| + (if r == 0 then 1 else 0)
      ensures r == if FirstAt(old(List()), location) < |old(List())| then 0 else -1
    {
      var eax, i := FindHelper(location);
      if eax == NULL {
        return -1;
      }
      UnlinkRep(pool[..], head, order, i);
      UnlinkOnVideo(pool[..], order, i);
      var edx := FindPrevious(eax, i);
      Unlink(edx, eax, i);
      FreeCounted(old(pool[..]), old(head), order);
      order := Dropped(order, i);
      FreeCounted(pool[..], head, order);
      return 0;
    }

    /** mp1_ioctl_find: a copy of the first node at the location. */
    method Find(location: Word) returns (r: Option<Blinker>)
      requires Valid()
      ensures r == Blink.Find(List(), location)
    {
      var eax, i := FindHelper(location);
      r := if eax == NULL then None else Some(pool[eax].b);
    }

    /** mp1_ioctl_sync. Its conditional move is never taken, so it always shows the off character. */
    method Sync(source: Word, target: Word) returns (r: int)
      requires Valid()
      modifies pool, video
      ensures Valid() && List() == Step(old(List()), Event.Sync(source, target))
      ensures video[..] == BlinkScreen.Paint(old(video[..]), old(List()), Event.Sync(source, target))
      ensures r == if Blink.Find(old(List()), source).Some? && Blink.Find(old(List()), target).Some? then 0 else -1
    {
      var esi, i := FindHelper(source);
      if esi == NULL {
        return -1;
      }
      var edi, j := FindHelper(target);
      if edi == NULL {
        return -1;
      }
      var b := Synced(pool[esi].b, pool[edi].b);
      RewriteRep(pool[..], head, order, j, b);
      ghost var after := pool[..][edi := pool[edi].(b := b)];
      pool[edi] := pool[edi].(b := b);
      assert pool[..] == after;
      Poke(b.location, b.offChar);
      return 0;
    }

    /** When its countdown has run out, the other of a node's two characters is shown. */
    method DrawChange(node: Blinker)
      requires 2 * node.location < video.Length
      modifies video
      ensures video[..] == BlinkScreen.DrawTick(old(video[..]), node)
    {
      if !(0 < (node.countdown - 1) % WORD < 0x8000) {
        if node.status % 2 == 1 {
          Poke(node.location, node.offChar);
        } else {
          Poke(node.location, node.onChar);
        }
      }
    }

    /** One node of the list, which stands i-th. */
    method TickNode(ebx: int, ghost i: nat)
      requires Valid() && i < |order| && ebx == order[i]
      modifies pool, video
      ensures Valid() && List() == old(List())[i := Tick(old(List())[i])]
      ensures video[..] == BlinkScreen.DrawTick(old(video[..]), old(List())[i])
    {
      var node := pool[ebx].b;
      DrawChange(node);
      RewriteRep(pool[..], head, order, i, Tick(node));
      ghost var after := pool[..][ebx := pool[ebx].(b := Tick(node))];
      pool[ebx] := pool[ebx].(b := Tick(node));
      assert pool[..] == after;
    }

    /** mp1_rtc_tasklet. */
    method Tasklet()
      requires Valid()
      modifies pool, video
      ensures Valid() && List() == Step(old(List()), TickAll)
      ensures video[..] == BlinkScreen.Paint(old(video[..]), old(List()), TickAll)
    {
      var ebx := head;
      ghost var i := 0;
      ghost var was := List();
      ghost var goal := BlinkScreen.DrawTicks(video[..], was);
      assert was[0..] == was;
      while ebx != NULL
        invariant Valid() && 0 <= i <= |order| && ebx == At(order, i)
        invariant forall k :: 0 <= k < |order| ==> List()[k] == if k < i then Tick(was[k]) else was[k]
        invariant goal == BlinkScreen.DrawTicks(video[..], was[i..])
        decreases |order| - i
      {
        DrawNext(video[..], was, i);
        TickNode(ebx, i);
        ebx := pool[ebx].next;
        i := i + 1;
      }
    }

    /** One call. */
    method Call(e: Event)
      requires Valid() && Lasting(List(), e)
      modifies this, pool, video
      ensures Valid() && List() == Step(old(List()), e)
      ensures video[..] == BlinkScreen.Paint(old(video[..]), old(List()), e)
    {
      match e {
        case Add(b) => var r := Add(b);
        case Remove(location) => var r := Remove(location);
        case Sync(source, target) => var r := Sync(source, target);
        case TickAll => Tasklet();
      }
    }

    /**
      Any run of calls: as long as none enters a node at location 0, the memory holds the list and the
      screen what is drawn of it.
    */
    method Perform(es: seq<Event>)
      requires Valid() && AllLasting(List(), es)
      modifies this, pool, video
      ensures Valid() && List() == Run(old(List()), es)
      ensures video[..] == BlinkScreen.PaintAll(old(video[..]), old(List()), es)
    {
      ghost var left := es;
      ghost var goal, screen := Run(List(), es), BlinkScreen.PaintAll(video[..], List(), es);
      for i := 0 to |es|
        invariant left == es[i..] && Valid() && AllLasting(List(), left)
        invariant goal == Run(List(), left) && screen == BlinkScreen.PaintAll(video[..], List(), left)
      {
        assert left[0] == es[i] && left[1..] == es[i + 1..];
        Call(es[i]);
        left := left[1..];
      }
    }

    /** What the memory holds has no node at location 0. */
    lemma ValidMeansNoneAtZero()
      requires Valid()
      ensures NoneAtZero(List())
    {
      assert forall i :: 0 <= i < |order| ==> order[i] in order;
    }
  }
}
