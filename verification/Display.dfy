/** The screen code in its own form: byte arrays changed in place (lib.c, keyboard.c, terminal.c). */
module Display {
  import opened Common
  import opened Bytes
  import opened Screen
  import opened Video

  /**
    The body that putc and putc2screen share word for word, `mem` being the backing store in the one
    and the hardware memory in the other.
  */
  method Emit(mem: array<Byte>, cur: Cursor, c: Byte) returns (r: Cursor)
    requires mem.Length == BYTES && OnScreen(cur) && Fits(cur, c)
    modifies mem
    ensures Screen(mem[..], r) == Put(Screen(old(mem[..]), cur), c)
  {
    r := cur;
    if c == NEWLINE || c == RETURN {
      r := r.(y := r.y + 1, x := 0);
      r := r.(start := r.y * NUM_COLS);
    } else if c == BACKSPACE {
      if r.y * NUM_COLS + r.x == r.start { return; }
      if r.x == 0 {
        r := r.(x := NUM_COLS - 1, y := r.y - 1);
      } else {
        r := r.(x := r.x - 1);
      }
      mem[2 * (NUM_COLS * r.y + r.x)] := NUL;
    } else {
      mem[2 * (NUM_COLS * r.y + r.x)] := c;
      mem[2 * (NUM_COLS * r.y + r.x) + 1] := ATTRIB;
      r := r.(x := r.x + 1);
      if r.x >= NUM_COLS {
        r := r.(x := r.x % NUM_COLS, y := r.y + 1);
      }
    }
    assert mem[..] == Mark(old(mem[..]), cur, c) && r == Move(cur, c);
    if r.y == NUM_ROWS {
      Scroll(mem);
      r := r.(y := r.y - 1, start := r.start - NUM_COLS);
    }
  }

  /** memcpy of one screen. */
  method Copy(dest: array<Byte>, src: array<Byte>)
    requires dest.Length == src.Length == BYTES
    modifies dest
    ensures dest[..] == old(src[..])
  {
    for i := 0 to BYTES
      invariant dest[..i] == old(src[..i])
      invariant src != dest ==> src[..] == old(src[..])
      invariant src == dest ==> dest[..] == old(src[..])
    {
      dest[i] := src[i];
      assert dest[..i + 1] == dest[..i] + [dest[i]];
    }
  }

  class Display {
    const video: array<Byte>
    const store0: array<Byte>
    const store1: array<Byte>
    const store2: array<Byte>
    var cursors: seq<Cursor>
    var running: nat
    var displayed: nat

    function Store(t: nat): array<Byte>
      requires t < TERMINAL_NUM
    {
      if t == 0 then store0 else if t == 1 then store1 else store2
    }

    function View(): Console
      reads this, video, store0, store1, store2
    {
      Console(video[..], [store0[..], store1[..], store2[..]], cursors, running, displayed)
    }

    ghost predicate Valid()
      reads this, video, store0, store1, store2
    {
      && video.Length == store0.Length == store1.Length == store2.Length == BYTES
      && Ready(View()) && video !in {store0, store1, store2} && store0 != store1 && store0 != store2 && store1 != store2
    }

    method Putc2Screen(c: Byte)
      requires Valid() && Fits(cursors[displayed], c)
      modifies this, video
      ensures Valid() && View() == Step(old(View()), Echo(c))
    {
      var cur := Emit(video, cursors[displayed], c);
      cursors := cursors[displayed := cur];
    }

    method Putc(c: Byte)
      requires Valid() && Fits(cursors[running], c)
      modifies this, video, store0, store1, store2
      ensures Valid() && View() == Step(old(View()), Event.Putc(c))
    {
      if running == displayed {
        Putc2Screen(c);
        return;
      }
      var cur := Emit(Store(running), cursors[running], c);
      cursors := cursors[running := cur];
    }

    method Clear()
      requires Valid()
      modifies this, video, store0, store1, store2
      ensures Valid() && View() == Step(old(View()), Event.Clear)
    {
      if running != displayed {
        Fill(Store(running));
      } else {
        Fill(video);
      }
      cursors := cursors[running := Cursor(0, 0, 0)];
    }

    /** Ctrl+L. */
    method Wipe()
      requires Valid()
      modifies this, video, store0, store1, store2
      ensures Valid() && View() == Step(old(View()), Event.Wipe)
    {
      var previous := running;
      running := displayed;
      Clear();
      running := previous;
    }

    /** The two copies of switch_terminal. */
    method Swap(t: nat)
      requires Valid() && t < TERMINAL_NUM
      modifies this, video, store0, store1, store2
      ensures Valid() && View() == Step(old(View()), Switch(t))
    {
      Copy(Store(displayed), video);
      Copy(video, Store(t));
      displayed := t;
    }

    /** printf of plain text. */
    method Print(cs: seq<Byte>)
      requires Valid() && BACKSPACE !in cs
      modifies this, video, store0, store1, store2
      ensures Valid() && View() == PrintTo(old(View()), cs)
    {
      ghost var left, goal := cs, PrintTo(View(), cs);
      for i := 0 to |cs|
        invariant Valid() && left == cs[i..] && BACKSPACE !in left && goal == PrintTo(View(), left)
      {
        assert left[0] == cs[i] && left[1..] == cs[i + 1..];
        Putc(cs[i]);
        left := left[1..];
      }
    }

    /** switch_terminal to a terminal that has no process yet; `started` says whether execute found a slot. */
    method SwapNew(t: nat, started: bool)
      requires Valid() && t < TERMINAL_NUM
      modifies this, video, store0, store1, store2
      ensures Valid() && View() == Step(old(View()), SwitchNew(t, started))
    {
      Swap(t);
      var previous := running;
      running := t;
      Clear();
      if !started {
        Print(NO_MORE);
        running := previous;
      }
    }
  }
}
