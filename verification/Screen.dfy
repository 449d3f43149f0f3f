/**
  One text screen as putc, putc2screen and clear (lib.c) treat it: 25 rows of 80 character and
  attribute pairs, a cursor, and the position at which the current line starts.
*/
module Screen {
  import opened Bytes

  const NUM_COLS := 80
  const NUM_ROWS := 25
  const CELLS := 2000
  const BYTES := 4000
  const ATTRIB: Byte := 7

  datatype Cursor = Cursor(x: int, y: int, start: int)

  datatype Screen = Screen(mem: seq<Byte>, cur: Cursor)

  predicate OnScreen(cur: Cursor) { 0 <= cur.x < NUM_COLS && 0 <= cur.y < NUM_ROWS }

  predicate Ok(s: Screen) { |s.mem| == BYTES && OnScreen(s.cur) }

  function Pos(cur: Cursor): int { NUM_COLS * cur.y + cur.x }

  predicate IsLineEnd(c: Byte) { c == NEWLINE || c == RETURN }

  /**
    The one character that can leave the screen: a backspace at the top left corner while the current
    line began on a row that has scrolled away.
  */
  predicate Fits(cur: Cursor, c: Byte) {
    c == BACKSPACE && Pos(cur) == 0 ==> cur.start == 0
  }

  /** The character bytes move up one row and the last row is emptied; the attribute bytes stay. */
  function ScrollByte(mem: seq<Byte>, i: nat): Byte
    requires |mem| == BYTES && i < BYTES
  {
    if i % 2 == 1 then mem[i] else if i < 2 * (CELLS - NUM_COLS) then mem[i + 2 * NUM_COLS] else NUL
  }

  function ScrollMem(mem: seq<Byte>): (r: seq<Byte>)
    requires |mem| == BYTES
    ensures |r| == BYTES && forall i :: 0 <= i < BYTES ==> r[i] == ScrollByte(mem, i)
  {
    seq(BYTES, i requires 0 <= i < BYTES => ScrollByte(mem, i))
  }

  /** Where the cursor goes before the screen scrolls. */
  function Move(cur: Cursor, c: Byte): Cursor {
    if IsLineEnd(c) then Cursor(0, cur.y + 1, (cur.y + 1) * NUM_COLS)
    else if c == BACKSPACE then
      if Pos(cur) == cur.start then cur
      else if cur.x == 0 then cur.(x := NUM_COLS - 1, y := cur.y - 1)
      else cur.(x := cur.x - 1)
    else if cur.x + 1 >= NUM_COLS then cur.(x := (cur.x + 1) % NUM_COLS, y := cur.y + 1)
    else cur.(x := cur.x + 1)
  }

  /** What the character does to the memory before the screen scrolls. */
  function Mark(mem: seq<Byte>, cur: Cursor, c: Byte): (r: seq<Byte>)
    requires |mem| == BYTES && OnScreen(cur) && Fits(cur, c)
    ensures |r| == BYTES
  {
    if IsLineEnd(c) then mem
    else if c == BACKSPACE then
      if Pos(cur) == cur.start then mem else mem[2 * (Pos(cur) - 1) := NUL]
    else mem[2 * Pos(cur) := c][2 * Pos(cur) + 1 := ATTRIB]
  }

  function Put(s: Screen, c: Byte): (r: Screen)
    requires Ok(s) && Fits(s.cur, c)
    ensures Ok(r)
  {
    var mem, cur := Mark(s.mem, s.cur, c), Move(s.cur, c);
    if cur.y == NUM_ROWS then Screen(ScrollMem(mem), cur.(y := cur.y - 1, start := cur.start - NUM_COLS))
    else Screen(mem, cur)
  }

  function BlankByte(i: int): Byte { if i % 2 == 0 then SPACE else ATTRIB }

  function Blank(): (r: Screen)
    ensures Ok(r)
  {
    Screen(seq(BYTES, i => BlankByte(i)), Cursor(0, 0, 0))
  }

  // ---- in place ----

  /** The first n character and attribute pairs are as after the scroll, the rest as before. */
  ghost predicate ScrolledTo(was: seq<Byte>, now: seq<Byte>, n: int) {
    && |was| == |now| == BYTES
    && (forall i :: 0 <= i < 2 * n && i < BYTES ==> now[i] == ScrollByte(was, i))
    && forall i :: 0 <= 2 * n <= i < BYTES ==> now[i] == was[i]
  }

  method ShiftCell(mem: array<Byte>, ptr: nat, ghost was: seq<Byte>)
    requires mem.Length == BYTES && ptr < CELLS - NUM_COLS && ScrolledTo(was, mem[..], ptr)
    modifies mem
    ensures ScrolledTo(was, mem[..], ptr + 1)
  {
    mem[2 * ptr] := mem[2 * (ptr + NUM_COLS)];
  }

  /** The scrolling loops of putc and putc2screen. */
  method Scroll(mem: array<Byte>)
    requires mem.Length == BYTES
    modifies mem
    ensures mem[..] == ScrollMem(old(mem[..]))
  {
    ghost var was := mem[..];
    for y := 0 to NUM_ROWS - 1
      invariant ScrolledTo(was, mem[..], NUM_COLS * y)
    {
      for x := 0 to NUM_COLS
        invariant ScrolledTo(was, mem[..], NUM_COLS * y + x)
      {
        ShiftCell(mem, NUM_COLS * y + x, was);
      }
    }
    var ptr := (NUM_ROWS - 1) * NUM_COLS;
    for x := 0 to NUM_COLS
      invariant ScrolledTo(was, mem[..], ptr + x)
    {
      mem[2 * (ptr + x)] := NUL;
    }
  }

  /** The filling loop of clear. */
  method Fill(mem: array<Byte>)
    requires mem.Length == BYTES
    modifies mem
    ensures mem[..] == Blank().mem
  {
    for i := 0 to CELLS
      invariant forall k :: 0 <= k < 2 * i ==> mem[k] == BlankByte(k)
    {
      mem[2 * i] := SPACE;
      mem[2 * i + 1] := ATTRIB;
    }
  }
}
