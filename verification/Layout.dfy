/**
  What a terminal's output means: an unbounded page of 80 columns on which the characters are laid
  out one after the other. The 25-row screen is a window on it.
*/
module Layout {
  import opened Bytes
  import opened Screen

  /**
    Written cells, the position of the cursor and of the start of its line, counted in cells from the
    top of the page, and the first row of the window.
  */
  datatype Page = Page(cells: map<nat, Byte>, pos: nat, start: nat, top: nat)

  /** The window only ever moves down, just far enough to show the cursor's row. */
  function Follow(l: Page): Page {
    if l.pos / NUM_COLS >= l.top + NUM_ROWS then l.(top := l.pos / NUM_COLS - (NUM_ROWS - 1)) else l
  }

  function Type(l: Page, c: Byte): Page {
    if IsLineEnd(c) then
      var next := (l.pos / NUM_COLS + 1) * NUM_COLS;
      Follow(l.(pos := next, start := next))
    else if c == BACKSPACE then
      if l.pos <= l.start then l else l.(cells := l.cells[l.pos - 1 := NUL], pos := l.pos - 1)
    else Follow(l.(cells := l.cells[l.pos := c], pos := l.pos + 1))
  }

  /** The page a screen shows when nothing has scrolled yet. */
  function PageOf(s: Screen): Page
    requires Ok(s) && 0 <= s.cur.start <= Pos(s.cur)
  {
    Page(map i: nat | 0 <= i < CELLS :: s.mem[2 * i], Pos(s.cur), s.cur.start, 0)
  }

  /** The character in cell i of the screen memory. */
  function Char(mem: seq<Byte>, i: nat): Byte
    requires 2 * i < |mem|
  {
    mem[2 * i]
  }

  /** The memory shows the page from row `top` on, and nothing is written below. */
  ghost predicate Painted(mem: seq<Byte>, cells: map<nat, Byte>, top: nat) {
    && |mem| == BYTES
    && (forall i {:trigger Char(mem, i)} :: 0 <= i < CELLS ==>
         Char(mem, i) == if i + NUM_COLS * top in cells then cells[i + NUM_COLS * top] else NUL)
    && forall i :: i in cells ==> i < NUM_COLS * top + CELLS
  }

  /** Screen s is the window of page l: its characters, its cursor and its line start. */
  ghost predicate Shows(s: Screen, l: Page) {
    && Ok(s)
    && l.start <= l.pos
    && Pos(s.cur) == l.pos - NUM_COLS * l.top
    && s.cur.start == l.start - NUM_COLS * l.top
    && Painted(s.mem, l.cells, l.top)
  }

  lemma PageShown(s: Screen)
    requires Ok(s) && 0 <= s.cur.start <= Pos(s.cur)
    ensures Shows(s, PageOf(s))
  {
  }

  lemma MarkPaints(mem: seq<Byte>, cells: map<nat, Byte>, top: nat, i: nat, c: Byte)
    requires Painted(mem, cells, top) && i < CELLS
    ensures Painted(mem[2 * i := c], cells[i + NUM_COLS * top := c], top)
  {
    var marked := mem[2 * i := c];
    forall k | 0 <= k < CELLS ensures Char(marked, k) == if k == i then c else Char(mem, k) {
    }
  }

  lemma AttributesDoNotShow(mem: seq<Byte>, cells: map<nat, Byte>, top: nat, i: nat)
    requires Painted(mem, cells, top) && i < CELLS
    ensures Painted(mem[2 * i + 1 := ATTRIB], cells, top)
  {
    var marked := mem[2 * i + 1 := ATTRIB];
    forall k | 0 <= k < CELLS ensures Char(marked, k) == Char(mem, k) {
    }
  }

  lemma ScrollPaints(mem: seq<Byte>, cells: map<nat, Byte>, top: nat)
    requires Painted(mem, cells, top)
    ensures Painted(ScrollMem(mem), cells, top + 1)
  {
    forall k | 0 <= k < CELLS
      ensures Char(ScrollMem(mem), k) == if k < CELLS - NUM_COLS then Char(mem, k + NUM_COLS) else NUL
    {
    }
  }

  /** Scrolling moves the window down exactly when the cursor's row has left it. */
  lemma FollowShows(mem: seq<Byte>, cur: Cursor, l: Page)
    requires Painted(mem, l.cells, l.top) && 0 <= cur.x < NUM_COLS && 0 <= cur.y <= NUM_ROWS
    requires l.start <= l.pos && Pos(cur) == l.pos - NUM_COLS * l.top && cur.start == l.start - NUM_COLS * l.top
    ensures Shows(if cur.y == NUM_ROWS then Screen(ScrollMem(mem), cur.(y := cur.y - 1, start := cur.start - NUM_COLS))
                  else Screen(mem, cur), Follow(l))
  {
    if cur.y == NUM_ROWS { ScrollPaints(mem, l.cells, l.top); }
  }

  lemma LineEndShows(s: Screen, l: Page, c: Byte)
    requires Shows(s, l) && IsLineEnd(c)
    ensures Shows(Put(s, c), Type(l, c))
  {
    var next := (l.pos / NUM_COLS + 1) * NUM_COLS;
    FollowShows(s.mem, Move(s.cur, c), l.(pos := next, start := next));
  }

  lemma BackspaceShows(s: Screen, l: Page)
    requires Shows(s, l) && Fits(s.cur, BACKSPACE)
    ensures Shows(Put(s, BACKSPACE), Type(l, BACKSPACE))
  {
    if l.pos > l.start { MarkPaints(s.mem, l.cells, l.top, Pos(s.cur) - 1, NUL); }
  }

  lemma PrintableShows(s: Screen, l: Page, c: Byte)
    requires Shows(s, l) && !IsLineEnd(c) && c != BACKSPACE
    ensures Shows(Put(s, c), Type(l, c))
  {
    MarkPaints(s.mem, l.cells, l.top, Pos(s.cur), c);
    AttributesDoNotShow(s.mem[2 * Pos(s.cur) := c], l.cells[l.pos := c], l.top, Pos(s.cur));
    FollowShows(Mark(s.mem, s.cur, c), Move(s.cur, c), l.(cells := l.cells[l.pos := c], pos := l.pos + 1));
  }

  /** One character keeps the screen the window of the page. */
  lemma PutShows(s: Screen, l: Page, c: Byte)
    requires Shows(s, l) && Fits(s.cur, c)
    ensures Shows(Put(s, c), Type(l, c))
  {
    if IsLineEnd(c) { LineEndShows(s, l, c); }
    else if c == BACKSPACE { BackspaceShows(s, l); }
    else { PrintableShows(s, l, c); }
  }

  predicate AllFit(s: Screen, cs: seq<Byte>)
    requires Ok(s)
    decreases |cs|
  {
    cs == [] || (Fits(s.cur, cs[0]) && AllFit(Put(s, cs[0]), cs[1..]))
  }

  function PutAll(s: Screen, cs: seq<Byte>): (r: Screen)
    requires Ok(s) && AllFit(s, cs)
    ensures Ok(r)
    decreases |cs|
  {
    if cs == [] then s else PutAll(Put(s, cs[0]), cs[1..])
  }

  function TypeAll(l: Page, cs: seq<Byte>): Page
    decreases |cs|
  {
    if cs == [] then l else TypeAll(Type(l, cs[0]), cs[1..])
  }

  /**
    The main result: whatever is output, newlines, backspaces, wrapped lines and scrolling included,
    the screen is the 25-row window of the unbounded page.
  */
  lemma {:induction false} ScreenIsWindow(s: Screen, l: Page, cs: seq<Byte>)
    requires Shows(s, l) && AllFit(s, cs)
    ensures Shows(PutAll(s, cs), TypeAll(l, cs))
    decreases |cs|
  {
    if cs != [] {
      PutShows(s, l, cs[0]);
      ScreenIsWindow(Put(s, cs[0]), Type(l, cs[0]), cs[1..]);
    }
  }

  /**
    On the page a backspace never goes back before the start of its line, and only the cell it goes
    back to is emptied.
  */
  lemma {:induction false} BackspaceStaysInLine(l: Page, n: nat)
    requires l.start <= l.pos
    ensures var r := TypeAll(l, seq(n, _ => BACKSPACE));
      && r.start == l.start && r.top == l.top && r.pos == (if l.pos - n >= l.start then l.pos - n else l.start)
      && (forall i :: i in r.cells <==> i in l.cells || r.pos <= i < l.pos)
      && forall i :: i in r.cells ==> r.cells[i] == if r.pos <= i < l.pos then NUL else l.cells[i]
    decreases n
  {
    if n > 0 {
      assert seq(n, _ => BACKSPACE)[1..] == seq(n - 1, _ => BACKSPACE);
      BackspaceStaysInLine(Type(l, BACKSPACE), n - 1);
    } else {
      assert seq<Byte>(0, _ => BACKSPACE) == [];
    }
  }

  /**
    A character can be output exactly when it does not erase a cell that has scrolled away; in
    particular always while the current line still begins on the screen.
  */
  lemma FitsExactly(s: Screen, l: Page, c: Byte)
    requires Shows(s, l)
    ensures Fits(s.cur, c) <==> (c == BACKSPACE && l.pos > l.start ==> l.pos - 1 >= NUM_COLS * l.top)
    ensures s.cur.start >= 0 ==> Fits(s.cur, c)
  {
  }

  predicate IsText(cs: seq<Byte>) {
    NEWLINE !in cs && RETURN !in cs && BACKSPACE !in cs
  }

  /** The page is l with the bytes of cs in its cells from the cursor on; nothing else is written. */
  ghost predicate Holds(r: Page, l: Page, cs: seq<Byte>) {
    && (forall i :: i in r.cells <==> i in l.cells || l.pos <= i < l.pos + |cs|)
    && forall i :: i in r.cells ==> r.cells[i] == if l.pos <= i < l.pos + |cs| then cs[i - l.pos] else l.cells[i]
  }

  /** Text is written on from the cursor, across the ends of the rows; the window follows the cursor's row. */
  lemma {:induction false} TextOnPage(l: Page, cs: seq<Byte>)
    requires l.pos / NUM_COLS < l.top + NUM_ROWS && IsText(cs)
    ensures var r := TypeAll(l, cs);
      && r.pos == l.pos + |cs| && r.start == l.start && Holds(r, l, cs)
      && r.top == (if r.pos / NUM_COLS >= l.top + NUM_ROWS then r.pos / NUM_COLS - (NUM_ROWS - 1) else l.top)
    decreases |cs|
  {
    if cs != [] {
      TextOnPage(Type(l, cs[0]), cs[1..]);
    }
  }

  lemma {:induction false} TypeAllAppend(l: Page, a: seq<Byte>, b: seq<Byte>)
    ensures TypeAll(l, a + b) == TypeAll(TypeAll(l, a), b)
    decreases |a|
  {
    if a == [] {
      assert a + b == b;
    } else {
      assert (a + b)[1..] == a[1..] + b;
      TypeAllAppend(Type(l, a[0]), a[1..], b);
    }
  }

  /** A line: its text, and then the cursor, and the next line, at the beginning of the next row. */
  lemma LineOnPage(l: Page, cs: seq<Byte>, end: Byte)
    requires l.pos / NUM_COLS < l.top + NUM_ROWS && IsText(cs) && (end == NEWLINE || end == RETURN)
    ensures var r := TypeAll(l, cs + [end]);
      && Holds(r, l, cs) && r.start == r.pos && r.pos % NUM_COLS == 0
      && l.pos + |cs| < r.pos <= l.pos + |cs| + NUM_COLS && r.pos / NUM_COLS < r.top + NUM_ROWS
  {
    var typed := TypeAll(l, cs);
    TextOnPage(l, cs);
    TypeAllAppend(l, cs, [end]);
    assert TypeAll(typed, [end]) == Type(typed, end);
  }

  lemma {:induction false} LettersFit(s: Screen, n: nat, c: Byte)
    requires Ok(s) && c != BACKSPACE
    ensures AllFit(s, seq(n, _ => c))
    decreases n
  {
    if n > 0 {
      assert seq(n, _ => c)[1..] == seq(n - 1, _ => c);
      LettersFit(Put(s, c), n - 1, c);
    }
  }

  lemma {:induction false} AllFitAppend(s: Screen, a: seq<Byte>, b: seq<Byte>)
    requires Ok(s)
    ensures AllFit(s, a + b) <==> AllFit(s, a) && AllFit(PutAll(s, a), b)
    ensures AllFit(s, a + b) ==> PutAll(s, a + b) == PutAll(PutAll(s, a), b)
    decreases |a|
  {
    if a == [] {
      assert a + b == b;
    } else {
      assert (a + b)[1..] == a[1..] + b && (a + b)[0] == a[0];
      if Fits(s.cur, a[0]) { AllFitAppend(Put(s, a[0]), a[1..], b); }
    }
  }

  /** n backspaces in a line of at least n characters fit exactly when the n cells are on the screen. */
  lemma {:induction false} BackspacesFit(s: Screen, l: Page, n: nat)
    requires Shows(s, l) && l.pos - n >= l.start
    ensures AllFit(s, seq(n, _ => BACKSPACE)) <==> n <= Pos(s.cur)
    decreases n
  {
    if n > 0 {
      assert seq(n, _ => BACKSPACE)[1..] == seq(n - 1, _ => BACKSPACE);
      if Fits(s.cur, BACKSPACE) {
        BackspaceShows(s, l);
        BackspacesFit(Put(s, BACKSPACE), Type(l, BACKSPACE), n - 1);
      }
    }
  }

  /**
    The screen can be left: after a line of 2000 letters, which scrolls its own beginning away, 1920
    backspaces are fine and one more writes in front of the screen memory.
  */
  lemma LongLineEscapes(c: Byte)
    requires !IsLineEnd(c) && c != BACKSPACE
    ensures AllFit(Blank(), seq(2000, _ => c) + seq(1920, _ => BACKSPACE))
    ensures !AllFit(Blank(), seq(2000, _ => c) + seq(1921, _ => BACKSPACE))
  {
    var s := Blank();
    var l := PageOf(s);
    var letters := seq(2000, _ => c);
    PageShown(s);
    LettersFit(s, 2000, c);
    ScreenIsWindow(s, l, letters);
    TextOnPage(l, letters);
    BackspacesFit(PutAll(s, letters), TypeAll(l, letters), 1920);
    BackspacesFit(PutAll(s, letters), TypeAll(l, letters), 1921);
    AllFitAppend(s, letters, seq(1920, _ => BACKSPACE));
    AllFitAppend(s, letters, seq(1921, _ => BACKSPACE));
  }

  // ---- attributes ----

  /** The attribute of cell i. */
  function Attribute(mem: seq<Byte>, i: nat): Byte
    requires 2 * i + 1 < |mem|
  {
    mem[2 * i + 1]
  }

  /** A character sets the attribute of the cell it is written to and no other; scrolling leaves attributes in place. */
  lemma PutAttributes(s: Screen, c: Byte, i: nat)
    requires Ok(s) && Fits(s.cur, c) && i < CELLS
    ensures Attribute(Put(s, c).mem, i)
         == if c !in [NEWLINE, RETURN, BACKSPACE] && i == Pos(s.cur) then ATTRIB else Attribute(s.mem, i)
  {
    var marked := Mark(s.mem, s.cur, c);
    assert Attribute(ScrollMem(marked), i) == Attribute(marked, i);
  }

  predicate AllAttrib(mem: seq<Byte>) {
    |mem| == BYTES && forall i {:trigger Attribute(mem, i)} :: 0 <= i < CELLS ==> Attribute(mem, i) == ATTRIB
  }

  /** A cleared screen: blanks everywhere, and the cursor at the top left corner, where a line begins. */
  lemma BlankIsEmpty()
    ensures AllAttrib(Blank().mem) && Blank().cur == Cursor(0, 0, 0)
    ensures forall i {:trigger Char(Blank().mem, i)} :: 0 <= i < CELLS ==> Char(Blank().mem, i) == SPACE
  {
  }

  /** A screen that has been cleared shows everything in the one attribute ever after. */
  lemma {:induction false} AttributesKept(s: Screen, cs: seq<Byte>)
    requires Ok(s) && AllFit(s, cs) && AllAttrib(s.mem)
    ensures AllAttrib(PutAll(s, cs).mem)
    decreases |cs|
  {
    if cs != [] {
      var next := Put(s, cs[0]);
      forall i | 0 <= i < CELLS ensures Attribute(next.mem, i) == ATTRIB { PutAttributes(s, cs[0], i); }
      AttributesKept(next, cs[1..]);
    }
  }
}
