/**
  The line discipline of one terminal: keys edit a 128-byte buffer (keyboard.c), reads take lines out
  of it (terminal.c). `bufFlag` is a signed byte in the source and wraps like one here.
*/
module LineDiscipline {
  import opened Common
  import opened Bytes

  const TAB_SIZE := 4

  datatype Key = Char(c: Byte) | Tab | Backspace | Enter | Kill

  datatype Event = Press(key: Key) | Read(nbytes: nat)

  /** The buffered bytes and the count of new lines. */
  datatype Buffer = Buffer(pending: seq<Byte>, flag: int)

  function Int8(n: int): int { (n + 128) % 256 - 128 }

  function Newlines(s: seq<Byte>): nat {
    if s == [] then 0 else (if s[0] == NEWLINE then 1 else 0) + Newlines(s[1..])
  }

  /** The length of the first line of s, its newline included; all of s if it has none. */
  function LineLength(s: seq<Byte>): (n: nat)
    ensures n <= |s|
    ensures NEWLINE !in s ==> n == |s|
    ensures NEWLINE in s ==> n > 0 && s[n - 1] == NEWLINE && NEWLINE !in s[..n - 1]
  {
    if s == [] then 0 else if s[0] == NEWLINE then 1 else
      assert NEWLINE in s ==> NEWLINE in s[1..];
      var n := 1 + LineLength(s[1..]);
      assert NEWLINE in s ==> s[..n - 1] == [s[0]] + s[1..][..n - 2];
      n
  }

  /** Can the key be stored at all? A tab is stored without looking whether there is room. */
  predicate Stores(b: Buffer, key: Key) {
    key.Tab? ==> |b.pending| + TAB_SIZE <= KEYBOARD_BUF_SIZE
  }

  function Pressed(b: Buffer, key: Key): Buffer {
    match key
    case Char(c) => if |b.pending| >= KEYBOARD_BUF_SIZE - 1 then b else b.(pending := b.pending + [c])
    case Tab => b.(pending := b.pending + [SPACE, SPACE, SPACE, SPACE])
    case Backspace => if b.pending == [] then b else b.(pending := b.pending[..|b.pending| - 1])
    case Enter => if |b.pending| == KEYBOARD_BUF_SIZE then b else Buffer(b.pending + [NEWLINE], Int8(b.flag + 1))
    case Kill => Buffer([], 0)
  }

  /** How many bytes a read of nbytes takes. */
  function Taken(b: Buffer, nbytes: nat): (n: nat)
    ensures n <= |b.pending|
  {
    if nbytes < LineLength(b.pending) then nbytes else LineLength(b.pending)
  }

  function AfterRead(b: Buffer, nbytes: nat): Buffer {
    Buffer(b.pending[Taken(b, nbytes)..], Int8(b.flag - 1))
  }

  /** The flag is the number of complete lines. */
  predicate Counted(b: Buffer) {
    |b.pending| <= KEYBOARD_BUF_SIZE && b.flag == Int8(Newlines(b.pending))
  }

  lemma {:induction false} NewlinesAppend(a: seq<Byte>, b: seq<Byte>)
    ensures Newlines(a + b) == Newlines(a) + Newlines(b)
  {
    if a == [] {
      assert a + b == b;
    } else {
      assert (a + b)[0] == a[0] && (a + b)[1..] == a[1..] + b;
      NewlinesAppend(a[1..], b);
    }
  }

  lemma {:induction false} NewlinesBound(s: seq<Byte>)
    ensures Newlines(s) <= |s| && (Newlines(s) > 0 <==> NEWLINE in s)
  {
    if s != [] {
      NewlinesBound(s[1..]);
      assert s == [s[0]] + s[1..];
    }
  }

  /** A counted flag is non-zero exactly when a complete line is waiting, also when it has wrapped. */
  lemma FlagMeansLine(b: Buffer)
    requires Counted(b)
    ensures b.flag != 0 <==> NEWLINE in b.pending
  {
    NewlinesBound(b.pending);
  }

  // ---- when the count is kept, exactly ----

  lemma Int8Apart(n: nat)
    requires n <= KEYBOARD_BUF_SIZE
    ensures Int8(Int8(n) + 1) == Int8(n + 1) && Int8(n) != Int8(n - 1)
  {
  }

  lemma {:induction false} NoNewlines(s: seq<Byte>)
    requires NEWLINE !in s
    ensures Newlines(s) == 0
  {
    if s != [] { NoNewlines(s[1..]); }
  }

  lemma NewlinesTab(s: seq<Byte>)
    ensures Newlines(s + [SPACE, SPACE, SPACE, SPACE]) == Newlines(s)
  {
    NewlinesAppend(s, [SPACE, SPACE, SPACE, SPACE]);
    NoNewlines([SPACE, SPACE, SPACE, SPACE]);
  }

  lemma NewlinesLast(s: seq<Byte>)
    requires s != []
    ensures Newlines(s) == Newlines(s[..|s| - 1]) + (if s[|s| - 1] == NEWLINE then 1 else 0)
  {
    var n := |s| - 1;
    assert s == s[..n] + [s[n]];
    NewlinesAppend(s[..n], [s[n]]);
  }

  /**
    A key keeps the buffer in bounds and the flag counting its lines if and only if it is neither a tab
    without room nor a backspace over a finished line.
  */
  lemma PressKeepsCount(b: Buffer, key: Key)
    requires Counted(b) && (key.Char? ==> key.c != NEWLINE)
    ensures Counted(Pressed(b, key))
       <==> Stores(b, key) && !(key.Backspace? && b.pending != [] && b.pending[|b.pending| - 1] == NEWLINE)
  {
    var n := Newlines(b.pending);
    NewlinesBound(b.pending);
    Int8Apart(n);
    match key
    case Char(c) => NewlinesAppend(b.pending, [c]);
    case Tab => NewlinesTab(b.pending);
    case Enter => NewlinesAppend(b.pending, [NEWLINE]);
    case Backspace => if b.pending != [] { NewlinesLast(b.pending); }
    case Kill =>
  }

  /** Enter and then a backspace in an empty buffer: a line is announced and none is there. */
  lemma ErasedNewlineIsCounted()
    ensures var b := Pressed(Pressed(Buffer([], 0), Enter), Backspace);
      b == Buffer([], 1) && Counted(Buffer([], 0)) && !Counted(b)
  {
  }

  /** A tab typed behind 125 characters leaves the buffer. */
  lemma LateTabEscapes(b: Buffer)
    requires Counted(b) && |b.pending| == 125
    ensures |Pressed(b, Tab).pending| == 129 && !Counted(Pressed(b, Tab))
  {
  }

  lemma NewlinesApart(s: seq<Byte>, k: nat)
    requires k <= |s|
    ensures Newlines(s) == Newlines(s[..k]) + Newlines(s[k..])
  {
    assert s == s[..k] + s[k..];
    NewlinesAppend(s[..k], s[k..]);
  }

  lemma CountDown(c: nat, taken: nat)
    requires 1 <= c <= KEYBOARD_BUF_SIZE && taken <= 1
    ensures Int8(Int8(c) - 1) == Int8(c - taken) <==> taken == 1
  {
  }

  lemma Shorter(s: seq<Byte>, k: nat, n: nat)
    requires k <= n <= |s|
    ensures s[..n][..k] == s[..k]
    ensures NEWLINE !in s[..n] ==> NEWLINE !in s[..k] && (k > 0 ==> s[k - 1] != NEWLINE)
  {
    assert forall i :: 0 <= i < k ==> s[..k][i] == s[..n][i];
  }

  /** The first line holds one newline, at its end. */
  lemma NewlinesInPart(s: seq<Byte>, k: nat)
    requires NEWLINE in s && k <= LineLength(s)
    ensures Newlines(s[..k]) == if k == LineLength(s) then 1 else 0
    ensures k < LineLength(s) && k > 0 ==> s[k - 1] != NEWLINE
  {
    var n := LineLength(s);
    if k == n {
      NewlinesLast(s[..n]);
      Shorter(s, n - 1, n);
      NoNewlines(s[..n - 1]);
    } else {
      Shorter(s, k, n - 1);
      NoNewlines(s[..k]);
    }
  }

  /** A read keeps the count if and only if the buffer passed is long enough for the first line. */
  lemma ReadKeepsCount(b: Buffer, nbytes: nat)
    requires Counted(b) && b.flag != 0
    ensures Counted(AfterRead(b, nbytes)) <==> nbytes >= LineLength(b.pending)
  {
    FlagMeansLine(b);
    NewlinesBound(b.pending);
    var k := Taken(b, nbytes);
    NewlinesInPart(b.pending, k);
    NewlinesApart(b.pending, k);
    CountDown(Newlines(b.pending), Newlines(b.pending[..k]));
  }

  /** Reading the line "a" one byte at a time: after the first read a complete line waits that is not announced. */
  lemma ShortReadIsCounted()
    ensures var b := Buffer([97, NEWLINE], 1);
      Counted(b) && AfterRead(b, 1) == Buffer([NEWLINE], 0) && !Counted(AfterRead(b, 1))
  {
    assert [97, NEWLINE][1..] == [NEWLINE] && Newlines([NEWLINE]) == 1;
  }

  /** A read returns one whole line if and only if the buffer passed is long enough for it. */
  lemma ReadReturnsLine(b: Buffer, nbytes: nat)
    requires Counted(b) && b.flag != 0
    ensures var k := Taken(b, nbytes);
      && k <= nbytes && NEWLINE !in b.pending[..if k == 0 then 0 else k - 1]
      && (k > 0 && b.pending[k - 1] == NEWLINE <==> nbytes >= LineLength(b.pending))
  {
    FlagMeansLine(b);
    var k, n := Taken(b, nbytes), LineLength(b.pending);
    NewlinesInPart(b.pending, k);
    assert n > 0;
    assert forall i :: 0 <= i && i + 1 < k ==> b.pending[i] == b.pending[..n - 1][i];
  }

  // ---- the edited stream ----

  /**
    What has been typed, after editing, since the beginning, and how much of it has been read. The
    editor knows lines, not buffers: a backspace takes back a character of the unfinished line only.
  */
  datatype Editor = Editor(stream: seq<Byte>, read: nat)

  function Unread(d: Editor): int { |d.stream| - d.read }

  function Edit(d: Editor, e: Event): Editor
    requires d.read <= |d.stream|
  {
    match e
    case Press(Char(c)) => if Unread(d) < KEYBOARD_BUF_SIZE - 1 then d.(stream := d.stream + [c]) else d
    case Press(Tab) => d.(stream := d.stream + [SPACE, SPACE, SPACE, SPACE])
    case Press(Enter) => if Unread(d) < KEYBOARD_BUF_SIZE then d.(stream := d.stream + [NEWLINE]) else d
    case Press(Backspace) =>
      if Unread(d) > 0 && d.stream[|d.stream| - 1] != NEWLINE then d.(stream := d.stream[..|d.stream| - 1]) else d
    case Press(Kill) => d.(stream := d.stream[..d.read])
    case Read(_) => d.(read := d.read + LineLength(d.stream[d.read..]))
  }

  /**
    The events for which buffer and editor agree: characters are not newlines, a tab has room, a
    backspace does not meet a finished line, a read finds a line and has room for it.
  */
  predicate Proper(b: Buffer, e: Event) {
    match e
    case Press(Char(c)) => c != NEWLINE
    case Press(Tab) => Stores(b, Tab)
    case Press(Backspace) => b.pending == [] || b.pending[|b.pending| - 1] != NEWLINE
    case Press(_) => true
    case Read(nbytes) => b.flag != 0 && nbytes >= LineLength(b.pending)
  }

  function Step(b: Buffer, e: Event): Buffer {
    match e
    case Press(key) => Pressed(b, key)
    case Read(nbytes) => AfterRead(b, nbytes)
  }

  /** The bytes an event hands to the reader. */
  function Returned(b: Buffer, e: Event): seq<Byte> {
    match e
    case Press(_) => []
    case Read(nbytes) => b.pending[..Taken(b, nbytes)]
  }

  predicate AllProper(b: Buffer, es: seq<Event>)
    decreases |es|
  {
    es == [] || (Proper(b, es[0]) && AllProper(Step(b, es[0]), es[1..]))
  }

  function Run(b: Buffer, es: seq<Event>): Buffer
    decreases |es|
  {
    if es == [] then b else Run(Step(b, es[0]), es[1..])
  }

  /** Everything the reads of a run return, one after the other. */
  function Delivered(b: Buffer, es: seq<Event>): seq<Byte>
    decreases |es|
  {
    if es == [] then [] else Returned(b, es[0]) + Delivered(Step(b, es[0]), es[1..])
  }

  function EditAll(d: Editor, es: seq<Event>): (r: Editor)
    requires d.read <= |d.stream|
    ensures r.read <= |r.stream|
    decreases |es|
  {
    if es == [] then d else EditAll(Edit(d, es[0]), es[1..])
  }

  /** Buffer b holds the unread end of editor d's stream. */
  ghost predicate Holds(b: Buffer, d: Editor) {
    d.read <= |d.stream| && Counted(b) && b.pending == d.stream[d.read..]
  }

  lemma KeyFollowsEditor(b: Buffer, d: Editor, key: Key)
    requires Holds(b, d) && Proper(b, Press(key))
    ensures Edit(d, Press(key)).read == d.read <= |Edit(d, Press(key)).stream|
    ensures Pressed(b, key).pending == Edit(d, Press(key)).stream[d.read..]
    ensures Edit(d, Press(key)).stream[..d.read] == d.stream[..d.read]
  {
  }

  lemma Shift(s: seq<Byte>, i: nat, n: nat)
    requires i + n <= |s|
    ensures s[i..][n..] == s[i + n..] && s[i..][..n] == s[i..i + n]
  {
  }

  lemma StepFollowsEditor(b: Buffer, d: Editor, e: Event)
    requires Holds(b, d) && Proper(b, e)
    ensures Holds(Step(b, e), Edit(d, e))
    ensures Edit(d, e).read == d.read + |Returned(b, e)|
    ensures |Edit(d, e).stream| >= Edit(d, e).read && Edit(d, e).stream[d.read..Edit(d, e).read] == Returned(b, e)
    ensures Edit(d, e).stream[..d.read] == d.stream[..d.read]
  {
    match e
    case Press(key) =>
      PressKeepsCount(b, key);
      KeyFollowsEditor(b, d, key);
    case Read(nbytes) =>
      ReadKeepsCount(b, nbytes);
      Shift(d.stream, d.read, LineLength(b.pending));
  }

  lemma Split(s: seq<Byte>, i: nat, j: nat)
    requires i <= j <= |s|
    ensures s[..j] == s[..i] + s[i..j]
  {
  }

  /**
    The line discipline is a queue of edited lines: after any proper run, what the reads returned
    followed by what is still buffered is the edited stream, and the flag counts the lines waiting.
  */
  lemma {:induction false} FirstInFirstOut(b: Buffer, d: Editor, es: seq<Event>)
    requires Holds(b, d) && AllProper(b, es)
    ensures Holds(Run(b, es), EditAll(d, es))
    ensures EditAll(d, es).stream == d.stream[..d.read] + Delivered(b, es) + Run(b, es).pending
    ensures EditAll(d, es).read == d.read + |Delivered(b, es)|
    decreases |es|
  {
    if es == [] {
      assert d.stream == d.stream[..d.read] + [] + d.stream[d.read..];
    } else {
      var next := Edit(d, es[0]);
      StepFollowsEditor(b, d, es[0]);
      FirstInFirstOut(Step(b, es[0]), next, es[1..]);
      Split(next.stream, d.read, next.read);
      Regroup(d.stream[..d.read], Returned(b, es[0]), Delivered(Step(b, es[0]), es[1..]));
    }
  }
}
