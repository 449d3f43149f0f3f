/** The keyboard side of the line discipline in its own form (keyboard.c), and terminal_read (terminal.c). */
module Keyboard {
  import opened Common
  import opened Bytes
  import opened LineDiscipline

  /** The array after its first k bytes have been shifted out. */
  function Shifted(mem: seq<Byte>, k: nat): (r: seq<Byte>)
    requires k <= |mem|
    ensures |r| == |mem|
  {
    mem[k..] + seq(k, _ => NUL)
  }

  /** How many bytes the copying loop of terminal_read takes from an array. */
  function Scanned(mem: seq<Byte>, nbytes: nat): (n: nat)
    ensures n <= |mem|
  {
    if nbytes < LineLength(mem) then nbytes else LineLength(mem)
  }

  lemma {:induction false} LineLengthIs(mem: seq<Byte>, k: nat)
    requires 0 < k <= |mem| && NEWLINE !in mem[..k - 1] && mem[k - 1] == NEWLINE
    ensures LineLength(mem) == k
  {
    if k > 1 {
      assert mem[0] == mem[..k - 1][0];
      assert mem[1..][..k - 2] == mem[..k - 1][1..];
      LineLengthIs(mem[1..], k - 1);
    }
  }

  lemma NoneBefore(mem: seq<Byte>, n: nat, i: nat)
    requires n <= |mem| && i < |mem| && mem[i] == NEWLINE
    ensures i < n ==> NEWLINE in mem[..n]
  {
    if i < n { assert mem[..n][i] == NEWLINE; }
  }

  lemma FirstLineWithin(mem: seq<Byte>, n: nat)
    requires n <= |mem| && NEWLINE in mem[..n]
    ensures LineLength(mem) == LineLength(mem[..n])
  {
    var b := LineLength(mem[..n]);
    assert mem[..n][..b - 1] == mem[..b - 1];
    LineLengthIs(mem, b);
  }

  lemma FirstLine(mem: seq<Byte>, n: nat)
    requires n <= |mem|
    ensures NEWLINE in mem[..n] ==> LineLength(mem) == LineLength(mem[..n])
    ensures NEWLINE !in mem[..n] ==> LineLength(mem) >= n && (LineLength(mem) == n ==> NEWLINE !in mem)
  {
    if NEWLINE in mem[..n] {
      FirstLineWithin(mem, n);
    } else if NEWLINE in mem {
      NoneBefore(mem, n, LineLength(mem) - 1);
    }
  }

  /** It stays within the first n bytes if and only if it finds a newline there or is not asked for more. */
  lemma ScannedWithin(mem: seq<Byte>, n: nat, nbytes: nat)
    requires n <= |mem| && (nbytes <= |mem| || NEWLINE in mem)
    ensures Scanned(mem, nbytes) <= n <==> NEWLINE in mem[..n] || nbytes <= n
    ensures Scanned(mem, nbytes) <= n ==> Scanned(mem, nbytes) == Taken(Buffer(mem[..n], 0), nbytes)
  {
    FirstLine(mem, n);
  }

  lemma ShiftedView(was: seq<Byte>, n: nat, k: nat)
    requires k <= n <= |was|
    ensures Shifted(was, k)[..n - k] == was[..n][k..]
  {
  }

  /** What the read means for the typed bytes, if it stays within them. */
  lemma ReadMeans(was: seq<Byte>, now: seq<Byte>, n: nat, flag: int, nbytes: nat)
    requires n <= |was| == |now| && (nbytes <= |was| || NEWLINE in was)
    requires now == Shifted(was, Scanned(was, nbytes))
    ensures var k, b := Scanned(was, nbytes), Buffer(was[..n], flag);
      k <= n ==> k == Taken(b, nbytes) && Buffer(now[..n - k], Int8(flag - 1)) == AfterRead(b, nbytes)
  {
    ScannedWithin(was, n, nbytes);
    var k := Scanned(was, nbytes);
    if k <= n { ShiftedView(was, n, k); }
  }

  class KeyBuffer {
    const keyBuf: array<Byte>
    var numBuf: int
    var bufFlag: int

    ghost predicate Valid()
      reads this
    {
      keyBuf.Length == KEYBOARD_BUF_SIZE && 0 <= numBuf <= KEYBOARD_BUF_SIZE
    }

    function View(): Buffer
      reads this, keyBuf
      requires Valid()
    {
      Buffer(keyBuf[..numBuf], bufFlag)
    }

    /** The end of keyboard_print, for a key that stands for character c. */
    method PutChar(c: Byte)
      requires Valid()
      modifies this, keyBuf
      ensures Valid() && View() == Pressed(old(View()), Char(c))
      ensures keyBuf[..] == if numBuf == old(numBuf) then old(keyBuf[..]) else old(keyBuf[..])[old(numBuf) := c]
    {
      if numBuf >= KEYBOARD_BUF_SIZE - 1 {
        return;
      }
      keyBuf[numBuf] := c;
      numBuf := numBuf + 1;
    }

    method PutTab()
      requires Valid() && Stores(View(), Tab)
      modifies this, keyBuf
      ensures Valid() && View() == Pressed(old(View()), Tab)
    {
      for i := 0 to TAB_SIZE
        invariant numBuf == old(numBuf) + i && bufFlag == old(bufFlag)
        invariant keyBuf[..numBuf] == old(keyBuf[..numBuf]) + [SPACE, SPACE, SPACE, SPACE][..i]
      {
        keyBuf[numBuf] := SPACE;
        numBuf := numBuf + 1;
      }
    }

    method Erase()
      requires Valid()
      modifies this
      ensures Valid() && View() == Pressed(old(View()), Backspace)
    {
      if numBuf > 0 {
        numBuf := numBuf - 1;
        assert keyBuf[..numBuf] == keyBuf[..numBuf + 1][..numBuf];
      }
    }

    method PutEnter()
      requires Valid()
      modifies this, keyBuf
      ensures Valid() && View() == Pressed(old(View()), Enter)
      ensures keyBuf[..] == if numBuf == old(numBuf) then old(keyBuf[..]) else old(keyBuf[..])[old(numBuf) := NEWLINE]
    {
      if numBuf == KEYBOARD_BUF_SIZE {
        return;
      }
      keyBuf[numBuf] := NEWLINE;
      numBuf := numBuf + 1;
      bufFlag := Int8(bufFlag + 1);
    }

    method Wipe()
      requires Valid()
      modifies this, keyBuf
      ensures Valid() && View() == Pressed(old(View()), Kill)
    {
      for i := 0 to KEYBOARD_BUF_SIZE
        invariant Valid()
      {
        keyBuf[i] := NUL;
      }
      numBuf := 0;
      bufFlag := 0;
    }

    /** The bookkeeping at the end. */
    method CountDown(byteRead: nat)
      modifies this`numBuf, this`bufFlag
      ensures numBuf == old(numBuf) - byteRead && bufFlag == Int8(old(bufFlag) - 1)
    {
      numBuf := numBuf - byteRead;
      bufFlag := Int8(bufFlag - 1);
    }

    method CopyLine(buf: array<Byte>, nbytes: nat) returns (byteRead: nat)
      requires keyBuf.Length == KEYBOARD_BUF_SIZE && nbytes <= buf.Length && buf != keyBuf
      requires nbytes <= KEYBOARD_BUF_SIZE || NEWLINE in keyBuf[..]
      modifies buf
      ensures byteRead == Scanned(keyBuf[..], nbytes) && buf[..byteRead] == keyBuf[..][..byteRead]
      ensures keyBuf[..] == old(keyBuf[..])
    {
      byteRead := 0;
      ghost var line := LineLength(keyBuf[..]);
      for i := 0 to nbytes
        invariant byteRead == i <= line
        invariant buf[..i] == keyBuf[..i] && NEWLINE !in keyBuf[..i]
      {
        buf[i] := keyBuf[i];
        byteRead := byteRead + 1;
        if buf[i] == NEWLINE {
          break;
        }
      }
    }

    method Shift(byteRead: nat)
      requires keyBuf.Length == KEYBOARD_BUF_SIZE && byteRead <= KEYBOARD_BUF_SIZE
      modifies keyBuf
      ensures keyBuf[..] == Shifted(old(keyBuf[..]), byteRead)
    {
      for j := 0 to KEYBOARD_BUF_SIZE - byteRead
        invariant forall k :: 0 <= k < j ==> keyBuf[k] == old(keyBuf[k + byteRead])
        invariant forall k :: j <= k < KEYBOARD_BUF_SIZE ==> keyBuf[k] == old(keyBuf[k])
      {
        keyBuf[j] := keyBuf[j + byteRead];
      }
      for j := 1 to byteRead + 1
        invariant forall k :: 0 <= k < KEYBOARD_BUF_SIZE - byteRead ==> keyBuf[k] == old(keyBuf[k + byteRead])
        invariant forall k :: KEYBOARD_BUF_SIZE - j < k < KEYBOARD_BUF_SIZE ==> keyBuf[k] == NUL
      {
        keyBuf[KEYBOARD_BUF_SIZE - j] := NUL;
      }
    }

    /** The two loops over the array. */
    method TakeOut(buf: array<Byte>, nbytes: nat) returns (byteRead: nat)
      requires keyBuf.Length == KEYBOARD_BUF_SIZE && nbytes <= buf.Length && buf != keyBuf
      requires nbytes <= KEYBOARD_BUF_SIZE || NEWLINE in keyBuf[..]
      modifies keyBuf, buf
      ensures byteRead == Scanned(old(keyBuf[..]), nbytes) && buf[..byteRead] == old(keyBuf[..])[..byteRead]
      ensures keyBuf[..] == Shifted(old(keyBuf[..]), byteRead)
    {
      byteRead := CopyLine(buf, nbytes);
      Shift(byteRead);
    }

    /**
      terminal_read once its wait is over. The copying loop looks for a newline in the whole array, not
      only in what has been typed, so it may run past that; see the last two clauses for when.
    */
    method Read(buf: array<Byte>, nbytes: nat) returns (byteRead: nat)
      requires Valid() && bufFlag != 0 && nbytes <= buf.Length && buf != keyBuf
      requires nbytes <= KEYBOARD_BUF_SIZE || NEWLINE in keyBuf[..]
      modifies this, keyBuf, buf
      ensures byteRead == Scanned(old(keyBuf[..]), nbytes) && buf[..byteRead] == old(keyBuf[..])[..byteRead]
      ensures keyBuf[..] == Shifted(old(keyBuf[..]), byteRead)
      ensures numBuf == old(numBuf) - byteRead && bufFlag == Int8(old(bufFlag) - 1)
      ensures Valid() <==> NEWLINE in old(View()).pending || nbytes <= old(numBuf)
      ensures Valid() ==> byteRead == Taken(old(View()), nbytes) && View() == AfterRead(old(View()), nbytes)
    {
      ghost var was, n, flag := keyBuf[..], numBuf, bufFlag;
      ScannedWithin(was, n, nbytes);
      byteRead := TakeOut(buf, nbytes);
      ReadMeans(was, keyBuf[..], n, flag, nbytes);
      CountDown(byteRead);
    }
  }

  /** The last index the clearing loop of terminal_read writes after byteRead bytes. */
  function LastCleared(byteRead: nat): int { KEYBOARD_BUF_SIZE - byteRead }

  /**
    `mem` is the memory from the key buffer on. The copying loop leaves the buffer, and the clearing loop
    behind it writes in front of it, if and only if more than 128 bytes are asked for and none of the
    buffer's bytes is a newline.
  */
  lemma CopyLeaves(mem: seq<Byte>, nbytes: nat)
    requires |mem| >= KEYBOARD_BUF_SIZE && (nbytes <= |mem| || NEWLINE in mem)
    ensures Scanned(mem, nbytes) > KEYBOARD_BUF_SIZE
       <==> nbytes > KEYBOARD_BUF_SIZE && NEWLINE !in mem[..KEYBOARD_BUF_SIZE]
    ensures LastCleared(Scanned(mem, nbytes)) < 0
       <==> nbytes > KEYBOARD_BUF_SIZE && NEWLINE !in mem[..KEYBOARD_BUF_SIZE]
  {
    ScannedWithin(mem, KEYBOARD_BUF_SIZE, nbytes);
  }

  const SHELL_READ := 1023

  lemma ReadsOn(was: seq<Byte>, c: Byte, beyond: seq<Byte>)
    requires |was| == KEYBOARD_BUF_SIZE && NEWLINE !in was && c != NEWLINE && KEYBOARD_BUF_SIZE + |beyond| >= SHELL_READ
    ensures Scanned(was[0 := c] + beyond, SHELL_READ) > KEYBOARD_BUF_SIZE
  {
    var typed := was[0 := c];
    var mem := typed + beyond;
    assert mem[..KEYBOARD_BUF_SIZE] == typed;
    forall i | 0 <= i < KEYBOARD_BUF_SIZE ensures typed[i] != NEWLINE {
      assert was[i] in was;
    }
    CopyLeaves(mem, SHELL_READ);
  }

  /**
    Enter, a backspace and a letter in an empty buffer: a line is announced and no newline is anywhere in
    the array. The shell, which asks for 1023 bytes, then reads on behind it.
  */
  method TypeOverErased(k: KeyBuffer, c: Byte, beyond: seq<Byte>)
    requires k.Valid() && k.numBuf == 0 && k.bufFlag == 0 && NEWLINE !in k.keyBuf[..] && c != NEWLINE
    requires KEYBOARD_BUF_SIZE + |beyond| >= SHELL_READ
    modifies k, k.keyBuf
    ensures k.Valid() && k.bufFlag == 1 && k.numBuf == 1
    ensures Scanned(k.keyBuf[..] + beyond, SHELL_READ) > KEYBOARD_BUF_SIZE
  {
    ghost var was: seq<Byte> := k.keyBuf[..];
    k.PutEnter();
    assert k.View() == Buffer([NEWLINE], 1);
    k.Erase();
    assert k.View() == Buffer([], 1);
    k.PutChar(c);
    assert k.View() == Buffer([c], 1);
    assert k.keyBuf[..] == was[0 := NEWLINE][0 := c] == was[0 := c];
    ReadsOn(was, c, beyond);
  }

  /**
    Enter and a backspace in an empty buffer, and then a read: the erased newline is read all the same,
    and the number of typed bytes becomes -1, so that the next key is stored in front of the array.
  */
  method EraseThenRead(k: KeyBuffer, buf: array<Byte>) returns (byteRead: nat)
    requires k.Valid() && k.numBuf == 0 && k.bufFlag == 0 && buf.Length == KEYBOARD_BUF_SIZE && buf != k.keyBuf
    modifies k, k.keyBuf, buf
    ensures byteRead == 1 && buf[0] == NEWLINE && k.numBuf == -1
  {
    k.PutEnter();
    k.Erase();
    assert k.keyBuf[0] == NEWLINE;
    LineLengthIs(k.keyBuf[..], 1);
    byteRead := k.Read(buf, KEYBOARD_BUF_SIZE);
  }

  // ---- scan codes ----

  const SCAN_BACKSPACE := 0x0E
  const SCAN_TAB := 0x0F
  const SCAN_ENTER := 0x1C
  const SCAN_CTRL := 0x1D
  const SCAN_SHIFT_L := 0x2A
  const SCAN_SHIFT_R := 0x36
  const SCAN_ALT := 0x38
  const SCAN_CAPSLOCK := 0x3A
  const SCAN_F1 := 0x3B
  const SCAN_F3 := 0x3D
  const RELEASED := 0x80
  const MAP_END := 0x60
  const LETTER_L: Byte := 108

  /** The four character tables; KeyMaps has their contents. */
  datatype Maps = Maps(original: seq<Byte>, capslock: seq<Byte>, shift: seq<Byte>, capsshift: seq<Byte>)

  predicate Plain(map': seq<Byte>) {
    && |map'| == 128
    && forall i :: 0 <= i < MAP_END && i !in {SCAN_BACKSPACE, SCAN_TAB, SCAN_ENTER} ==>
         map'[i] != NEWLINE && map'[i] != Bytes.BACKSPACE && map'[i] != TAB
  }

  predicate AllPlain(maps: Maps) {
    Plain(maps.original) && Plain(maps.capslock) && Plain(maps.shift) && Plain(maps.capsshift)
  }

  /** What a scan code does to the displayed terminal: nothing, an edit of its line, or a switch away from it. */
  datatype Action = Nothing | Edit(key: Key) | GoTo(terminal: nat)

  function MapFor(maps: Maps, caps: bool, shift: bool): seq<Byte> {
    match (caps, shift)
    case (true, false) => maps.capslock
    case (false, true) => maps.shift
    case (true, true) => maps.capsshift
    case (false, false) => maps.original
  }

  predicate IsShift(scancode: int) { scancode == SCAN_SHIFT_L || scancode == SCAN_SHIFT_R }

  /** The scan codes that reach keyboard_print and lie in the tables. */
  predicate IsKey(scancode: Byte) {
    && scancode < MAP_END && !IsShift(scancode) && !(SCAN_F1 <= scancode <= SCAN_F3)
    && scancode !in {SCAN_BACKSPACE, SCAN_TAB, SCAN_ENTER, SCAN_CTRL, SCAN_ALT, SCAN_CAPSLOCK}
  }

  class Keyboard {
    const maps: Maps
    var ctrl: bool
    var shift: bool
    var alt: bool
    var caps: bool

    /** keyboard_print, up to the store into the buffer. */
    method Print(scancode: Byte) returns (a: Action)
      requires AllPlain(maps) && scancode !in {SCAN_BACKSPACE, SCAN_TAB, SCAN_ENTER}
      ensures a == Edit(Kill) <==> scancode < MAP_END && ctrl && maps.original[scancode] == LETTER_L
      ensures a == Nothing || a == Edit(Kill)
        || (a.Edit? && a.key.Char? && a.key.c !in {NUL, NEWLINE, Bytes.BACKSPACE, TAB})
      ensures a.Edit? && a.key.Char? <==>
        scancode < MAP_END && MapFor(maps, caps, shift)[scancode] != NUL && a != Edit(Kill)
      ensures a.Edit? && a.key.Char? ==> a.key.c == MapFor(maps, caps, shift)[scancode]
    {
      if scancode >= MAP_END {
        return Nothing;
      }
      if ctrl && maps.original[scancode] == LETTER_L {
        return Edit(Kill);
      }
      var c := if caps && !shift then maps.capslock[scancode] else if !caps && shift then maps.shift[scancode]
               else if caps && shift then maps.capsshift[scancode] else maps.original[scancode];
      a := if c != NUL then Edit(Char(c)) else Nothing;
    }

    /** keyboard_handler, up to the call that carries the action out. */
    method Interpret(scancode: Byte, displayed: nat) returns (a: Action)
      requires AllPlain(maps)
      modifies this
      ensures ctrl == if scancode == SCAN_CTRL then true else if scancode == SCAN_CTRL + RELEASED then false
        else old(ctrl)
      ensures shift == if IsShift(scancode) then true else if IsShift(scancode - RELEASED) then false else old(shift)
      ensures alt == if scancode == SCAN_ALT then true else if scancode == SCAN_ALT + RELEASED then false else old(alt)
      ensures caps == if scancode == SCAN_CAPSLOCK then !old(caps) else old(caps)
      ensures a.GoTo? <==> SCAN_F1 <= scancode <= SCAN_F3 && alt && displayed != scancode - SCAN_F1
      ensures a.GoTo? ==> a.terminal == scancode - SCAN_F1
      ensures a == Edit(Tab) <==> scancode == SCAN_TAB
      ensures a == Edit(Backspace) <==> scancode == SCAN_BACKSPACE
      ensures a == Edit(Enter) <==> scancode == SCAN_ENTER
      ensures a == Edit(Kill) <==> IsKey(scancode) && ctrl && maps.original[scancode] == LETTER_L
      ensures a.Edit? && a.key.Char? <==>
        IsKey(scancode) && MapFor(maps, caps, shift)[scancode] != NUL && !(ctrl && maps.original[scancode] == LETTER_L)
      ensures a.Edit? && a.key.Char? ==>
        a.key.c == MapFor(maps, caps, shift)[scancode] && a.key.c !in {NUL, NEWLINE, Bytes.BACKSPACE, TAB}
    {
      a := Nothing;
      if scancode == SCAN_CTRL {
        ctrl := true;
      } else if scancode == SCAN_SHIFT_L || scancode == SCAN_SHIFT_R {
        shift := true;
      } else if scancode == SCAN_ALT {
        alt := true;
      } else if scancode == SCAN_CAPSLOCK {
        caps := !caps;
      } else if scancode == SCAN_CTRL + RELEASED {
        ctrl := false;
      } else if scancode == SCAN_SHIFT_L + RELEASED || scancode == SCAN_SHIFT_R + RELEASED {
        shift := false;
      } else if scancode == SCAN_ALT + RELEASED {
        alt := false;
      } else if SCAN_F1 <= scancode <= SCAN_F3 {
        if alt && displayed != scancode - SCAN_F1 { a := GoTo(scancode - SCAN_F1); }
      } else if scancode == SCAN_TAB {
        a := Edit(Tab);
      } else if scancode == SCAN_BACKSPACE {
        a := Edit(Backspace);
      } else if scancode == SCAN_ENTER {
        a := Edit(Enter);
      } else {
        a := Print(scancode);
      }
    }
  }
}
