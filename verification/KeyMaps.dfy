/** The four character tables of keyboard.c, and what caps lock and shift do on them. */
module KeyMaps {
  import opened Bytes
  import opened Keyboard

  const TABLE_SIZE := 128
  const SCAN_L := 0x26
  const KEYPAD_MINUS := 0x4A
  const KEYPAD_PLUS := 0x4E

  /** The rows of a keyboard: scan codes 0 to 0x0F, to 0x1D, to 0x2A, and to the space bar at 0x39. */
  datatype Rows = Rows(first: string, second: string, third: string, fourth: string)

  const ORIGINAL := Rows("\0\U{1B}1234567890-=\U{08}\t", "qwertyuiop[]\n\0", "asdfghjkl;'`\0", "\\zxcvbnm,./\0*\0 ")
  const CAPSLOCK := Rows("\0\U{1B}1234567890-=\U{08}\t", "QWERTYUIOP[]\n\0", "ASDFGHJKL;'`\0", "\\ZXCVBNM,./\0*\0 ")
  const SHIFT := Rows("\0\U{1B}!@#$%^&*()_+\U{08}\t", "QWERTYUIOP{}\n\0", "ASDFGHJKL:\"~\0", "|ZXCVBNM<>?\0*\0 ")
  const CAPSSHIFT := Rows("\0\U{1B}!@#$%^&*()_+\U{08}\t", "qwertyuiop{}\n\0", "asdfghjkl:\"~\0", "|zxcvbnm<>?\0*\0 ")

  predicate Complete(r: Rows) {
    |r.first| == 16 && |r.second| == 14 && |r.third| == 13 && |r.fourth| == 15
  }

  /** Behind the space bar only the minus and the plus of the number pad have a character. */
  function Entry(r: Rows, k: nat): int
    requires Complete(r)
  {
    if k < 16 then r.first[k] as int
    else if k < 30 then r.second[k - 16] as int
    else if k < 43 then r.third[k - 30] as int
    else if k < 58 then r.fourth[k - 43] as int
    else if k == KEYPAD_MINUS then 45 else if k == KEYPAD_PLUS then 43 else NUL
  }

  function TableOf(r: Rows): (t: seq<Byte>)
    requires Complete(r) && forall k :: 0 <= k < TABLE_SIZE ==> 0 <= Entry(r, k) < 256
    ensures |t| == TABLE_SIZE && forall k :: 0 <= k < TABLE_SIZE ==> t[k] == Entry(r, k)
  {
    seq(TABLE_SIZE, k requires 0 <= k < TABLE_SIZE => Entry(r, k))
  }

  predicate IsLower(c: int) { 97 <= c <= 122 }

  predicate IsUpper(c: int) { 65 <= c <= 90 }

  predicate IsEdit(c: int) { c == NEWLINE || c == Bytes.BACKSPACE || c == TAB }

  /** One key in the four tables: a letter in its two cases, or a character and the one above it. */
  predicate Column(plain: int, caps: int, shift: int, both: int) {
    && 0 <= plain < 256 && 0 <= shift < 256 && !IsUpper(plain)
    && if IsLower(plain) then caps == shift == plain - 32 && both == plain
       else caps == plain && both == shift && !IsLower(shift) && !IsUpper(shift) && (IsEdit(shift) ==> IsEdit(plain))
  }

  predicate RowColumn(plain: string, caps: string, shift: string, both: string, k: nat)
    requires k < |plain| && k < |caps| && k < |shift| && k < |both|
  {
    Column(plain[k] as int, caps[k] as int, shift[k] as int, both[k] as int)
  }

  lemma FirstRow(k: nat)
    requires k < 16
    ensures RowColumn(ORIGINAL.first, CAPSLOCK.first, SHIFT.first, CAPSSHIFT.first, k)
  {
  }

  lemma SecondRow(k: nat)
    requires k < 14
    ensures RowColumn(ORIGINAL.second, CAPSLOCK.second, SHIFT.second, CAPSSHIFT.second, k)
  {
  }

  lemma ThirdRow(k: nat)
    requires k < 13
    ensures RowColumn(ORIGINAL.third, CAPSLOCK.third, SHIFT.third, CAPSSHIFT.third, k)
  {
  }

  lemma FourthRow(k: nat)
    requires k < 15
    ensures RowColumn(ORIGINAL.fourth, CAPSLOCK.fourth, SHIFT.fourth, CAPSSHIFT.fourth, k)
  {
  }

  /** A table's character is found in its row. */
  lemma EntryColumn(a: Rows, b: Rows, c: Rows, d: Rows, k: nat)
    requires Complete(a) && Complete(b) && Complete(c) && Complete(d)
    requires k < 16 ==> RowColumn(a.first, b.first, c.first, d.first, k)
    requires 16 <= k < 30 ==> RowColumn(a.second, b.second, c.second, d.second, k - 16)
    requires 30 <= k < 43 ==> RowColumn(a.third, b.third, c.third, d.third, k - 30)
    requires 43 <= k < 58 ==> RowColumn(a.fourth, b.fourth, c.fourth, d.fourth, k - 43)
    ensures Column(Entry(a, k), Entry(b, k), Entry(c, k), Entry(d, k))
  {
  }

  lemma Columns(k: nat)
    ensures Column(Entry(ORIGINAL, k), Entry(CAPSLOCK, k), Entry(SHIFT, k), Entry(CAPSSHIFT, k))
  {
    if k < 16 { FirstRow(k); }
    else if k < 30 { SecondRow(k - 16); }
    else if k < 43 { ThirdRow(k - 30); }
    else if k < 58 { FourthRow(k - 43); }
    EntryColumn(ORIGINAL, CAPSLOCK, SHIFT, CAPSSHIFT, k);
  }

  /** The keys with a character that edits the line, and the key that clears the screen. */
  lemma SpecialKeys(k: nat)
    ensures IsEdit(Entry(ORIGINAL, k)) <==> k == SCAN_BACKSPACE || k == SCAN_TAB || k == SCAN_ENTER
    ensures Entry(ORIGINAL, k) == LETTER_L <==> k == SCAN_L
  {
  }

  lemma AllBytes()
    ensures forall k: nat :: 0 <= Entry(ORIGINAL, k) < 256
    ensures forall k: nat :: 0 <= Entry(CAPSLOCK, k) < 256
    ensures forall k: nat :: 0 <= Entry(SHIFT, k) < 256
    ensures forall k: nat :: 0 <= Entry(CAPSSHIFT, k) < 256
  {
    forall k: nat ensures Column(Entry(ORIGINAL, k), Entry(CAPSLOCK, k), Entry(SHIFT, k), Entry(CAPSSHIFT, k)) {
      Columns(k);
    }
  }

  /** The tables of keyboard.c. */
  function Tables(): (maps: Maps)
    ensures |maps.original| == |maps.capslock| == |maps.shift| == |maps.capsshift| == TABLE_SIZE
    ensures forall k: nat :: k < TABLE_SIZE ==>
      && maps.original[k] == Entry(ORIGINAL, k) && maps.capslock[k] == Entry(CAPSLOCK, k)
      && maps.shift[k] == Entry(SHIFT, k) && maps.capsshift[k] == Entry(CAPSSHIFT, k)
  {
    AllBytes();
    Maps(TableOf(ORIGINAL), TableOf(CAPSLOCK), TableOf(SHIFT), TableOf(CAPSSHIFT))
  }

  /** No key but backspace, tab and enter has their characters, whatever is held down. */
  lemma TablesPlain()
    ensures AllPlain(Tables())
  {
    forall k: nat | k < TABLE_SIZE
      ensures k in {SCAN_BACKSPACE, SCAN_TAB, SCAN_ENTER} ||
        (!IsEdit(Entry(ORIGINAL, k)) && !IsEdit(Entry(CAPSLOCK, k)) &&
         !IsEdit(Entry(SHIFT, k)) && !IsEdit(Entry(CAPSSHIFT, k)))
    {
      Columns(k);
      SpecialKeys(k);
    }
  }

  /**
    On a letter caps lock and shift undo each other; on every other key caps lock does nothing, and no
    letter appears. Ctrl clears the screen with the key L alone.
  */
  lemma CapsAndShift(scancode: Byte, caps: bool, shift: bool)
    requires scancode < MAP_END
    ensures var plain, c := Tables().original[scancode], MapFor(Tables(), caps, shift)[scancode];
      if IsLower(plain) then c == if caps != shift then plain - 32 else plain
      else c == MapFor(Tables(), false, shift)[scancode] && !IsLower(c) && !IsUpper(c)
    ensures Tables().original[scancode] == LETTER_L <==> scancode == SCAN_L
  {
    Columns(scancode);
    SpecialKeys(scancode);
  }
}
