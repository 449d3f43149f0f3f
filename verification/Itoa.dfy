/** Numerals: itoa and strrev, and the number conversions of printf (lib.c, and their twins in ece391support.c). */
module Itoa {
  import opened Common
  import opened Bytes
  import Arithmetic

  const INT32 := 0x8000_0000
  const MINUS: Byte := 45
  const ZERO: Byte := 48

  // ---- numerals ----

  /** The number a digit sequence stands for, most significant digit first. */
  function Value(ds: seq<nat>, radix: nat): nat {
    if ds == [] then 0 else Value(ds[..|ds| - 1], radix) * radix + ds[|ds| - 1]
  }

  predicate Digits(ds: seq<nat>, radix: nat) {
    ds != [] && forall i :: 0 <= i < |ds| ==> ds[i] < radix
  }

  predicate NoLeadingZero(ds: seq<nat>) {
    |ds| > 1 ==> ds[0] != 0
  }

  function Numeral(v: nat, radix: nat): (ds: seq<nat>)
    requires radix >= 2
    ensures Digits(ds, radix)
  {
    if v < radix then [v] else
      Arithmetic.DivisionShrinks(v, radix);
      Numeral(v / radix, radix) + [v % radix]
  }

  lemma ValueSnoc(front: seq<nat>, d: nat, radix: nat)
    ensures Value(front + [d], radix) == Value(front, radix) * radix + d
  {
    assert (front + [d])[..|front|] == front;
  }

  lemma OneDigit(d: nat, radix: nat)
    ensures Value([d], radix) == d
  {
    assert [d][..0] == [];
  }

  lemma ParsesSnoc(front: seq<nat>, d: nat, radix: nat)
    requires front != []
    ensures Value(front + [d], radix) == radix * Value(front, radix) + d && (front + [d])[0] == front[0]
  {
    ValueSnoc(front, d, radix);
  }

  /** The numeral of v parses back to v and has no leading zero. */
  lemma {:induction false} NumeralParses(v: nat, radix: nat)
    requires radix >= 2
    ensures Value(Numeral(v, radix), radix) == v && NoLeadingZero(Numeral(v, radix))
    ensures v > 0 ==> Numeral(v, radix)[0] != 0
    decreases v
  {
    if v < radix {
      OneDigit(v, radix);
    } else {
      Arithmetic.DivisionShrinks(v, radix);
      NumeralParses(v / radix, radix);
      ParsesSnoc(Numeral(v / radix, radix), v % radix, radix);
    }
  }

  lemma NumeralSnoc(q: nat, d: nat, radix: nat)
    requires radix >= 2 && q > 0 && d < radix
    ensures Numeral(q * radix + d, radix) == Numeral(q, radix) + [d]
  {
    Arithmetic.DivisionOf(radix, q, d);
    Arithmetic.MultipleIsFar(radix, q);
  }

  lemma {:induction false} PositiveValue(ds: seq<nat>, radix: nat)
    requires radix >= 2 && Digits(ds, radix) && ds[0] != 0
    ensures Value(ds, radix) > 0
  {
    var n := |ds| - 1;
    if n == 0 {
      assert ds[..0] == [];
    } else {
      PositiveValue(ds[..n], radix);
    }
  }

  /** And it is the only one. */
  lemma {:induction false} NumeralUnique(ds: seq<nat>, radix: nat)
    requires radix >= 2 && Digits(ds, radix) && NoLeadingZero(ds)
    ensures ds == Numeral(Value(ds, radix), radix)
  {
    var n := |ds| - 1;
    var front, d := ds[..n], ds[n];
    if n == 0 {
      assert front == [] && ds == [d];
    } else {
      NumeralUnique(front, radix);
      PositiveValue(front, radix);
      NumeralSnoc(Value(front, radix), d, radix);
      assert ds == front + [d];
    }
  }

  /** Zeros in front change nothing. */
  lemma {:induction false} PaddingValue(k: nat, ds: seq<nat>, radix: nat)
    ensures Value(seq(k, _ => 0) + ds, radix) == Value(ds, radix)
    decreases k + |ds|
  {
    var padded := seq(k, _ => 0) + ds;
    if ds != [] {
      var n := |ds| - 1;
      assert padded[..|padded| - 1] == seq(k, _ => 0) + ds[..n];
      PaddingValue(k, ds[..n], radix);
    } else if k > 0 {
      assert padded[..k - 1] == seq(k - 1, _ => 0) + [];
      PaddingValue(k - 1, [], radix);
    }
  }

  function Power(radix: nat, k: nat): nat { if k == 0 then 1 else radix * Power(radix, k - 1) }

  /** A number below radix^k has at most k digits. */
  lemma {:induction false} NumeralLength(v: nat, radix: nat, k: nat)
    requires radix >= 2 && k > 0 && v < Power(radix, k)
    ensures |Numeral(v, radix)| <= k
    decreases k
  {
    if v >= radix {
      assert Power(radix, k) == radix * Power(radix, k - 1);
      Arithmetic.QuotientBelow(v, radix, Power(radix, k - 1));
      NumeralLength(v / radix, radix, k - 1);
    }
  }

  // ---- characters ----

  function DigitChar(d: nat): Byte
    requires d < 36
  {
    if d < 10 then 48 + d else 55 + d
  }

  /** The table of itoa. */
  const LOOKUP := "0123456789ABCDEFGHIJKLMNOPQRSTUVWXYZ"

  lemma DigitsAsLookup(d: nat)
    requires d < 36
    ensures |LOOKUP| == 36 && DigitChar(d) == LOOKUP[d] as int
  {
    var tens := ["0123456789", "ABCDEFGHIJ", "KLMNOPQRST", "UVWXYZ"];
    assert LOOKUP == tens[0] + tens[1] + tens[2] + tens[3];
    if d < 10 {
      assert LOOKUP[d] == tens[0][d];
    } else if d < 20 {
      assert LOOKUP[d] == tens[1][d - 10];
    } else if d < 30 {
      assert LOOKUP[d] == tens[2][d - 20];
    } else {
      assert LOOKUP[d] == tens[3][d - 30];
    }
  }

  function CharDigit(c: Byte): nat { if 48 <= c < 58 then c - 48 else if 65 <= c < 91 then c - 55 else 0 }

  function Text(ds: seq<nat>): (t: seq<Byte>)
    requires forall i :: 0 <= i < |ds| ==> ds[i] < 36
    ensures |t| == |ds| && NulFree(t) && forall i :: 0 <= i < |ds| ==> t[i] == DigitChar(ds[i])
  {
    seq(|ds|, i requires 0 <= i < |ds| => DigitChar(ds[i]))
  }

  function Read(t: seq<Byte>): (ds: seq<nat>)
    ensures |ds| == |t| && forall i :: 0 <= i < |t| ==> ds[i] == CharDigit(t[i])
  {
    seq(|t|, i requires 0 <= i < |t| => CharDigit(t[i]))
  }

  lemma ReadText(ds: seq<nat>)
    requires forall i :: 0 <= i < |ds| ==> ds[i] < 36
    ensures Read(Text(ds)) == ds
  {
  }

  // ---- itoa ----

  function Reverse<T>(s: seq<T>): (r: seq<T>)
    ensures |r| == |s| && forall i :: 0 <= i < |s| ==> r[i] == s[|s| - 1 - i]
  {
    seq(|s|, i requires 0 <= i < |s| => s[|s| - 1 - i])
  }

  method StrLen(buf: array<Byte>, at: nat, ghost end: nat) returns (len: nat)
    requires at <= end < buf.Length && buf[end] == NUL && NulFree(buf[at..end])
    ensures len == end - at
  {
    len := 0;
    while buf[at + len] != NUL
      invariant at + len <= end
      decreases end - at - len
    {
      len := len + 1;
    }
  }

  /** strrev of the string that stands at `at`. */
  method StrRev(buf: array<Byte>, at: nat, ghost end: nat)
    requires at <= end < buf.Length && buf[end] == NUL && NulFree(buf[at..end])
    modifies buf
    ensures buf[at..end] == Reverse(old(buf[at..end]))
    ensures buf[..at] == old(buf[..at]) && buf[end..] == old(buf[end..])
  {
    var len := StrLen(buf, at, end);
    ghost var was := buf[..];
    var beg: int, last: int := 0, len - 1;
    while beg < last
      invariant 0 <= beg <= len && last == len - 1 - beg
      invariant forall k :: at <= k < at + beg || at + last < k < end ==> buf[k] == was[at + end - 1 - k]
      invariant forall k :: at + beg <= k <= at + last ==> buf[k] == was[k]
      invariant forall k :: 0 <= k < at || end <= k < buf.Length ==> buf[k] == was[k]
    {
      var tmp := buf[at + last];
      buf[at + last] := buf[at + beg];
      buf[at + beg] := tmp;
      beg := beg + 1;
      last := last - 1;
    }
    assert buf[at..end] == Reverse(was[at..end]);
  }

  lemma DigitStep(v: nat, radix: nat, ds: seq<nat>)
    requires radix >= 2 && v > 0
    ensures Numeral(v, radix) + Reverse(ds)
         == (if v / radix == 0 then [] else Numeral(v / radix, radix)) + Reverse(ds + [v % radix])
    ensures v % radix < radix
  {
    Arithmetic.DivisionShrinks(v, radix);
    assert Reverse(ds + [v % radix]) == [v % radix] + Reverse(ds);
  }

  /** The digit loop of itoa: the digits, least significant first. */
  method WriteDigits(value: nat, buf: array<Byte>, at: nat, radix: nat) returns (k: nat, ghost ds: seq<nat>)
    requires value > 0 && 2 <= radix <= 36 && at + |Numeral(value, radix)| < buf.Length
    modifies buf
    ensures k == |ds| && Reverse(ds) == Numeral(value, radix) && (forall i :: 0 <= i < |ds| ==> ds[i] < 36)
    ensures buf[at..at + |ds|] == Text(ds)
    ensures buf[..at] == old(buf[..at]) && buf[at + |ds|..] == old(buf[at + |ds|..])
  {
    var newval: nat := value;
    k, ds := 0, [];
    while newval > 0
      invariant |ds| == k && at + k < buf.Length
      invariant Numeral(value, radix) == (if newval == 0 then [] else Numeral(newval, radix)) + Reverse(ds)
      invariant forall j :: 0 <= j < k ==> ds[j] < 36 && buf[at + j] == DigitChar(ds[j])
      invariant forall j :: 0 <= j < at || at + k <= j < buf.Length ==> buf[j] == old(buf[j])
      decreases newval
    {
      var i := newval % radix;
      DigitStep(newval, radix, ds);
      Arithmetic.DivisionShrinks(newval, radix);
      ds := ds + [i];
      buf[at + k] := DigitChar(i);
      k := k + 1;
      newval := newval / radix;
    }
  }

  /** itoa: the numeral of value in the given radix, with its terminator, from `at` on. */
  method Itoa(value: nat, buf: array<Byte>, at: nat, radix: nat) returns (ghost n: nat)
    requires value < UINT32 && 2 <= radix <= 36 && at + |Numeral(value, radix)| < buf.Length
    modifies buf
    ensures n == |Numeral(value, radix)| && buf[at..at + n] == Text(Numeral(value, radix)) && buf[at + n] == NUL
    ensures buf[..at] == old(buf[..at]) && buf[at + n + 1..] == old(buf[at + n + 1..])
  {
    n := |Numeral(value, radix)|;
    if value == 0 {
      buf[at] := ZERO;
      buf[at + 1] := NUL;
      return;
    }
    var k;
    ghost var ds;
    k, ds := WriteDigits(value, buf, at, radix);
    buf[at + k] := NUL;
    assert buf[at..at + n] == Text(ds);
    StrRev(buf, at, at + n);
    assert buf[at + n + 1..] == buf[at + n..][1..] && buf[at + n] == buf[at + n..][0];
    assert Reverse(Text(ds)) == Text(Numeral(value, radix));
  }

  // ---- the conversions of printf ----

  lemma EightDigits(value: nat)
    requires value < UINT32
    ensures |Numeral(value, 16)| <= 8
  {
    assert Power(16, 8) == UINT32;
    NumeralLength(value, 16, 8);
  }

  lemma PaddedText(mem: seq<Byte>, ds: seq<nat>, padded: seq<nat>)
    requires |mem| == 64 && 0 < |ds| <= 8 && forall i :: 0 <= i < |ds| ==> ds[i] < 16
    requires |padded| == 8 && forall i :: 0 <= i < 8 ==> padded[i] == if i < 8 - |ds| then 0 else ds[i - (8 - |ds|)]
    requires (forall k :: |ds| <= k < 8 ==> mem[k] == ZERO) && mem[8..8 + |ds|] == Text(ds)
    ensures mem[|ds|..8 + |ds|] == Text(padded)
  {
    forall i | 0 <= i < 8 ensures mem[|ds|..8 + |ds|][i] == DigitChar(padded[i]) {
      if i >= 8 - |ds| { assert mem[|ds| + i] == mem[8..8 + |ds|][i - (8 - |ds|)]; }
    }
  }

  /** The zeros in front of the digits that stand at 8, and the output of the whole. */
  method PadTo8(buf: array<Byte>, ghost ds: seq<nat>, ghost padded: seq<nat>) returns (out: seq<Byte>)
    requires buf.Length == 64 && 0 < |ds| <= 8 && forall i :: 0 <= i < |ds| ==> ds[i] < 16
    requires buf[8..8 + |ds|] == Text(ds) && buf[8 + |ds|] == NUL
    requires |padded| == 8 && forall i :: 0 <= i < 8 ==> padded[i] == if i < 8 - |ds| then 0 else ds[i - (8 - |ds|)]
    modifies buf
    ensures out == Text(padded)
  {
    var start := StrLen(buf, 8, 8 + |ds|);
    var i := start;
    while i < 8
      invariant start <= i <= 8
      invariant forall k :: start <= k < i ==> buf[k] == ZERO
      invariant buf[8..8 + start] == Text(ds) && buf[8 + start] == NUL
    {
      buf[i] := ZERO;
      i := i + 1;
    }
    PaddedText(buf[..], ds, padded);
    var len := StrLen(buf, start, 8 + start);
    out := buf[start..start + len];
  }

  /** %#x: exactly eight hexadecimal digits, which parse back to the value. */
  method PrintHex8(value: nat) returns (out: seq<Byte>)
    requires value < UINT32
    ensures |out| == 8 && Value(Read(out), 16) == value
    ensures forall i :: 0 <= i < 8 ==> exists d | 0 <= d < 16 :: out[i] == DigitChar(d)
  {
    EightDigits(value);
    var buf := new Byte[64];
    ghost var ds := Numeral(value, 16);
    ghost var n := Itoa(value, buf, 8, 16);
    ghost var padded := seq(8 - n, _ => 0) + ds;
    out := PadTo8(buf, ds, padded);
    PaddingValue(8 - n, ds, 16);
    NumeralParses(value, 16);
    ReadText(padded);
    forall i | 0 <= i < 8 ensures exists d | 0 <= d < 16 :: out[i] == DigitChar(d) {
      assert out[i] == DigitChar(padded[i]) && padded[i] < 16;
    }
  }

  /** %d of a 32-bit two's complement number. */
  method PrintSigned(value: int) returns (out: seq<Byte>)
    requires -INT32 <= value < INT32
    ensures value < 0 ==> out == [MINUS] + Text(Numeral(-value, 10))
    ensures value >= 0 ==> out == Text(Numeral(value, 10))
  {
    assert Power(10, 10) == 10000000000;
    NumeralLength(if value < 0 then -value else value, 10, 10);
    var buf := new Byte[36];
    ghost var n;
    if value < 0 {
      buf[0] := MINUS;
      n := Itoa((-value) % UINT32, buf, 1, 10);
      assert buf[0] == buf[..1][0];
      assert buf[0..1 + n] == [MINUS] + Text(Numeral(-value, 10));
      n := n + 1;
    } else {
      n := Itoa(value, buf, 0, 10);
    }
    var len := StrLen(buf, 0, n);
    out := buf[0..len];
  }
}
