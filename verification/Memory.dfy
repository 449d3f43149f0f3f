/**
  The string instructions behind memset, memcpy and memmove (lib.c), on a flat memory whose indices are
  addresses.
*/
module Memory {
  import opened Bytes

  /** now is was with n bytes from d on replaced by the bytes that were at s; k of them are done so far. */
  ghost predicate CopiedTo(was: seq<Byte>, now: seq<Byte>, d: nat, s: nat, k: nat) {
    && |now| == |was| && d + k <= |was| && s + k <= |was|
    && (forall i :: d <= i < d + k ==> now[i] == was[s + (i - d)])
    && forall i :: 0 <= i < d || d + k <= i < |was| ==> now[i] == was[i]
  }

  ghost predicate FilledTo(was: seq<Byte>, now: seq<Byte>, d: nat, c: Byte, k: nat) {
    && |now| == |was| && d + k <= |was|
    && (forall i :: d <= i < d + k ==> now[i] == c)
    && forall i :: 0 <= i < d || d + k <= i < |was| ==> now[i] == was[i]
  }

  /** stosl: four bytes of the register at once, the lowest first. */
  method StoreWord(mem: array<Byte>, at: nat, b0: Byte, b1: Byte, b2: Byte, b3: Byte)
    requires at + 4 <= mem.Length
    modifies mem
    ensures mem[..] == old(mem[..])[at := b0][at + 1 := b1][at + 2 := b2][at + 3 := b3]
  {
    mem[at] := b0;
    mem[at + 1] := b1;
    mem[at + 2] := b2;
    mem[at + 3] := b3;
  }

  /** memset: bytes up to a word boundary, then words, then the remaining bytes. */
  method MemSet(mem: array<Byte>, d: nat, c: int, n: nat)
    requires d + n <= mem.Length
    modifies mem
    ensures FilledTo(old(mem[..]), mem[..], d, c % 256, n)
  {
    ghost var was := mem[..];
    var al: Byte := c % 256;
    var edi: nat, ecx: nat := d, n;
    while ecx != 0 && edi % 4 != 0
      invariant edi + ecx == d + n && edi >= d && FilledTo(was, mem[..], d, al, edi - d)
      decreases ecx
    {
      mem[edi] := al;
      edi := edi + 1;
      ecx := ecx - 1;
    }
    if ecx == 0 {
      return;
    }
    var edx: nat := ecx % 4;
    ecx := ecx / 4;
    while ecx != 0
      invariant edi + 4 * ecx + edx == d + n && edi >= d && FilledTo(was, mem[..], d, al, edi - d)
      decreases ecx
    {
      StoreWord(mem, edi, al, al, al, al);
      edi := edi + 4;
      ecx := ecx - 1;
    }
    while edx != 0
      invariant edi + edx == d + n && edi >= d && FilledTo(was, mem[..], d, al, edi - d)
      decreases edx
    {
      mem[edi] := al;
      edi := edi + 1;
      edx := edx - 1;
    }
  }

  /** A load of c bytes at s and then a store at d. */
  function Moved(m: seq<Byte>, d: nat, s: nat, c: nat): (r: seq<Byte>)
    requires d + c <= |m| && s + c <= |m|
    ensures |r| == |m| && forall i :: 0 <= i < |m| ==> r[i] == if d <= i < d + c then m[s + (i - d)] else m[i]
  {
    seq(|m|, i requires 0 <= i < |m| => if d <= i < d + c then m[s + (i - d)] else m[i])
  }

  /** The next piece of a copy: a word when the destination is aligned and four bytes are left. */
  function Piece(d: nat, n: nat): (c: nat)
    requires n > 0
    ensures 1 <= c <= n
  {
    if d % 4 == 0 && n >= 4 then 4 else 1
  }

  /** The memory after the copy, piece by piece from the front. */
  function Chunked(m: seq<Byte>, d: nat, s: nat, n: nat): (r: seq<Byte>)
    requires d + n <= |m| && s + n <= |m|
    ensures |r| == |m|
    decreases n
  {
    if n == 0 then m else
      var c := Piece(d, n);
      Chunked(Moved(m, d, s, c), d + c, s + c, n - c)
  }

  lemma ChunkedStep(m: seq<Byte>, d: nat, s: nat, n: nat)
    requires d + n <= |m| && s + n <= |m| && n > 0
    ensures var c := Piece(d, n); Chunked(m, d, s, n) == Chunked(Moved(m, d, s, c), d + c, s + c, n - c)
  {
  }

  /** One byte of a copy that has n bytes to go. */
  method MoveByte(mem: array<Byte>, edi: nat, esi: nat, ghost n: nat)
    requires 0 < n && edi + n <= mem.Length && esi + n <= mem.Length && Piece(edi, n) == 1
    modifies mem
    ensures Chunked(mem[..], edi + 1, esi + 1, n - 1) == Chunked(old(mem[..]), edi, esi, n)
  {
    ghost var next := Moved(mem[..], edi, esi, 1);
    ChunkedStep(mem[..], edi, esi, n);
    mem[edi] := mem[esi];
    assert mem[..] == next;
  }

  method Align(mem: array<Byte>, d: nat, s: nat, n: nat) returns (edi: nat, esi: nat, ecx: nat)
    requires d + n <= mem.Length && s + n <= mem.Length
    modifies mem
    ensures edi + ecx == d + n && esi + ecx == s + n && (ecx == 0 || edi % 4 == 0)
    ensures Chunked(mem[..], edi, esi, ecx) == Chunked(old(mem[..]), d, s, n)
  {
    edi, esi, ecx := d, s, n;
    ghost var goal := Chunked(mem[..], d, s, n);
    while ecx != 0 && edi % 4 != 0
      invariant edi + ecx == d + n && esi + ecx == s + n && Chunked(mem[..], edi, esi, ecx) == goal
      decreases ecx
    {
      MoveByte(mem, edi, esi, ecx);
      edi, esi, ecx := edi + 1, esi + 1, ecx - 1;
    }
  }

  /** movsl, in a copy that has n bytes to go. */
  method MoveWord(mem: array<Byte>, edi: nat, esi: nat, ghost n: nat)
    requires 4 <= n && edi + n <= mem.Length && esi + n <= mem.Length && Piece(edi, n) == 4
    modifies mem
    ensures Chunked(mem[..], edi + 4, esi + 4, n - 4) == Chunked(old(mem[..]), edi, esi, n)
  {
    ghost var next := Moved(mem[..], edi, esi, 4);
    ChunkedStep(mem[..], edi, esi, n);
    StoreWord(mem, edi, mem[esi], mem[esi + 1], mem[esi + 2], mem[esi + 3]);
    assert mem[..] == next;
  }

  method CopyWords(mem: array<Byte>, d: nat, s: nat, words: nat, edx: nat) returns (edi: nat, esi: nat)
    requires d % 4 == 0 && edx < 4 && d + 4 * words + edx <= mem.Length && s + 4 * words + edx <= mem.Length
    modifies mem
    ensures edi == d + 4 * words && esi == s + 4 * words
    ensures Chunked(mem[..], edi, esi, edx) == Chunked(old(mem[..]), d, s, 4 * words + edx)
  {
    var ecx: nat := words;
    edi, esi := d, s;
    while ecx != 0
      invariant ecx <= words && edi == d + 4 * (words - ecx) && esi == s + 4 * (words - ecx)
      invariant Chunked(mem[..], edi, esi, 4 * ecx + edx) == Chunked(old(mem[..]), d, s, 4 * words + edx)
      decreases ecx
    {
      MoveWord(mem, edi, esi, 4 * ecx + edx);
      edi, esi, ecx := edi + 4, esi + 4, ecx - 1;
    }
  }

  method CopyRest(mem: array<Byte>, d: nat, s: nat, n: nat)
    requires n < 4 && d + n <= mem.Length && s + n <= mem.Length
    modifies mem
    ensures mem[..] == Chunked(old(mem[..]), d, s, n)
  {
    var edi: nat, esi: nat, edx: nat := d, s, n;
    while edx != 0
      invariant edx <= n && edi + edx == d + n && esi + edx == s + n
      invariant Chunked(mem[..], edi, esi, edx) == Chunked(old(mem[..]), d, s, n)
      decreases edx
    {
      MoveByte(mem, edi, esi, edx);
      edi, esi, edx := edi + 1, esi + 1, edx - 1;
    }
  }

  /** memcpy: bytes up to a word boundary of the destination, then words, then the remaining bytes. */
  method MemCpy(mem: array<Byte>, d: nat, s: nat, n: nat)
    requires d + n <= mem.Length && s + n <= mem.Length
    modifies mem
    ensures mem[..] == Chunked(old(mem[..]), d, s, n)
  {
    var edi, esi, ecx := Align(mem, d, s, n);
    if ecx == 0 {
      return;
    }
    var edx: nat := ecx % 4;
    edi, esi := CopyWords(mem, edi, esi, ecx / 4, edx);
    CopyRest(mem, edi, esi, edx);
  }

  /**
    The ranges for which copying from the front is right whatever the memory holds: disjoint ones, a
    destination below its source, and the one overlap upwards that fits into a single word.
  */
  predicate CopyIsSafe(d: nat, s: nat, n: nat) {
    d <= s || s + n <= d || (d % 4 == 0 && n == 4)
  }

  lemma {:induction false} ChunkedCopies(was: seq<Byte>, m: seq<Byte>, d: nat, s: nat, n: nat, k: nat)
    requires k <= n && d + n <= |was| && s + n <= |was| && (d <= s || s + n <= d) && CopiedTo(was, m, d, s, k)
    ensures CopiedTo(was, Chunked(m, d + k, s + k, n - k), d, s, n)
    decreases n - k
  {
    if k < n {
      var c := Piece(d + k, n - k);
      ChunkedCopies(was, Moved(m, d + k, s + k, c), d, s, n, k + c);
    }
  }

  /** Bytes below the destination are not touched. */
  lemma {:induction false} ChunkedBelow(m: seq<Byte>, d: nat, s: nat, n: nat, p: nat)
    requires d + n <= |m| && s + n <= |m| && p < d
    ensures Chunked(m, d, s, n)[p] == m[p]
    decreases n
  {
    if n > 0 {
      var c := Piece(d, n);
      ChunkedBelow(Moved(m, d, s, c), d + c, s + c, n - c, p);
    }
  }

  /** A byte whose source p lies below the destination gets what p holds now. */
  lemma {:induction false} ChunkedFromBelow(m: seq<Byte>, d: nat, s: nat, n: nat, t: nat, p: nat)
    requires d + n <= |m| && s + n <= |m| && d <= t < d + n && p == s + (t - d) && p < d
    ensures Chunked(m, d, s, n)[t] == m[p]
    decreases n
  {
    var c := Piece(d, n);
    ChunkedStep(m, d, s, n);
    var next := Moved(m, d, s, c);
    if t < d + c {
      ChunkedBelow(next, d + c, s + c, n - c, t);
    } else {
      ChunkedFromBelow(next, d + c, s + c, n - c, t, p);
    }
  }

  /** The byte at p is copied once more than it should. */
  lemma WrongByte(m: seq<Byte>, d: nat, s: nat, n: nat, k: nat, p: nat)
    requires s < d && d + n <= |m| && k < n && Piece(d, n) <= k && p == s + (k - (d - s)) && s <= p < s + Piece(d, n)
    requires k <= (d - s) + Piece(d, n) && p + (d - s) < d + Piece(d, n)
    ensures Chunked(m, d, s, n)[d + k] == m[p]
  {
    var g, c := d - s, Piece(d, n);
    var next := Moved(m, d, s, c);
    ChunkedStep(m, d, s, n);
    assert next[p + g] == m[p];
    ChunkedFromBelow(next, d + c, s + c, n - c, d + k, p + g);
  }

  lemma Unsafe(size: nat, d: nat, s: nat, n: nat) returns (m: seq<Byte>)
    requires d + n <= size && s + n <= size && !CopyIsSafe(d, s, n)
    ensures |m| == size && !CopiedTo(m, Chunked(m, d, s, n), d, s, n)
  {
    var g, c := d - s, Piece(d, n);
    var k := if g < c then c else g;
    var p := s + (k - g);
    m := seq(size, i => if i == p then 1 else 0);
    WrongByte(m, d, s, n, k, p);
    assert m[s + k] == 0;
  }

  /**
    memcpy leaves the source bytes at the destination, whatever the memory holds, if and only if the
    ranges are safe. For unsafe ranges one set byte is enough to see it fail.
  */
  lemma MemCpyExactly(size: nat, d: nat, s: nat, n: nat)
    requires d + n <= size && s + n <= size
    ensures CopyIsSafe(d, s, n)
       <==> forall m: seq<Byte> :: |m| == size ==> CopiedTo(m, Chunked(m, d, s, n), d, s, n)
  {
    if CopyIsSafe(d, s, n) {
      forall m: seq<Byte> | |m| == size ensures CopiedTo(m, Chunked(m, d, s, n), d, s, n) {
        if d <= s || s + n <= d {
          ChunkedCopies(m, m, d, s, n, 0);
        } else {
          assert Chunked(m, d, s, 4) == Moved(m, d, s, 4);
        }
      }
    } else {
      var m := Unsafe(size, d, s, n);
    }
  }

  /** memmove: upwards from the end when the destination is above the source, else downwards from the front. */
  method MemMove(mem: array<Byte>, d: nat, s: nat, n: nat)
    requires d + n <= mem.Length && s + n <= mem.Length
    modifies mem
    ensures CopiedTo(old(mem[..]), mem[..], d, s, n)
  {
    ghost var was := mem[..];
    if s >= d {
      for k := 0 to n
        invariant CopiedTo(was, mem[..], d, s, k)
      {
        mem[d + k] := mem[s + k];
      }
    } else {
      var left: nat := n;
      while left != 0
        invariant left <= n
        invariant forall i :: d + left <= i < d + n ==> mem[i] == was[s + (i - d)]
        invariant forall i :: 0 <= i < d + left || d + n <= i < mem.Length ==> mem[i] == was[i]
      {
        left := left - 1;
        mem[d + left] := mem[s + left];
      }
    }
  }
}
