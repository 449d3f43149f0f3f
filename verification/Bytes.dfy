/** Bytes and the C string conventions every other module shares. */
module Bytes {
  type Byte = b: int | 0 <= b < 256

  const NUL: Byte := 0
  const BACKSPACE: Byte := 8
  const TAB: Byte := 9
  const NEWLINE: Byte := 10
  const RETURN: Byte := 13
  const SPACE: Byte := 32

  /** The content of a C string, before its terminator. */
  predicate NulFree(s: seq<Byte>) {
    forall i :: 0 <= i < |s| ==> s[i] != NUL
  }

  /** Character i of the C string with content s, its terminator included. */
  function CharAt(s: seq<Byte>, i: nat): Byte
    requires i <= |s|
  {
    if i < |s| then s[i] else NUL
  }

  /** The C string that starts a stretch of memory: up to the first NUL, or all of it. */
  function CString(field: seq<Byte>): (r: seq<Byte>)
    ensures |r| <= |field| && r == field[..|r|] && NulFree(r)
    ensures |r| < |field| ==> field[|r|] == NUL
  {
    if field == [] || field[0] == NUL then [] else [field[0]] + CString(field[1..])
  }

  lemma {:induction false} CStringIs(field: seq<Byte>, k: nat)
    requires k <= |field| && NulFree(field[..k]) && (k < |field| ==> field[k] == NUL)
    ensures CString(field) == field[..k]
  {
    if k > 0 {
      assert field[..k][0] != NUL && field[1..][..k - 1] == field[..k][1..];
      CStringIs(field[1..], k - 1);
    }
  }
}
