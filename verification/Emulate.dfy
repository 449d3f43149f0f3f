/** ece391_execute's splitting and ece391_getargs (ece391emulate.c) in their own form, on byte buffers. */
module Emulate {
  import opened Common
  import opened Bytes
  import opened Arguments
  import Command

  const NULL := -1
  const DOT: Byte := 46
  const SLASH: Byte := 47

  /** The string w stands at p. */
  predicate StandsAt(mem: seq<Byte>, p: int, w: seq<Byte>) {
    0 <= p && p + |w| < |mem| && mem[p..p + |w|] == w && mem[p + |w|] == NUL
  }

  /** The strings ws stand at the addresses args, all below `limit`. */
  predicate AllStand(mem: seq<Byte>, args: seq<int>, ws: seq<seq<Byte>>, limit: nat) {
    |args| == |ws| && forall k :: 0 <= k < |ws| ==> StandsAt(mem, args[k], ws[k]) && args[k] + |ws[k]| < limit
  }

  lemma StandsStill(a: seq<Byte>, b: seq<Byte>, args: seq<int>, ws: seq<seq<Byte>>, limit: nat, further: nat)
    requires AllStand(a, args, ws, limit) && |a| == |b| && limit <= further
    requires forall i :: 0 <= i < limit && i < |a| ==> a[i] == b[i]
    ensures AllStand(b, args, ws, further)
  {
    forall k | 0 <= k < |ws| ensures StandsAt(b, args[k], ws[k]) {
      assert StandsAt(a, args[k], ws[k]);
      assert a[args[k]..args[k] + |ws[k]|] == b[args[k]..args[k] + |ws[k]|];
    }
  }

  // ---- joining ----

  function Copies(ws: seq<seq<Byte>>, n: int): seq<Byte>
    requires ws != []
  {
    if |ws[0]| > n then []
    else if |ws| == 1 || n - |ws[0]| < 1 then ws[0] + [NUL]
    else ws[0] + [SPACE] + Copies(ws[1..], n - |ws[0]| - 1)
  }

  /** Everything ece391_getargs writes from the start of the buffer on, for the arguments ws and nbytes == n. */
  function Written(ws: seq<seq<Byte>>, n: int): seq<Byte> {
    if ws == [] then (if n < 1 then [] else [NUL]) else Copies(ws, n)
  }

  lemma {:induction false} CopiesFit(ws: seq<seq<Byte>>, n: int)
    requires ws != []
    ensures |Join(ws)| + 1 <= n ==> Copies(ws, n) == Join(ws) + [NUL]
  {
    if |ws| > 1 && |Join(ws)| + 1 <= n {
      CopiesFit(ws[1..], n - |ws[0]| - 1);
      Regroup(ws[0] + [SPACE], Join(ws[1..]), [NUL]);
    }
  }

  /** Joining succeeds if and only if the joined arguments fit with their terminator; just they are then written. */
  lemma WrittenWhenFits(ws: seq<seq<Byte>>, n: int)
    ensures |Join(ws)| + 1 <= n ==> Written(ws, n) == Join(ws) + [NUL]
  {
    if ws != [] { CopiesFit(ws, n); }
  }

  /** Some number of leading arguments, joined, fills n bytes exactly. */
  ghost predicate JustFills(ws: seq<seq<Byte>>, n: int) {
    exists k :: 1 <= k <= |ws| && |Join(ws[..k])| == n
  }

  lemma JoinFirst(ws: seq<seq<Byte>>)
    requires ws != []
    ensures Join(ws[..1]) == ws[0]
  {
  }

  lemma JoinMore(ws: seq<seq<Byte>>, k: nat)
    requires 1 <= k < |ws|
    ensures |Join(ws[..k + 1])| == |ws[0]| + 1 + |Join(ws[1..][..k])|
  {
    assert ws[..k + 1][1..] == ws[1..][..k];
  }

  lemma {:induction false} CopiesBehind(ws: seq<seq<Byte>>, n: int)
    requires ws != []
    ensures n < 0 ==> Copies(ws, n) == []
    ensures n >= 0 ==> |Copies(ws, n)| <= n + 1
    ensures n >= 0 && |Copies(ws, n)| == n + 1 <==> JustFills(ws, n)
    ensures |Copies(ws, n)| > 0 && |Copies(ws, n)| == n + 1 ==> Copies(ws, n)[n] == NUL
  {
    JoinFirst(ws);
    var m := n - |ws[0]| - 1;
    if |ws| > 1 && m >= 0 {
      CopiesBehind(ws[1..], m);
      if k :| 1 <= k <= |ws[1..]| && |Join(ws[1..][..k])| == m {
        JoinMore(ws, k);
        assert |Join(ws[..k + 1])| == n;
      }
    }
    if k :| 1 <= k <= |ws| && |Join(ws[..k])| == n {
      if k > 1 { JoinMore(ws, k - 1); }
    }
  }

  /**
    The call writes at most one byte behind its buffer, and does so if and only if some of the leading
    arguments, joined, just fill the buffer.
  */
  lemma WrittenBehind(ws: seq<seq<Byte>>, n: int)
    ensures n < 0 ==> Written(ws, n) == []
    ensures n >= 0 ==> |Written(ws, n)| <= n + 1
    ensures n >= 0 && |Written(ws, n)| == n + 1 <==> JustFills(ws, n)
    ensures |Written(ws, n)| > 0 && |Written(ws, n)| == n + 1 ==> Written(ws, n)[n] == NUL
  {
    if ws != [] { CopiesBehind(ws, n); }
  }

  lemma PrefixOn(a: seq<Byte>, w: seq<Byte>, whole: seq<Byte>)
    requires a != [] && (w != [] ==> w[..|w| - 1] <= whole)
    ensures (a + w)[..|a + w| - 1] <= a + whole && (a + w)[|a + w| - 1] == if w == [] then a[|a| - 1] else w[|w| - 1]
  {
    if w != [] { assert (a + w)[..|a + w| - 1] == a + w[..|w| - 1]; }
  }

  lemma {:induction false} CopiesPrefix(ws: seq<seq<Byte>>, n: int)
    requires ws != []
    ensures var w := Copies(ws, n);
      w != [] ==> w[..|w| - 1] <= Join(ws) && (w[|w| - 1] == SPACE || w[|w| - 1] == NUL)
  {
    if |ws| > 1 && n - |ws[0]| >= 1 {
      var rest := Copies(ws[1..], n - |ws[0]| - 1);
      CopiesPrefix(ws[1..], n - |ws[0]| - 1);
      PrefixOn(ws[0] + [SPACE], rest, Join(ws[1..]));
    }
  }

  /** A call that fails leaves the beginning of the joined arguments, and behind it a space or a terminator. */
  lemma WrittenPrefix(ws: seq<seq<Byte>>, n: int)
    ensures var w := Written(ws, n);
      w != [] ==> w[..|w| - 1] <= Join(ws) && (w[|w| - 1] == SPACE || w[|w| - 1] == NUL)
  {
    if ws != [] { CopiesPrefix(ws, n); }
  }

  /** One argument that is just as long as the buffer: its terminator is written behind it. */
  lemma OneArgumentBehind(w: seq<Byte>)
    ensures Written([w], |w|) == w + [NUL] && JustFills([w], |w|) && |Join([w])| + 1 > |w|
  {
    WrittenBehind([w], |w|);
  }

  /** What one turn of the loop writes for argument w, n bytes being left of the buffer. */
  function Copy(w: seq<Byte>, last: bool, n: int): seq<Byte> {
    if |w| > n then [] else if last || n - |w| < 1 then w + [NUL] else w + [SPACE]
  }

  /** What the following turns write. */
  function Later(argv: seq<seq<Byte>>, idx: nat, n: int): (later: seq<Byte>)
    requires idx < |argv|
    ensures idx + 1 == |argv| || n - |argv[idx]| < 1 ==> later == []
  {
    if idx + 1 == |argv| || n - |argv[idx]| < 1 then [] else Copies(argv[idx + 1..], n - |argv[idx]| - 1)
  }

  lemma CopiesStep(argv: seq<seq<Byte>>, idx: nat, n: int)
    requires idx < |argv|
    ensures var w, last := argv[idx], idx + 1 == |argv|;
      && |Join(argv[idx..])| == |w| + (if last then 0 else 1 + |Join(argv[idx + 1..])|)
      && Copies(argv[idx..], n) == Copy(w, last, n) + Later(argv, idx, n)
  {
    assert argv[idx..][1..] == argv[idx + 1..];
  }

  /** ece391_strcpy to the end of what has been written so far, `was` being what stood in the buffer before. */
  method CopyTo(buf: array<Byte>, at: nat, s: seq<Byte>, ghost done: seq<Byte>, ghost was: seq<Byte>)
    requires at == |done| && at + |s| < buf.Length == |was| && NulFree(s)
    requires buf[..] == done + was[at..]
    modifies buf
    ensures buf[..] == done + s + [NUL] + was[at + |s| + 1..]
  {
    for i := 0 to |s|
      invariant forall k :: 0 <= k < buf.Length ==>
        buf[k] == if k < at then done[k] else if k < at + i then s[k - at] else was[k]
    {
      buf[at + i] := s[i];
    }
    buf[at + |s|] := NUL;
  }

  /** Storing c right behind what has been written. */
  lemma StoredNext(mem: seq<Byte>, done: seq<Byte>, was: seq<Byte>, c: Byte)
    requires |mem| == |was| && |done| < |was|
    requires mem == done + was[|done|..] || mem == done + [NUL] + was[|done| + 1..]
    ensures mem[|done| := c] == done + [c] + was[|done| + 1..]
  {
  }

  /** `mem` is `was` with `done` written over its beginning. */
  predicate WrittenOver(mem: seq<Byte>, done: seq<Byte>, was: seq<Byte>) {
    |done| <= |was| && mem == done + was[|done|..]
  }

  /** One turn of the loop: false if the argument, or the space after it, does not fit. */
  method CopyArg(w: seq<Byte>, last: bool, buf: array<Byte>, at: nat, left: int, ghost before: seq<Byte>,
    ghost was: seq<Byte>)
    returns (ok: bool, ghost done: seq<Byte>)
    requires NulFree(w) && at == |before| && at + |Copy(w, last, left)| <= buf.Length == |was|
    requires WrittenOver(buf[..], before, was)
    modifies buf
    ensures ok <==> |w| <= left && (last || left - |w| >= 1)
    ensures done == before + Copy(w, last, left) && WrittenOver(buf[..], done, was)
  {
    if |w| > left {
      return false, before;
    }
    CopyTo(buf, at, w, before, was);
    Regroup(before, w, [NUL]);
    done := before + (w + [NUL]);
    if last {
      return true, done;
    }
    if left - |w| < 1 {
      return false, done;
    }
    StoredNext(buf[..], before + w, was, SPACE);
    Regroup(before, w, [SPACE]);
    buf[at + |w|] := SPACE;
    return true, before + (w + [SPACE]);
  }

  lemma FinalStore(mem: seq<Byte>, all: seq<Byte>, was: seq<Byte>)
    requires 0 < |all| <= |was| && all[|all| - 1] == NUL
    requires WrittenOver(mem, all, was) || (|all| == 1 && mem == was)
    ensures WrittenOver(mem[|all| - 1 := NUL], all, was)
  {
  }

  lemma EndsWithNul(done: seq<Byte>, w: seq<Byte>)
    ensures var all := done + (w + [NUL]); |all| == |done| + |w| + 1 && all[|done| + |w|] == NUL
  {
  }

  lemma Longer(done: seq<Byte>, piece: seq<Byte>, rest: seq<Byte>)
    ensures |done + piece| <= |done + (piece + rest)| && done + (piece + rest) == (done + piece) + rest
  {
  }

  lemma Result(mem: seq<Byte>, was: seq<Byte>, ws: seq<seq<Byte>>, n: int)
    requires WrittenOver(mem, Written(ws, n), was)
    ensures |Join(ws)| + 1 <= n ==> StandsAt(mem, 0, Join(ws))
    ensures 0 <= n < |was| ==> mem[n + 1..] == was[n + 1..]
    ensures 0 <= n < |was| ==> mem[n] == if JustFills(ws, n) then NUL else was[n]
  {
    WrittenWhenFits(ws, n);
    WrittenBehind(ws, n);
  }

  /** The loop has come to argument idx; `done` is written and the rest of `all` still to come. */
  predicate Joining(argv: seq<seq<Byte>>, nbytes: int, idx: nat, done: seq<Byte>, all: seq<Byte>) {
    && 1 <= idx < |argv| && all == done + Copies(argv[idx..], nbytes - |done|)
    && |Join(argv[1..])| == |done| + |Join(argv[idx..])|
  }

  lemma JoinTurn(argv: seq<seq<Byte>>, nbytes: int, idx: nat, done: seq<Byte>, all: seq<Byte>)
    requires Joining(argv, nbytes, idx, done, all)
    ensures var w, last, left := argv[idx], idx + 1 == |argv|, nbytes - |done|;
      var next := done + Copy(w, last, left);
      && |next| <= |all|
      && if |w| > left || (!last && left - |w| < 1) then all == next && |Join(argv[1..])| + 1 > nbytes
         else if last then all == next && |all| == |done| + |w| + 1 == |Join(argv[1..])| + 1 && all[|all| - 1] == NUL
         else Joining(argv, nbytes, idx + 1, next, all)
  {
    var w, last, left := argv[idx], idx + 1 == |argv|, nbytes - |done|;
    CopiesStep(argv, idx, left);
    Longer(done, Copy(w, last, left), Later(argv, idx, left));
    if last { EndsWithNul(done, w); }
  }

  lemma JoinStart(argv: seq<seq<Byte>>, nbytes: int)
    requires argv != []
    ensures |argv| > 1 ==> Joining(argv, nbytes, 1, [], Written(argv[1..], nbytes))
    ensures |argv| == 1 ==> Join(argv[1..]) == [] && Written(argv[1..], nbytes) == if nbytes < 1 then [] else [NUL]
  {
  }

  /** The loop, and the terminator behind the last argument. */
  method JoinInto(argv: seq<seq<Byte>>, buf: array<Byte>, nbytes: int) returns (r: int)
    requires argv != [] && forall k :: 0 <= k < |argv| ==> NulFree(argv[k])
    requires |Written(argv[1..], nbytes)| <= buf.Length
    modifies buf
    ensures r == if |Join(argv[1..])| + 1 <= nbytes then 0 else -1
    ensures WrittenOver(buf[..], Written(argv[1..], nbytes), old(buf[..]))
  {
    ghost var was, done, all := buf[..], [], Written(argv[1..], nbytes);
    var idx: nat, at: nat, left := 1, 0, nbytes;
    JoinStart(argv, nbytes);
    while idx < |argv|
      invariant 1 <= idx <= |argv| && at == |done| && left == nbytes - at && WrittenOver(buf[..], done, was)
      invariant idx < |argv| ==> Joining(argv, nbytes, idx, done, all)
      invariant idx == |argv| ==> |argv| == 1 && at == 0
      decreases |argv| - idx
    {
      var w, last := argv[idx], idx + 1 == |argv|;
      JoinTurn(argv, nbytes, idx, done, all);
      var ok;
      ok, done := CopyArg(w, last, buf, at, left, done, was);
      if !ok {
        return -1;
      }
      at := at + |w|;
      left := left - |w|;
      idx := idx + 1;
      if last {
        break;
      }
      at := at + 1;
      left := left - 1;
    }
    if left < 1 {
      return -1;
    }
    FinalStore(buf[..], all, was);
    buf[at] := NUL;
    return 0;
  }

  /**
    ece391_getargs: argv[1..] joined by single spaces, or -1 if that does not fit nbytes. `buf` is the
    memory from the buffer on, as far as the call writes it; WrittenBehind says how far that is.
  */
  method GetArgs(argv: seq<seq<Byte>>, buf: array<Byte>, nbytes: int) returns (r: int)
    requires argv != [] && forall k :: 0 <= k < |argv| ==> NulFree(argv[k])
    requires |Written(argv[1..], nbytes)| <= buf.Length
    modifies buf
    ensures r == if |Join(argv[1..])| + 1 <= nbytes then 0 else -1
    ensures WrittenOver(buf[..], Written(argv[1..], nbytes), old(buf[..]))
    ensures r == 0 ==> StandsAt(buf[..], 0, Join(argv[1..]))
    ensures 0 <= nbytes < buf.Length ==> buf[nbytes + 1..] == old(buf[nbytes + 1..])
    ensures 0 <= nbytes < buf.Length ==> buf[nbytes] == if JustFills(argv[1..], nbytes) then NUL else old(buf[nbytes])
  {
    ghost var was := buf[..];
    r := JoinInto(argv, buf, nbytes);
    Result(buf[..], was, argv[1..], nbytes);
  }

  // ---- splitting ----

  /** From scan on stands a string that ends at `end`. */
  predicate Scanning(mem: seq<Byte>, scan: nat, end: nat) {
    scan <= end < |mem| && mem[end] == NUL && NulFree(mem[scan..end])
  }

  /** How far the buffer is final once the scan has come to `scan`. */
  function Settled(scan: nat, end: nat): nat { if scan == end then end + 1 else scan }

  lemma SkipOne(mem: seq<Byte>, at: nat, end: nat)
    requires at < end <= |mem| && mem[at] == SPACE
    ensures Command.SkipSpaces(mem[at..end]) == Command.SkipSpaces(mem[at + 1..end])
  {
    assert mem[at..end][1..] == mem[at + 1..end];
  }

  method SkipBlanks(buf: array<Byte>, from: nat, end: nat) returns (scan: nat)
    requires Scanning(buf[..], from, end)
    ensures from <= scan <= end && buf[scan..end] == Command.SkipSpaces(buf[from..end])
  {
    scan := from;
    while buf[scan] == SPACE
      invariant from <= scan <= end && Command.SkipSpaces(buf[scan..end]) == Command.SkipSpaces(buf[from..end])
      decreases end - scan
    {
      SkipOne(buf[..], scan, end);
      scan := scan + 1;
    }
  }

  method WordEnd(buf: array<Byte>, from: nat, end: nat) returns (scan: nat)
    requires Scanning(buf[..], from, end)
    ensures from <= scan <= end && buf[from..scan] == Command.Word(buf[from..end])
    ensures scan < end ==> Command.EndsWord(buf[scan])
  {
    scan := from;
    ghost var s := buf[from..end];
    while buf[scan] != NUL && buf[scan] != SPACE && buf[scan] != NEWLINE
      invariant from <= scan <= end
      invariant forall i :: from <= i < scan ==> !Command.EndsWord(buf[i])
      decreases end - scan
    {
      scan := scan + 1;
    }
    assert scan < end ==> buf[scan] == s[scan - from];
    assert s == buf[from..scan] + buf[scan..end];
    Command.WordThen(buf[from..scan], buf[scan..end]);
  }

  lemma ScanningOn(mem: seq<Byte>, from: nat, scan: nat, end: nat)
    requires Scanning(mem, from, end) && from <= scan <= end
    ensures Scanning(mem, scan, end)
  {
    assert forall i :: 0 <= i < end - scan ==> mem[scan..end][i] == mem[from..end][scan - from + i];
  }

  /** The word that starts at arg is cut off from what follows with a NUL. */
  method CutWord(buf: array<Byte>, arg: nat, end: nat, ghost t: seq<Byte>) returns (scan: nat)
    requires Scanning(buf[..], arg, end) && t == buf[arg..end] && t != [] && !Command.EndsWord(t[0])
    modifies buf
    ensures forall i :: 0 <= i < arg ==> buf[i] == old(buf[i])
    ensures arg < scan && Scanning(buf[..], scan, end)
    ensures StandsAt(buf[..], arg, Command.Word(t)) && buf[scan..end] == Beyond(t, |Command.Word(t)|)
    ensures arg + |Command.Word(t)| < Settled(scan, end)
  {
    scan := WordEnd(buf, arg, end);
    ghost var w := buf[arg..scan];
    assert |w| > 0 by { WordIsWord(t); }
    ScanningOn(buf[..], arg, scan, end);
    if buf[scan] != NUL {
      assert scan < end;
      ScanningOn(buf[..], scan, scan + 1, end);
      buf[scan] := NUL;
      scan := scan + 1;
    }
    assert buf[arg..arg + |w|] == w;
  }

  lemma Head(mem: seq<Byte>, scan: nat, end: nat)
    requires Scanning(mem, scan, end)
    ensures mem[scan] == NUL <==> scan == end
    ensures scan < end ==> mem[scan..end][0] == mem[scan]
  {
    assert scan < end ==> mem[scan..end][0] == mem[scan];
  }

  /**
    One turn of the argument loop: the start of the next argument, which is cut off from the rest, or
    NULL when there is none. The turn begins at the string old(buf[from..end]).
  */
  method FindArg(buf: array<Byte>, from: nat, end: nat) returns (arg: int, scan: nat, ghost t: seq<Byte>)
    requires Scanning(buf[..], from, end)
    modifies buf
    ensures t == Command.SkipSpaces(old(buf[from..end])) && (arg == NULL <==> t == [] || t[0] == NEWLINE)
    ensures forall i :: 0 <= i < Settled(from, end) ==> buf[i] == old(buf[i])
    ensures arg != NULL ==> from <= arg < scan && Scanning(buf[..], scan, end)
    ensures arg != NULL ==> StandsAt(buf[..], arg, Command.Word(t)) && arg + |Command.Word(t)| < Settled(scan, end)
    ensures arg != NULL ==> buf[scan..end] == Beyond(t, |Command.Word(t)|)
  {
    scan := SkipBlanks(buf, from, end);
    t := buf[scan..end];
    ScanningOn(buf[..], from, scan, end);
    Head(buf[..], scan, end);
    if buf[scan] == NUL || buf[scan] == NEWLINE {
      buf[scan] := NUL;
      return NULL, scan, t;
    }
    SkipsAll(buf[from..end]);
    arg := scan;
    scan := CutWord(buf, arg, end, t);
  }

  lemma ArgsFrom(s: seq<Byte>, t: seq<Byte>, rest: seq<Byte>)
    requires t == Command.SkipSpaces(s)
    ensures t == [] || t[0] == NEWLINE ==> Args(s) == []
    ensures t != [] && t[0] != NEWLINE && rest == Beyond(t, |Command.Word(t)|)
      ==> Args(s) == [Command.Word(t)] + Args(rest)
  {
    SkipsAll(s);
  }

  method NextArg(buf: array<Byte>, from: nat, end: nat) returns (arg: int, scan: nat, ghost w: seq<Byte>)
    requires Scanning(buf[..], from, end)
    modifies buf
    ensures forall i :: 0 <= i < Settled(from, end) ==> buf[i] == old(buf[i])
    ensures arg == NULL ==> Args(old(buf[from..end])) == []
    ensures arg != NULL ==> from <= arg < scan && Scanning(buf[..], scan, end)
    ensures arg != NULL ==> StandsAt(buf[..], arg, w) && arg + |w| < Settled(scan, end)
    ensures arg != NULL ==> Args(old(buf[from..end])) == [w] + Args(buf[scan..end])
  {
    ghost var s, t := buf[from..end], [];
    arg, scan, t := FindArg(buf, from, end);
    w := Command.Word(t);
    if arg != NULL { ArgsFrom(s, t, buf[scan..end]); } else { ArgsFrom(s, t, []); }
  }

  /** The scan over the program's name. */
  method CutProgram(buf: array<Byte>, command: seq<Byte>) returns (more: bool, scan: nat)
    requires NulFree(command) && 2 + |command| < buf.Length
    requires buf[0] == DOT && buf[1] == SLASH && buf[2..2 + |command|] == command && buf[2 + |command|] == NUL
    modifies buf
    ensures StandsAt(buf[..], 0, [DOT, SLASH] + Command.Word(command))
    ensures more ==> 3 <= scan && 2 + |Command.Word(command)| < scan && Scanning(buf[..], scan, 2 + |command|)
    ensures more ==> CommandArgs(command) == Args(buf[scan..2 + |command|])
    ensures !more ==> CommandArgs(command) == []
  {
    var end := 2 + |command|;
    scan := WordEnd(buf, 2, end);
    ghost var w := Command.Word(command);
    assert buf[0..scan] == [DOT, SLASH] + buf[2..scan];
    ScanningOn(buf[..], 2, scan, end);
    Head(buf[..], scan, end);
    more := buf[scan] != NUL;
    if more {
      ScanningOn(buf[..], 2, scan + 1, end);
      buf[scan] := NUL;
      scan := scan + 1;
      assert buf[scan..end] == command[scan - 2..];
      assert buf[0..0 + (2 + |w|)] == [DOT, SLASH] + w;
    }
  }

  /** The argument loop's state: `ws` have been cut off, `left` are still to come. */
  ghost predicate Cutting(mem: seq<Byte>, args: seq<int>, scan: nat, end: nat, ws: seq<seq<Byte>>,
    left: seq<seq<Byte>>) {
    && 3 <= scan && Scanning(mem, scan, end) && 1 <= |ws| <= scan - 2
    && left == Args(mem[scan..end]) && AllStand(mem, args, ws, Settled(scan, end))
  }

  method Store(args: array<int>, n: nat, arg: int)
    requires n < args.Length
    modifies args
    ensures args[..n + 1] == old(args[..n]) + [arg]
  {
    args[n] := arg;
    assert args[..n] == old(args[..n]);
  }

  lemma OneMore(mem: seq<Byte>, args: seq<int>, ws: seq<seq<Byte>>, limit: nat, arg: int, w: seq<Byte>)
    requires AllStand(mem, args, ws, limit) && StandsAt(mem, arg, w) && arg + |w| < limit
    ensures AllStand(mem, args + [arg], ws + [w], limit)
  {
  }

  lemma Shift(ws: seq<seq<Byte>>, w: seq<Byte>, left: seq<seq<Byte>>)
    ensures ws + ([w] + left) == (ws + [w]) + left
  {
  }

  method CutNext(buf: array<Byte>, args: array<int>, n: nat, from: nat, end: nat, ghost ws: seq<seq<Byte>>,
    ghost left: seq<seq<Byte>>)
    returns (more: bool, scan: nat, ghost ws': seq<seq<Byte>>, ghost left': seq<seq<Byte>>)
    requires n < args.Length && n == |ws| && Cutting(buf[..], args[..n], from, end, ws, left)
    modifies buf, args
    ensures !more ==> ws' == ws && left' == left == [] && scan == from && AllStand(buf[..], args[..n], ws, end + 1)
    ensures more ==> from < scan <= end && n + 1 <= scan - 2 && |ws'| == n + 1 && ws + left == ws' + left'
    ensures more ==> Cutting(buf[..], args[..n + 1], scan, end, ws', left')
  {
    ghost var before := buf[..];
    var arg;
    ghost var w;
    arg, scan, w := NextArg(buf, from, end);
    if arg == NULL {
      StandsStill(before, buf[..], args[..n], ws, Settled(from, end), end + 1);
      return false, from, ws, left;
    }
    StandsStill(before, buf[..], args[..n], ws, Settled(from, end), Settled(scan, end));
    OneMore(buf[..], args[..n], ws, Settled(scan, end), arg, w);
    Store(args, n, arg);
    ws', left' := ws + [w], Args(buf[scan..end]);
    Shift(ws, w, left');
    more := true;
  }

  /** The argument loop. */
  method Collect(buf: array<Byte>, args: array<int>, from: nat, end: nat, ghost first: seq<Byte>,
    ghost all: seq<seq<Byte>>)
    returns (n: nat)
    requires args.Length == ARG_SLOTS && end <= MAX_COMMAND + 2
    requires Cutting(buf[..], args[..1], from, end, [first], all)
    modifies buf, args
    ensures n == 1 + |all| && n < ARG_SLOTS
    ensures AllStand(buf[..], args[..n], [first] + all, end + 1)
  {
    var more, scan := true, from;
    n := 1;
    ghost var ws, left := [first], all;
    while more
      invariant n == |ws| <= scan - 2 && scan <= end && [first] + all == ws + left
      invariant more ==> Cutting(buf[..], args[..n], scan, end, ws, left)
      invariant !more ==> left == [] && AllStand(buf[..], args[..n], ws, end + 1)
      decreases more, end - scan
    {
      more, scan, ws, left := CutNext(buf, args, n, scan, end, ws, left);
      if more {
        n := n + 1;
      }
    }
    assert ws == [first] + all;
  }

  lemma OneString(mem: seq<Byte>, args: seq<int>, scan: nat, end: nat, first: seq<Byte>)
    requires 3 <= scan && Scanning(mem, scan, end) && StandsAt(mem, 0, first) && |first| < scan && |args| == 1
      && args[0] == 0
    ensures Cutting(mem, args, scan, end, [first], Args(mem[scan..end]))
  {
  }

  lemma Prefixed(mem: seq<Byte>, command: seq<Byte>, rest: seq<Byte>)
    requires mem == [DOT, SLASH] + command + [NUL] + rest
    ensures mem[0] == DOT && mem[1] == SLASH && mem[2..2 + |command|] == command && mem[2 + |command|] == NUL
  {
  }

  /** The program is looked for in the current directory. */
  method PrefixPath(buf: array<Byte>, command: seq<Byte>)
    requires NulFree(command) && 2 + |command| < buf.Length
    modifies buf
    ensures buf[0] == DOT && buf[1] == SLASH && buf[2..2 + |command|] == command && buf[2 + |command|] == NUL
  {
    buf[0] := DOT;
    buf[1] := SLASH;
    ghost var was := buf[..];
    CopyTo(buf, 2, command, [DOT, SLASH], was);
    Prefixed(buf[..], command, was[3 + |command|..]);
  }

  lemma OneOnly(mem: seq<Byte>, args: seq<int>, first: seq<Byte>, limit: nat)
    requires StandsAt(mem, 0, first) && |first| < limit && |args| == 1 && args[0] == 0
    ensures AllStand(mem, args, [first], limit)
  {
  }

  /** The arguments, if any, behind the program, which stands first. */
  method CutRest(buf: array<Byte>, args: array<int>, more: bool, scan: nat, end: nat, ghost first: seq<Byte>,
                 ghost rest: seq<seq<Byte>>) returns (n: nat)
    requires args.Length == ARG_SLOTS && end <= MAX_COMMAND + 2 && end < buf.Length && |first| < buf.Length
    requires StandsAt(buf[..], 0, first)
    requires if more then 3 <= scan && |first| < scan && Scanning(buf[..], scan, end) && rest == Args(buf[scan..end])
             else rest == []
    modifies buf, args
    ensures n == 1 + |rest| < ARG_SLOTS && AllStand(buf[..], args[..n], [first] + rest, buf.Length)
  {
    args[0] := 0;
    n := 1;
    if more {
      OneString(buf[..], args[..1], scan, end, first);
      n := Collect(buf, args, scan, end, first, rest);
      StandsStill(buf[..], buf[..], args[..n], [first] + rest, end + 1, buf.Length);
    } else {
      OneOnly(buf[..], args[..1], first, buf.Length);
      assert [first] + rest == [first];
    }
  }

  /** The program and its arguments, cut apart in the buffer that holds the path. */
  method CutAll(buf: array<Byte>, args: array<int>, command: seq<Byte>) returns (n: nat)
    requires NulFree(command) && |command| <= MAX_COMMAND && buf.Length == MAX_COMMAND + 3 && args.Length == ARG_SLOTS
    requires buf[0] == DOT && buf[1] == SLASH && buf[2..2 + |command|] == command && buf[2 + |command|] == NUL
    modifies buf, args
    ensures n == 1 + |CommandArgs(command)| < ARG_SLOTS
    ensures AllStand(buf[..], args[..n], [[DOT, SLASH] + Command.Word(command)] + CommandArgs(command), buf.Length)
  {
    ghost var first := [DOT, SLASH] + Command.Word(command);
    var more, scan := CutProgram(buf, command);
    n := CutRest(buf, args, more, scan, 2 + |command|, first, CommandArgs(command));
  }

  /**
    ece391_execute up to the fork: false for a command of more than 1023 characters; else args[..n]
    point at the program's path and its arguments, and the NULL that follows them fits the array.
  */
  method Split(command: seq<Byte>, buf: array<Byte>, args: array<int>) returns (ok: bool, n: nat)
    requires NulFree(command) && buf.Length == MAX_COMMAND + 3 && args.Length == ARG_SLOTS
    modifies buf, args
    ensures ok <==> |command| <= MAX_COMMAND
    ensures ok ==> n == 1 + |CommandArgs(command)| && n < ARG_SLOTS && args[n] == NULL
    ensures ok ==> AllStand(buf[..], args[..n], [[DOT, SLASH] + Command.Word(command)] + CommandArgs(command),
      buf.Length)
  {
    if MAX_COMMAND < |command| {
      return false, 0;
    }
    PrefixPath(buf, command);
    n := CutAll(buf, args, command);
    ghost var was := args[..n];
    args[n] := NULL;
    assert args[..n] == was;
    return true, n;
  }
}
