/** What grep (ece391grep.c) prints, and what it is supposed to print. */
module Grep {
  import opened Common
  import opened Bytes

  const BUFSIZE := 1024
  const COLON: Byte := 58

  /** Where the first line of s ends: at its newline, or at the end of s. */
  function LineEnd(s: seq<Byte>): (n: nat)
    ensures n <= |s| && (n < |s| ==> s[n] == NEWLINE)
    ensures forall i :: 0 <= i < n ==> s[i] != NEWLINE
  {
    if s == [] || s[0] == NEWLINE then 0 else 1 + LineEnd(s[1..])
  }

  function Lines(s: seq<Byte>): seq<seq<Byte>>
    decreases |s|
  {
    var n := LineEnd(s);
    if n == |s| then [s] else [s[..n]] + Lines(s[n + 1..])
  }

  predicate MatchesAt(line: seq<Byte>, pattern: seq<Byte>, i: nat) {
    i + |pattern| <= |line| && line[i..i + |pattern|] == pattern
  }

  ghost predicate Contains(line: seq<Byte>, pattern: seq<Byte>) {
    exists i :: MatchesAt(line, pattern, i)
  }

  /** What a line adds to the output; an empty pattern is found nowhere. */
  ghost function Report(fname: seq<Byte>, pattern: seq<Byte>, line: seq<Byte>): seq<Byte> {
    if pattern != [] && Contains(line, pattern) then fname + [COLON] + line + [NEWLINE] else []
  }

  /** The specification: the matching lines, in order, once each. */
  ghost function ReportAll(fname: seq<Byte>, pattern: seq<Byte>, lines: seq<seq<Byte>>): seq<Byte> {
    if lines == [] then [] else Report(fname, pattern, lines[0]) + ReportAll(fname, pattern, lines[1..])
  }

  // ---- what the 1024-byte buffer makes of long lines ----

  /** The length of the next stretch that is searched as one line. */
  function PieceLength(s: seq<Byte>): (n: nat)
    ensures n <= |s| && n <= BUFSIZE
  {
    if LineEnd(s) < BUFSIZE then LineEnd(s) else BUFSIZE
  }

  /** What follows the next piece; a newline goes with the piece it ends. */
  function AfterPiece(s: seq<Byte>): (r: seq<Byte>)
    ensures |r| <= |s| && (s != [] ==> |r| < |s|)
  {
    var n := PieceLength(s);
    if n < |s| && s[n] == NEWLINE then s[n + 1..] else s[n..]
  }

  /** A file as grep searches it: lines longer than the buffer fall into pieces of 1024 bytes. */
  function Pieces(s: seq<Byte>): seq<seq<Byte>>
    decreases |s|
  {
    if s == [] then [] else [s[..PieceLength(s)]] + Pieces(AfterPiece(s))
  }

  ghost function Output(fname: seq<Byte>, pattern: seq<Byte>, s: seq<Byte>): seq<Byte> {
    ReportAll(fname, pattern, Pieces(s))
  }

  function NonEmpty(ls: seq<seq<Byte>>): seq<seq<Byte>> {
    if ls == [] then [] else (if ls[0] == [] then [] else [ls[0]]) + NonEmpty(ls[1..])
  }

  predicate AllShort(ls: seq<seq<Byte>>) {
    forall l :: l in ls ==> |l| <= BUFSIZE
  }

  lemma ReportEmpty(fname: seq<Byte>, pattern: seq<Byte>)
    ensures Report(fname, pattern, []) == []
  {
  }

  /** Empty lines never print, so only the other ones matter. */
  lemma {:induction false} ReportNonEmpty(fname: seq<Byte>, pattern: seq<Byte>, ls: seq<seq<Byte>>)
    ensures ReportAll(fname, pattern, ls) == ReportAll(fname, pattern, NonEmpty(ls))
  {
    if ls != [] {
      ReportNonEmpty(fname, pattern, ls[1..]);
      ReportEmpty(fname, pattern);
      if ls[0] != [] {
        assert NonEmpty(ls)[1..] == NonEmpty(ls[1..]);
      } else {
        assert NonEmpty(ls) == NonEmpty(ls[1..]);
      }
    }
  }

  lemma {:induction false} ShortLinesArePieces(s: seq<Byte>)
    requires AllShort(Lines(s))
    ensures NonEmpty(Pieces(s)) == NonEmpty(Lines(s))
    decreases |s|
  {
    var n := LineEnd(s);
    if n == |s| {
      assert Lines(s) == [s];
      assert s in Lines(s);
      if s != [] {
        assert s[..n] == s && AfterPiece(s) == [] && Pieces(s) == [s];
      }
    } else {
      assert Lines(s)[0] == s[..n] && Lines(s)[1..] == Lines(s[n + 1..]);
      assert s[..n] in Lines(s) && forall l :: l in Lines(s[n + 1..]) ==> l in Lines(s);
      assert PieceLength(s) == n && AfterPiece(s) == s[n + 1..];
      assert Pieces(s)[0] == s[..n] && Pieces(s)[1..] == Pieces(s[n + 1..]);
      ShortLinesArePieces(s[n + 1..]);
    }
  }

  lemma {:induction false} PiecesAreShort(s: seq<Byte>)
    ensures AllShort(Pieces(s))
    decreases |s|
  {
    if s != [] { PiecesAreShort(AfterPiece(s)); }
  }

  lemma {:induction false} NonEmptyKeeps(ls: seq<seq<Byte>>)
    ensures AllShort(NonEmpty(ls)) <==> AllShort(ls)
  {
    if ls != [] {
      NonEmptyKeeps(ls[1..]);
      assert ls == [ls[0]] + ls[1..];
      if ls[0] == [] {
        assert NonEmpty(ls) == NonEmpty(ls[1..]);
      } else {
        assert NonEmpty(ls) == [ls[0]] + NonEmpty(ls[1..]);
      }
    }
  }

  /** grep searches exactly the file's lines if and only if no line is longer than its buffer. */
  lemma PiecesAreLines(s: seq<Byte>)
    ensures NonEmpty(Pieces(s)) == NonEmpty(Lines(s)) <==> AllShort(Lines(s))
  {
    PiecesAreShort(s);
    NonEmptyKeeps(Pieces(s));
    NonEmptyKeeps(Lines(s));
    if AllShort(Lines(s)) { ShortLinesArePieces(s); }
  }

  predicate NoneWithNewlines(ls: seq<seq<Byte>>) {
    forall l :: l in ls ==> NEWLINE !in l
  }

  lemma {:induction false} LinesHaveNoNewlines(s: seq<Byte>)
    ensures NoneWithNewlines(Lines(s))
    decreases |s|
  {
    var n := LineEnd(s);
    assert NEWLINE !in s[..n];
    if n < |s| { LinesHaveNoNewlines(s[n + 1..]); }
  }

  lemma {:induction false} PiecesHaveNoNewlines(s: seq<Byte>)
    ensures NoneWithNewlines(Pieces(s))
    decreases |s|
  {
    if s != [] {
      assert NEWLINE !in s[..PieceLength(s)];
      PiecesHaveNoNewlines(AfterPiece(s));
    }
  }

  lemma LineEndIs(s: seq<Byte>, n: nat)
    requires n <= |s| && (n < |s| ==> s[n] == NEWLINE)
    requires forall i :: 0 <= i < n ==> s[i] != NEWLINE
    ensures LineEnd(s) == n
  {
    var m := LineEnd(s);
    assert m < |s| ==> s[m] == NEWLINE;
  }

  lemma LinesOfPrinted(line: seq<Byte>, rest: seq<Byte>)
    requires NEWLINE !in line
    ensures Lines(line + [NEWLINE] + rest) == [line] + Lines(rest)
  {
    var s := line + [NEWLINE] + rest;
    assert s[..|line|] == line && s[|line| + 1..] == rest;
    LineEndIs(s, |line|);
  }

  lemma WithoutName(line: seq<Byte>, rest: seq<Byte>)
    ensures [] + [COLON] + line + [NEWLINE] + rest == ([COLON] + line) + [NEWLINE] + rest
  {
  }

  lemma PrintedFirst(pattern: seq<Byte>, line: seq<Byte>, rest: seq<Byte>)
    requires NEWLINE !in line
    ensures Lines(Report([], pattern, line) + rest)
         == if pattern != [] && Contains(line, pattern) then [[COLON] + line] + Lines(rest) else Lines(rest)
  {
    if pattern != [] && Contains(line, pattern) {
      LinesOfPrinted([COLON] + line, rest);
      WithoutName(line, rest);
    } else {
      assert [] + rest == rest;
    }
  }

  /** Whatever is printed of short lines, its lines are short, but for the colon in front of each. */
  lemma {:induction false} PrintsShort(pattern: seq<Byte>, ls: seq<seq<Byte>>)
    requires AllShort(ls) && NoneWithNewlines(ls)
    ensures forall l :: l in Lines(ReportAll([], pattern, ls)) ==> |l| <= BUFSIZE + 1
  {
    if ls != [] {
      PrintsShort(pattern, ls[1..]);
      assert ls[0] in ls;
      PrintedFirst(pattern, ls[0], ReportAll([], pattern, ls[1..]));
    }
  }

  lemma {:induction false} PrintsMatches(pattern: seq<Byte>, ls: seq<seq<Byte>>, l: seq<Byte>)
    requires NoneWithNewlines(ls) && l in ls && pattern != [] && Contains(l, pattern)
    ensures [COLON] + l in Lines(ReportAll([], pattern, ls))
  {
    assert ls[0] in ls;
    PrintedFirst(pattern, ls[0], ReportAll([], pattern, ls[1..]));
    if ls[0] != l { PrintsMatches(pattern, ls[1..], l); }
  }

  /** Looking for the first character of a line that is too long: the report has a longer line than grep ever prints. */
  lemma LongLineCut(s: seq<Byte>, l: seq<Byte>)
    requires l in Lines(s) && |l| > BUFSIZE
    ensures Output([], [l[0]], s) != ReportAll([], [l[0]], Lines(s))
  {
    PiecesAreShort(s);
    PiecesHaveNoNewlines(s);
    PrintsShort([l[0]], Pieces(s));
    LinesHaveNoNewlines(s);
    assert MatchesAt(l, [l[0]], 0);
    PrintsMatches([l[0]], Lines(s), l);
  }

  /**
    What grep prints is the report of the file's lines if and only if no line is longer than its buffer;
    with a longer line it already fails for a pattern of a single character.
  */
  lemma OutputIsReport(s: seq<Byte>)
    ensures AllShort(Lines(s)) <==> forall fname,
      pattern :: Output(fname, pattern, s) == ReportAll(fname, pattern, Lines(s))
    ensures AllShort(Lines(s)) <==> forall c: Byte :: Output([], [c], s) == ReportAll([], [c], Lines(s))
  {
    if AllShort(Lines(s)) {
      forall fname, pattern ensures Output(fname, pattern, s) == ReportAll(fname, pattern, Lines(s)) {
        PiecesAreLines(s);
        ReportNonEmpty(fname, pattern, Pieces(s));
        ReportNonEmpty(fname, pattern, Lines(s));
      }
    } else {
      var l :| l in Lines(s) && |l| > BUFSIZE;
      LongLineCut(s, l);
    }
  }

  /** A file of 1025 equal letters, searched for that letter: grep cuts the line. */
  lemma LongLineExample(c: Byte)
    requires c != NEWLINE
    ensures var s: seq<Byte> := seq(BUFSIZE + 1, _ => c);
      Lines(s) == [s] && NonEmpty(Pieces(s)) != NonEmpty(Lines(s)) && Output([], [c], s) != ReportAll([], [c], Lines(s))
  {
    var s: seq<Byte> := seq(BUFSIZE + 1, _ => c);
    LineEndIs(s, |s|);
    assert s in Lines(s);
    LongLineCut(s, s);
    PiecesAreLines(s);
  }

  // ---- one line at a time ----

  /** A complete line within the buffer is one piece. */
  lemma OutputLine(fname: seq<Byte>, pattern: seq<Byte>, line: seq<Byte>, rest: seq<Byte>)
    requires NEWLINE !in line && |line| < BUFSIZE
    ensures Output(fname, pattern, line + [NEWLINE] + rest) == Report(fname, pattern, line)
      + Output(fname, pattern, rest)
  {
    var s := line + [NEWLINE] + rest;
    assert s[..|line|] == line;
    LineEndIs(s, |line|);
    assert AfterPiece(s) == rest;
    assert Pieces(s)[0] == line && Pieces(s)[1..] == Pieces(rest);
  }

  lemma PieceIsLine(line: seq<Byte>, rest: seq<Byte>)
    requires NEWLINE !in line && (|line| == BUFSIZE || (|line| <= BUFSIZE && rest == []))
    ensures PieceLength(line + rest) == |line| && (line + rest)[..|line|] == line
    ensures AfterPiece(line + rest) == if rest != [] && rest[0] == NEWLINE then rest[1..] else rest
  {
    var s := line + rest;
    assert s[..|line|] == line && s[|line|..] == rest;
    assert forall i :: 0 <= i < |line| ==> s[i] == line[i];
    assert LineEnd(s) < |s| ==> s[LineEnd(s)] == NEWLINE;
    if rest != [] && rest[0] == NEWLINE { assert s[|line| + 1..] == rest[1..]; }
  }

  /** So is a full buffer without a newline, or what is left at the end of the file. */
  lemma OutputPiece(fname: seq<Byte>, pattern: seq<Byte>, line: seq<Byte>, rest: seq<Byte>)
    requires NEWLINE !in line && (|line| == BUFSIZE || (|line| <= BUFSIZE && rest == []))
    ensures Output(fname, pattern, line + rest) == Report(fname, pattern, line) + Output(fname, pattern, rest)
  {
    var s := line + rest;
    ReportEmpty(fname, pattern);
    if s != [] {
      PieceIsLine(line, rest);
      assert Pieces(s)[0] == line && Pieces(s)[1..] == Pieces(AfterPiece(s));
      if rest != [] && rest[0] == NEWLINE {
        assert rest == [] + [NEWLINE] + rest[1..];
        OutputLine(fname, pattern, [], rest[1..]);
      }
    }
  }

  // ---- what is printed, line by line ----

  function Around(a: seq<Byte>, pattern: seq<Byte>, b: seq<Byte>): seq<Byte> { a + pattern + b }

  /** A pattern is found exactly where the line can be taken apart around it. */
  lemma ContainsExactly(line: seq<Byte>, pattern: seq<Byte>)
    ensures Contains(line, pattern) <==> exists a: seq<Byte>, b: seq<Byte> :: Around(a, pattern, b) == line
  {
    if Contains(line, pattern) {
      var i: nat :| MatchesAt(line, pattern, i);
      assert line == line[..i] + line[i..i + |pattern|] + line[i + |pattern|..];
      assert Around(line[..i], pattern, line[i + |pattern|..]) == line;
    }
    if a: seq<Byte>, b: seq<Byte> :| Around(a, pattern, b) == line {
      assert line[|a|..|a| + |pattern|] == pattern;
      assert MatchesAt(line, pattern, |a|);
    }
  }

  /** Lines put together again with newlines. */
  function Rejoined(ls: seq<seq<Byte>>): seq<Byte> {
    if ls == [] then [] else if |ls| == 1 then ls[0] else ls[0] + [NEWLINE] + Rejoined(ls[1..])
  }

  /** The lines of a file are what its newlines separate. */
  lemma {:induction false} LinesRejoin(s: seq<Byte>)
    ensures Rejoined(Lines(s)) == s && Lines(s) != [] && NoneWithNewlines(Lines(s))
    decreases |s|
  {
    LinesHaveNoNewlines(s);
    var n := LineEnd(s);
    if n < |s| {
      LinesRejoin(s[n + 1..]);
      assert Lines(s)[1..] == Lines(s[n + 1..]);
      assert s == s[..n] + [NEWLINE] + s[n + 1..];
    }
  }

  /** The lines that contain the pattern, in order. */
  ghost function Matching(pattern: seq<Byte>, ls: seq<seq<Byte>>): seq<seq<Byte>> {
    if ls == [] then []
    else if Contains(ls[0], pattern) then [ls[0]] + Matching(pattern, ls[1..]) else Matching(pattern, ls[1..])
  }

  /** Each behind the file's name and a colon. */
  function Headed(fname: seq<Byte>, ls: seq<seq<Byte>>): (r: seq<seq<Byte>>)
    ensures |r| == |ls| && forall i :: 0 <= i < |ls| ==> r[i] == fname + [COLON] + ls[i]
  {
    seq(|ls|, i requires 0 <= i < |ls| => fname + [COLON] + ls[i])
  }

  lemma HeadedFirst(fname: seq<Byte>, l: seq<Byte>, ls: seq<seq<Byte>>)
    ensures Headed(fname, [l] + ls) == [fname + [COLON] + l] + Headed(fname, ls)
  {
  }

  lemma Prepend<T>(x: T, a: seq<T>, b: seq<T>)
    ensures [x] + (a + b) == ([x] + a) + b
  {
  }

  /** What is printed, line by line: the matching lines, in order and once each, behind the file's name and a colon. */
  lemma {:induction false} ReportLines(fname: seq<Byte>, pattern: seq<Byte>, ls: seq<seq<Byte>>)
    requires NEWLINE !in fname && pattern != [] && NoneWithNewlines(ls)
    ensures Lines(ReportAll(fname, pattern, ls)) == Headed(fname, Matching(pattern, ls)) + [[]]
  {
    if ls != [] {
      var rest := ReportAll(fname, pattern, ls[1..]);
      assert ls[0] in ls;
      ReportLines(fname, pattern, ls[1..]);
      if Contains(ls[0], pattern) {
        HeadedFirst(fname, ls[0], Matching(pattern, ls[1..]));
        LinesOfPrinted(fname + [COLON] + ls[0], rest);
        Prepend(fname + [COLON] + ls[0], Headed(fname, Matching(pattern, ls[1..])), [[]]);
      } else {
        assert [] + rest == rest;
      }
    }
  }

  // ---- a newline left over in the last byte of the buffer ----

  /**
    What is printed when the uninitialised last byte of the buffer happens to be a newline: it ends the
    line that fills the buffer, once. It survives while full buffers end with newlines of their own.
  */
  ghost function StaleOutput(fname: seq<Byte>, pattern: seq<Byte>, s: seq<Byte>): seq<Byte>
    decreases |s|
  {
    if |s| < BUFSIZE then Output(fname, pattern, s)
    else
      Output(fname, pattern, s[..BUFSIZE]) +
      if s[BUFSIZE - 1] == NEWLINE then StaleOutput(fname, pattern, s[BUFSIZE..])
      else Output(fname, pattern, s[BUFSIZE..])
  }

  /** What the rest of a file is printed as, with or without that newline. */
  ghost function Due(stale: bool, fname: seq<Byte>, pattern: seq<Byte>, s: seq<Byte>): seq<Byte> {
    if stale then StaleOutput(fname, pattern, s) else Output(fname, pattern, s)
  }

  /** Does it cut a line in two that the buffer could have held? */
  predicate SplitsLine(s: seq<Byte>)
    decreases |s|
  {
    && |s| > BUFSIZE
    && if s[BUFSIZE - 1] == NEWLINE then SplitsLine(s[BUFSIZE..])
       else NEWLINE in s[..BUFSIZE] && s[BUFSIZE] != NEWLINE
  }

  /** Complete lines are printed without regard to what follows. */
  lemma {:induction false} OutputAppend(fname: seq<Byte>, pattern: seq<Byte>, a: seq<Byte>, b: seq<Byte>)
    requires |a| <= BUFSIZE && (a != [] ==> a[|a| - 1] == NEWLINE)
    ensures Output(fname, pattern, a + b) == Output(fname, pattern, a) + Output(fname, pattern, b)
    decreases |a|
  {
    if a == [] {
      assert a + b == b && Output(fname, pattern, a) == [];
    } else {
      var n := LineEnd(a);
      var line, rest := a[..n], a[n + 1..];
      assert a == line + [NEWLINE] + rest && a + b == line + [NEWLINE] + (rest + b);
      OutputLine(fname, pattern, line, rest);
      OutputLine(fname, pattern, line, rest + b);
      OutputAppend(fname, pattern, rest, b);
      Regroup(Report(fname, pattern, line), Output(fname, pattern, rest), Output(fname, pattern, b));
    }
  }

  /** The last newline of s is followed by p. */
  lemma {:induction false} LastLine(s: seq<Byte>) returns (a: seq<Byte>, p: seq<Byte>)
    ensures s == a + p && NEWLINE !in p && (a != [] ==> a[|a| - 1] == NEWLINE)
    ensures NEWLINE in s ==> a != []
  {
    var n: nat := |s|;
    while n > 0 && s[n - 1] != NEWLINE
      invariant n <= |s| && NEWLINE !in s[n..]
    {
      n := n - 1;
    }
    a, p := s[..n], s[n..];
  }

  lemma OutputAlone(fname: seq<Byte>, pattern: seq<Byte>, p: seq<Byte>)
    requires NEWLINE !in p && |p| <= BUFSIZE
    ensures Output(fname, pattern, p) == Report(fname, pattern, p)
  {
    OutputPiece(fname, pattern, p, []);
    assert p + [] == p && Output(fname, pattern, []) == [];
  }

  lemma OutputEmptyLine(fname: seq<Byte>, pattern: seq<Byte>, rest: seq<Byte>)
    ensures Output(fname, pattern, [NEWLINE] + rest) == Output(fname, pattern, rest)
  {
    OutputLine(fname, pattern, [], rest);
    ReportEmpty(fname, pattern);
    assert [] + [NEWLINE] + rest == [NEWLINE] + rest;
  }

  lemma CutBeforeNewline(fname: seq<Byte>, pattern: seq<Byte>, p: seq<Byte>, rest: seq<Byte>)
    requires NEWLINE !in p && |p| < BUFSIZE
    ensures Output(fname, pattern, p + ([NEWLINE] + rest))
         == Report(fname, pattern, p) + Output(fname, pattern, [NEWLINE] + rest)
  {
    OutputLine(fname, pattern, p, rest);
    OutputEmptyLine(fname, pattern, rest);
    assert p + ([NEWLINE] + rest) == p + [NEWLINE] + rest;
  }

  /** The unfinished line p of a full buffer, and what follows it in the file. */
  lemma CutHarmless(fname: seq<Byte>, pattern: seq<Byte>, p: seq<Byte>, b: seq<Byte>)
    requires NEWLINE !in p && |p| <= BUFSIZE && (|p| == BUFSIZE || b == [] || b[0] == NEWLINE)
    ensures Output(fname, pattern, p + b) == Output(fname, pattern, p) + Output(fname, pattern, b)
  {
    OutputAlone(fname, pattern, p);
    if |p| == BUFSIZE || b == [] {
      OutputPiece(fname, pattern, p, b);
    } else {
      CutBeforeNewline(fname, pattern, p, b[1..]);
      assert b == [NEWLINE] + b[1..];
    }
  }

  lemma OutputFirst(fname: seq<Byte>, pattern: seq<Byte>, s: seq<Byte>)
    requires s != []
    ensures Output(fname, pattern, s)
         == Report(fname, pattern, s[..PieceLength(s)]) + Output(fname, pattern, AfterPiece(s))
  {
    assert Pieces(s)[0] == s[..PieceLength(s)] && Pieces(s)[1..] == Pieces(AfterPiece(s));
  }

  lemma DifferAt(x: seq<Byte>, more: seq<Byte>, y: seq<Byte>, rest: seq<Byte>, i: nat)
    requires i < |x| && i < |y| && x[i] != y[i]
    ensures x + more != y + rest
  {
    assert (x + more)[i] == x[i] && (y + rest)[i] == y[i];
  }

  lemma ReportOf(line: seq<Byte>, c: Byte)
    requires line != [] && line[0] == c
    ensures Report([], [c], line) == [COLON] + line + [NEWLINE]
  {
    assert MatchesAt(line, [c], 0);
    assert [] + [COLON] + line + [NEWLINE] == [COLON] + line + [NEWLINE];
  }

  lemma LongerPiece(p: seq<Byte>, b: seq<Byte>)
    requires NEWLINE !in p && 0 < |p| < BUFSIZE && b != [] && b[0] != NEWLINE
    ensures PieceLength(p + b) > |p|
  {
    var s, n := p + b, LineEnd(p + b);
    assert forall i :: 0 <= i < |p| ==> s[i] == p[i];
    assert s[|p|] == b[0];
    assert n < |s| ==> s[n] == NEWLINE;
  }

  /** A line cut in two is printed in two, already for a pattern of one character. */
  lemma CutShows(p: seq<Byte>, b: seq<Byte>)
    requires NEWLINE !in p && 0 < |p| < BUFSIZE && b != [] && b[0] != NEWLINE
    ensures Output([], [p[0]], p + b) != Output([], [p[0]], p) + Output([], [p[0]], b)
  {
    var s, c := p + b, p[0];
    LongerPiece(p, b);
    var piece := s[..PieceLength(s)];
    OutputFirst([], [c], s);
    OutputAlone([], [c], p);
    ReportOf(piece, c);
    ReportOf(p, c);
    assert piece[|p|] == b[0];
    DifferAt([COLON] + piece + [NEWLINE], Output([], [c], AfterPiece(s)), [COLON] + p + [NEWLINE],
      Output([], [c], b), 1 + |p|);
  }

  lemma Cancel(a: seq<Byte>, x: seq<Byte>, p: seq<Byte>, b: seq<Byte>)
    ensures a + x == (a + p) + b <==> x == p + b
  {
    Regroup(a, p, b);
    if a + x == a + (p + b) { assert (a + x)[|a|..] == x && (a + (p + b))[|a|..] == p + b; }
  }

  /** One full buffer, before what follows it. */
  lemma BufferCut(s: seq<Byte>)
    requires |s| > BUFSIZE && s[BUFSIZE - 1] != NEWLINE
    ensures SplitsLine(s) ==> exists c: Byte :: Output([], [c], s) != StaleOutput([], [c], s)
    ensures !SplitsLine(s) ==> forall fname, pattern :: Output(fname, pattern, s) == StaleOutput(fname, pattern, s)
  {
    var a, p := LastLine(s[..BUFSIZE]);
    var b := s[BUFSIZE..];
    assert s == a + (p + b) && p != [];
    if SplitsLine(s) {
      var pattern := [p[0]];
      OutputAppend([], pattern, a, p + b);
      OutputAppend([], pattern, a, p);
      CutShows(p, b);
      Cancel(Output([], pattern, a), Output([], pattern, p + b), Output([], pattern, p), Output([], pattern, b));
    } else {
      assert NEWLINE !in s[..BUFSIZE] ==> a == [];
      forall fname, pattern ensures Output(fname, pattern, s) == StaleOutput(fname, pattern, s) {
        OutputAppend(fname, pattern, a, p + b);
        OutputAppend(fname, pattern, a, p);
        CutHarmless(fname, pattern, p, b);
        Regroup(Output(fname, pattern, a), Output(fname, pattern, p), Output(fname, pattern, b));
      }
    }
  }

  lemma SameTail(a: seq<Byte>, x: seq<Byte>, y: seq<Byte>)
    ensures a + x == a + y <==> x == y
  {
    if a + x == a + y { assert (a + x)[|a|..] == x && (a + y)[|a|..] == y; }
  }

  lemma BufferKept(s: seq<Byte>)
    requires |s| >= BUFSIZE && s[BUFSIZE - 1] == NEWLINE
    ensures forall fname, pattern :: (
              Output(fname, pattern, s) == StaleOutput(fname, pattern, s)
              <==> Output(fname, pattern, s[BUFSIZE..]) == StaleOutput(fname, pattern, s[BUFSIZE..]))
  {
    var a, b := s[..BUFSIZE], s[BUFSIZE..];
    assert s == a + b;
    forall fname, pattern
      ensures Output(fname, pattern, s) == StaleOutput(fname, pattern, s)
         <==> Output(fname, pattern, b) == StaleOutput(fname, pattern, b)
    {
      OutputAppend(fname, pattern, a, b);
      SameTail(Output(fname, pattern, a), Output(fname, pattern, b), StaleOutput(fname, pattern, b));
    }
  }

  lemma WholeBuffer(fname: seq<Byte>, pattern: seq<Byte>, s: seq<Byte>)
    requires |s| == BUFSIZE && s[BUFSIZE - 1] != NEWLINE
    ensures Output(fname, pattern, s) == StaleOutput(fname, pattern, s)
  {
    assert s[..BUFSIZE] == s && s[BUFSIZE..] == [] && Output(fname, pattern, []) == [];
  }

  /** The stale newline does no harm, whatever the pattern, if and only if it does not cut a line in two. */
  lemma {:induction false} StaleExactly(s: seq<Byte>)
    ensures (forall fname, pattern :: Output(fname, pattern, s) == StaleOutput(fname, pattern, s)) <==> !SplitsLine(s)
    decreases |s|
  {
    if |s| >= BUFSIZE && s[BUFSIZE - 1] == NEWLINE {
      BufferKept(s);
      StaleExactly(s[BUFSIZE..]);
    } else if |s| > BUFSIZE {
      BufferCut(s);
    } else if |s| == BUFSIZE {
      forall fname, pattern ensures Output(fname, pattern, s) == StaleOutput(fname, pattern, s) {
        WholeBuffer(fname, pattern, s);
      }
    }
  }
}
