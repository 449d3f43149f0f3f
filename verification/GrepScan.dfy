/** do_one_file (ece391grep.c) in its own form, on its buffer, with the support routines it calls. */
module GrepScan {
  import opened Common
  import opened Bytes
  import opened Grep
  import FileSystem

  const OPEN_FAILED: seq<Byte> := [102, 105, 108, 101, 32, 111, 112, 101, 110, 32, 102, 97, 105, 108, 101, 100, 10]

  /** ece391_strncmp (data + at, s, n) == 0, for all of the string s, a NUL standing in data at `end`. */
  method SameAt(data: array<Byte>, at: nat, end: nat, s: seq<Byte>) returns (same: bool)
    requires at <= end < data.Length && data[end] == NUL && NulFree(s) && s != []
    ensures same <==> MatchesAt(data[at..end], s, 0)
  {
    var i := 0;
    while data[at + i] == CharAt(s, i)
      invariant i < |s| && at + i <= end
      invariant data[at..at + i] == s[..i]
      decreases |s| - i
    {
      if data[at + i] == NUL || i + 1 == |s| {
        assert data[at..at + i + 1] == data[at..at + i] + [data[at + i]] && s[..i + 1] == s[..i] + [s[i]];
        assert data[at..end][0..i + 1] == data[at..at + i + 1];
        return true;
      }
      i := i + 1;
    }
    assert at + i < end ==> data[at..end][0..][i] != s[i];
    return false;
  }

  lemma MatchShifted(line: seq<Byte>, s: seq<Byte>, i: nat)
    requires i <= |line|
    ensures MatchesAt(line[i..], s, 0) <==> MatchesAt(line, s, i)
  {
    if i + |s| <= |line| { assert line[i..][0..0 + |s|] == line[i..i + |s|]; }
  }

  lemma FirstDiffers(line: seq<Byte>, s: seq<Byte>, i: nat)
    requires s != [] && i < |line| && line[i] != s[0]
    ensures !MatchesAt(line, s, i)
  {
    if i + |s| <= |line| { assert line[i..i + |s|][0] == line[i]; }
  }

  /** The search loop: is s found in the line that starts at `start` and ends with a NUL at `end`? */
  method Search(data: array<Byte>, start: nat, end: nat, s: seq<Byte>) returns (found: bool)
    requires start <= end < data.Length && data[end] == NUL && NulFree(s) && NulFree(data[start..end])
    ensures found <==> s != [] && Contains(data[start..end], s)
  {
    ghost var line := data[start..end];
    for check := start to end
      invariant s != [] ==> forall i :: 0 <= i < check - start ==> !MatchesAt(line, s, i)
    {
      assert data[check] == line[check - start];
      if s != [] && s[0] != data[check] { FirstDiffers(line, s, check - start); }
      if CharAt(s, 0) == data[check] {
        var same := SameAt(data, check, end, s);
        assert data[check..end] == line[check - start..];
        MatchShifted(line, s, check - start);
        if same {
          return true;
        }
      }
    }
    return false;
  }

  /** ece391_strcpy (data, data + from), the string ending with a NUL at `end`. */
  method CopyDown(data: array<Byte>, from: nat, end: nat)
    requires 0 < from <= end < data.Length && data[end] == NUL && NulFree(data[from..end])
    modifies data
    ensures forall k :: 0 <= k <= end - from ==> data[k] == old(data[from + k])
    ensures forall k :: end - from < k < data.Length ==> data[k] == old(data[k])
  {
    ghost var was := data[..];
    assert forall k :: from <= k < end ==> was[k] == data[from..end][k - from];
    var i := 0;
    var c := data[from];
    data[0] := c;
    while c != NUL
      invariant from + i <= end && c == was[from + i]
      invariant forall k :: 0 <= k <= i ==> data[k] == was[from + k]
      invariant forall k :: i < k < data.Length ==> data[k] == was[k]
      decreases end - i
    {
      i := i + 1;
      c := data[from + i];
      data[i] := c;
    }
  }

  /** The scan for the end of the line that starts at `start`. */
  method FindLineEnd(data: array<Byte>, start: nat, last: nat) returns (end: nat)
    requires start <= last < data.Length
    ensures start <= end <= last && (end < last ==> data[end] == NEWLINE)
    ensures NEWLINE !in data[start..end]
  {
    end := start;
    while end < last && NEWLINE != data[end]
      invariant start <= end <= last && NEWLINE !in data[start..end]
    {
      end := end + 1;
    }
  }

  /** A line starts at `start`, and the buffer is in use up to `last`. */
  predicate InBuffer(data: seq<Byte>, start: nat, last: nat) {
    && start <= last <= |data| && (start > 0 ==> start < last) && NulFree(data[start..last])
    && |data| == BUFSIZE + 1
  }

  /**
    What becomes of the byte behind the buffer, which may hold a newline from before: it is only ever
    overwritten with a NUL, and a newline is when it has ended the line that fills the buffer.
  */
  predicate LastByte(was: seq<Byte>, now: seq<Byte>, filled: nat, last: nat)
    requires |was| == |now| == BUFSIZE + 1
  {
    && (filled < BUFSIZE ==> now[BUFSIZE] == was[BUFSIZE])
    && (was[BUFSIZE] != NEWLINE ==> now[BUFSIZE] != NEWLINE)
    && (filled == BUFSIZE && was[BUFSIZE] == NEWLINE ==>
          last == 0 && (now[BUFSIZE] == NEWLINE <==> was[BUFSIZE - 1] == NEWLINE))
  }

  /** The buffered bytes `left` begin with a whole line or piece, after which `rest` remains. */
  predicate Cut(left: seq<Byte>, piece: seq<Byte>, rest: seq<Byte>, tail: seq<Byte>) {
    NEWLINE !in piece &&
    ((left == piece + [NEWLINE] + rest) || (left == piece && rest == [] && (|left| == BUFSIZE || tail == [])))
  }

  /** A piece was cut off and its report printed, or, when there is none, everything stays. */
  ghost predicate Printed(fname: seq<Byte>, s: seq<Byte>, left: seq<Byte>, piece: Option<seq<Byte>>, line: seq<Byte>,
                          rest: seq<Byte>, tail: seq<Byte>)
  {
    match piece
    case None => rest == left && line == []
    case Some(p) => Cut(left, p, rest, tail) && line == Report(fname, s, p)
  }

  lemma LineThenTail(p: seq<Byte>, rest: seq<Byte>, tail: seq<Byte>)
    ensures (p + [NEWLINE] + rest) + tail == p + [NEWLINE] + (rest + tail)
  {
  }

  lemma NothingBefore(tail: seq<Byte>)
    ensures [] + tail == tail
  {
  }

  lemma CutPrints(fname: seq<Byte>, s: seq<Byte>, left: seq<Byte>, piece: Option<seq<Byte>>, line: seq<Byte>,
                  rest: seq<Byte>, tail: seq<Byte>)
    requires |left| <= BUFSIZE && Printed(fname, s, left, piece, line, rest, tail)
    ensures Output(fname, s, left + tail) == line + Output(fname, s, rest + tail)
  {
    match piece
    case None =>
    case Some(p) =>
      if left == p + [NEWLINE] + rest {
        LineThenTail(p, rest, tail);
        OutputLine(fname, s, p, rest + tail);
      } else {
        NothingBefore(tail);
        OutputPiece(fname, s, left, tail);
      }
  }

  lemma NulFreePart(data: seq<Byte>, start: nat, end: nat, last: nat)
    requires start <= end <= last <= |data| && NulFree(data[start..last])
    ensures NulFree(data[start..end])
  {
    assert forall k :: 0 <= k < end - start ==> data[start..end][k] == data[start..last][k];
  }

  lemma CutAt(was: seq<Byte>, data: seq<Byte>, start: nat, end: nat, last: nat)
    requires start <= end <= last < |was| && data == was[end := NUL]
    requires NulFree(was[start..last])
    ensures end < last ==> data[end + 1..last] == was[end + 1..last] && NulFree(data[end + 1..last])
  {
    assert forall k :: end < k < last ==> was[k] == was[start..last][k - start];
  }

  /** The line that ends at `end` is cut off there, searched, and printed if s is found. */
  method Report1(data: array<Byte>, start: nat, end: nat, s: seq<Byte>, fname: seq<Byte>) returns (printed: seq<Byte>)
    requires start <= end < data.Length && NulFree(s) && NulFree(data[start..end])
    modifies data
    ensures printed == Report(fname, s, old(data[start..end]))
    ensures data[..] == old(data[..])[end := NUL]
  {
    data[end] := NUL;
    assert data[start..end] == old(data[start..end]);
    var found := Search(data, start, end, s);
    printed := if found then fname + [COLON] + data[start..end] + [NEWLINE] else [];
  }

  /** One line, `end` being where it ends, in a buffer that does not have to be carried over. */
  method CutLine(data: array<Byte>, start: nat, end: nat, last: nat, s: seq<Byte>,
    fname: seq<Byte>) returns (line: seq<Byte>)
    requires start <= end <= last < data.Length == BUFSIZE + 1 && NulFree(s) && NulFree(data[start..last])
    modifies data
    ensures line == Report(fname, s, old(data[start..end]))
    ensures forall i :: BUFSIZE - 1 <= i <= BUFSIZE ==> data[i] == if i == end then NUL else old(data[i])
    ensures end < last ==> data[end + 1..last] == old(data[end + 1..last]) && NulFree(data[end + 1..last])
  {
    ghost var was := data[..];
    NulFreePart(was, start, end, last);
    line := Report1(data, start, end, s, fname);
    CutAt(was, data[..], start, end, last);
  }

  lemma LineAndRest(data: seq<Byte>, start: nat, end: nat, last: nat)
    requires start <= end <= last <= |data| && NEWLINE !in data[start..end] && (end < last ==> data[end] == NEWLINE)
    ensures end < last ==> data[start..last] == data[start..end] + [NEWLINE] + data[end + 1..last]
  {
  }

  /** The unfinished line that starts at `start` goes to the front of the buffer. */
  method CarryOver(data: array<Byte>, start: nat, end: nat)
    requires 0 < start <= end < data.Length == BUFSIZE + 1 && NulFree(data[start..end])
    modifies data
    ensures data[..end - start] == old(data[start..end])
    ensures data[BUFSIZE] == if end == BUFSIZE then NUL else old(data[BUFSIZE])
  {
    ghost var was := data[..];
    data[end] := NUL;
    assert data[start..end] == was[start..end];
    CopyDown(data, start, end);
  }

  /** One turn of the inner loop; `more` unless it is the last. What is buffered afterwards is `left`. */
  method ScanLine(data: array<Byte>, start: nat, filled: nat, cnt: nat, s: seq<Byte>, fname: seq<Byte>,
    ghost tail: seq<Byte>)
    returns (more: bool, next: nat, last: nat, line: seq<Byte>, ghost piece: Option<seq<Byte>>, ghost left: seq<Byte>)
    requires data.Length == BUFSIZE + 1 && filled <= BUFSIZE && NulFree(s) && InBuffer(data[..], start, filled)
    requires filled < BUFSIZE || cnt == 0 || data[BUFSIZE] == NEWLINE ==> tail == []
    modifies data
    ensures more ==> last == filled && start < next && InBuffer(data[..], next, last) && left == data[next..last]
    ensures more ==> data[BUFSIZE] == old(data[BUFSIZE]) && data[BUFSIZE - 1] == old(data[BUFSIZE - 1])
    ensures !more ==> last < BUFSIZE && (cnt == 0 ==> last == 0) && LastByte(old(data[..]), data[..], filled, last)
    ensures !more ==> NulFree(left) && left == data[..last]
    ensures Printed(fname, s, old(data[start..filled]), piece, line, left, tail)
  {
    last := filled;
    var end := FindLineEnd(data, start, last);
    if NEWLINE != data[end] && 0 != cnt && start != 0 {
      CarryOver(data, start, end);
      return false, start, last - start, [], None, data[..last - start];
    }
    ghost var was := data[..];
    LineAndRest(was, start, end, last);
    piece := Some(was[start..end]);
    line := CutLine(data, start, end, last, s, fname);
    next := end + 1;
    more := next < last;
    left := if more then data[next..last] else [];
    if !more { last := 0; }
  }

  /**
    The inner loop: everything that is complete in data[..last] is searched and reported; an
    unfinished last line is moved to the front of the buffer, unless it is all the buffer holds or the
    file has ended. `tail` is what of the file has not been read yet; `was` and `all` are all that has
    not been searched, before and after.
  */
  method ScanBuffer(data: array<Byte>, filled: nat, cnt: nat, s: seq<Byte>, fname: seq<Byte>, ghost tail: seq<Byte>,
                    ghost was: seq<Byte>) returns (last: nat, printed: seq<Byte>, ghost all: seq<Byte>)
    requires data.Length == BUFSIZE + 1 && filled <= BUFSIZE && NulFree(s) && NulFree(data[..filled])
    requires filled < BUFSIZE || cnt == 0 || data[BUFSIZE] == NEWLINE ==> tail == []
    requires was == data[..filled] + tail
    modifies data
    ensures last < BUFSIZE && (cnt == 0 ==> all == []) && NulFree(data[..last])
    ensures LastByte(old(data[..]), data[..], filled, last) && all == data[..last] + tail
    ensures Output(fname, s, was) == printed + Output(fname, s, all)
  {
    last, printed := filled, [];
    var start: nat, more := 0, true;
    ghost var left := data[..filled];
    ghost var todo := Output(fname, s, left + tail);
    ghost var goal := todo;
    assert data[start..last] == left;
    while more
      invariant more ==> last == filled && InBuffer(data[..], start, last) && left == data[start..last]
      invariant !more ==> last < BUFSIZE && (cnt == 0 ==> last == 0) && left == data[..last]
      invariant !more ==> NulFree(left) && LastByte(old(data[..]), data[..], filled, last)
      invariant more ==> data[BUFSIZE] == old(data[BUFSIZE]) && data[BUFSIZE - 1] == old(data[BUFSIZE - 1])
      invariant todo == Output(fname, s, left + tail) && goal == printed + todo
      decreases more, last - start
    {
      var line;
      ghost var piece;
      ghost var before := left;
      more, start, last, line, piece, left := ScanLine(data, start, last, cnt, s, fname, tail);
      CutPrints(fname, s, before, piece, line, left, tail);
      todo := Output(fname, s, left + tail);
      Regroup(printed, line, todo);
      printed := printed + line;
    }
    all := left + tail;
  }

  // ---- the whole file ----

  /** Descriptor d reads file `text`, and is somewhere in it. */
  predicate Reads(img: FileSystem.Image, d: FileSystem.FileDesc, text: seq<Byte>) {
    && FileSystem.WellFormed(img) && d.inode < |img.inodes|
    && FileSystem.Flat(img, d.inode) == text && d.pos <= |text|
  }

  lemma NextBytes(img: FileSystem.Image, d: FileSystem.FileDesc, text: seq<Byte>, count: nat) returns (bytes: seq<Byte>)
    requires Reads(img, d, text)
    ensures FileSystem.DataAt(img, d.inode, d.pos, count) == Some(bytes)
    ensures var after := FileSystem.Advance(d, |bytes|);
      Reads(img, after, text) && after.pos == d.pos + |bytes| && bytes == text[d.pos..after.pos]
    ensures |bytes| <= count && (|bytes| < count ==> d.pos + |bytes| == |text|)
  {
    FileSystem.LengthFits(img, d.inode);
    bytes := FileSystem.Window(text, d.pos, count);
  }

  lemma Spliced(was: seq<Byte>, now: seq<Byte>, at: nat, bytes: seq<Byte>)
    requires at + |bytes| <= |was| && now == was[..at] + bytes + was[at + |bytes|..]
    ensures |now| == |was| && now[..at] == was[..at] && now[at..at + |bytes|] == bytes
    ensures now[at + |bytes|..] == was[at + |bytes|..]
  {
  }

  /** ece391_read (fd, data + last, BUFSIZE - last), from the file system. */
  method ReadMore(img: FileSystem.Image, fds: array<FileSystem.FileDesc>, fd: nat, data: array<Byte>, last: nat,
                  ghost text: seq<Byte>) returns (cnt: nat)
    requires fd < fds.Length && Reads(img, fds[fd], text) && data.Length == BUFSIZE + 1 && last <= BUFSIZE
    modifies fds, data
    ensures Reads(img, fds[fd], text) && fds[fd].pos == old(fds[fd].pos) + cnt && last + cnt <= BUFSIZE
    ensures last + cnt < BUFSIZE ==> fds[fd].pos == |text|
    ensures data[..last] == old(data[..last]) && data[last + cnt..] == old(data[last + cnt..])
    ensures data[last..last + cnt] == text[old(fds[fd].pos)..fds[fd].pos]
  {
    ghost var before, d := data[..], fds[fd];
    ghost var bytes := NextBytes(img, d, text, BUFSIZE - last);
    cnt := FileSystem.FileRead(img, fds, fd, data, last, BUFSIZE - last);
    Spliced(before, data[..], last, bytes);
  }

  lemma Refilled(data: seq<Byte>, carried: seq<Byte>, text: seq<Byte>, pos: nat, last: nat, cnt: nat)
    requires |data| == BUFSIZE + 1 && last + cnt <= BUFSIZE && pos + cnt <= |text|
    requires NulFree(text) && NulFree(carried)
    requires data[..last] == carried && data[last..last + cnt] == text[pos..pos + cnt]
    ensures NulFree(data[..last + cnt])
    ensures data[..last + cnt] + text[pos + cnt..] == carried + text[pos..]
  {
    assert data[..last + cnt] == carried + text[pos..pos + cnt];
    assert text[pos..] == text[pos..pos + cnt] + text[pos + cnt..];
  }

  /** The same, seen from the buffer: what is buffered or unread does not change, and has no NUL. */
  method Refill(img: FileSystem.Image, fds: array<FileSystem.FileDesc>, fd: nat, data: array<Byte>, last: nat,
                ghost text: seq<Byte>, ghost left: seq<Byte>) returns (cnt: nat)
    requires fd < fds.Length && Reads(img, fds[fd], text) && data.Length == BUFSIZE + 1 && last < BUFSIZE
    requires NulFree(text) && NulFree(data[..last])
    requires left == data[..last] + text[fds[fd].pos..]
    modifies fds, data
    ensures Reads(img, fds[fd], text) && fds[fd].pos == old(fds[fd].pos) + cnt && last + cnt <= BUFSIZE
    ensures left == data[..last + cnt] + text[fds[fd].pos..]
    ensures NulFree(data[..last + cnt]) && data[BUFSIZE] == old(data[BUFSIZE])
    ensures last + cnt < BUFSIZE || cnt == 0 ==> text[fds[fd].pos..] == []
  {
    ghost var pos, before := fds[fd].pos, data[..];
    cnt := ReadMore(img, fds, fd, data, last, text);
    Refilled(data[..], before[..last], text, pos, last, cnt);
    assert data[BUFSIZE] == data[last + cnt..][BUFSIZE - (last + cnt)] == before[last + cnt..][BUFSIZE - (last + cnt)];
  }

  lemma OutputEnd(fname: seq<Byte>, s: seq<Byte>)
    ensures Output(fname, s, []) == []
  {
  }

  lemma DueEnd(stale: bool, fname: seq<Byte>, s: seq<Byte>)
    ensures Due(stale, fname, s, []) == []
  {
    OutputEnd(fname, s);
  }

  lemma NothingMore(printed: seq<Byte>, more: seq<Byte>)
    requires more == []
    ensures printed + more == printed
  {
  }

  /** A newline left over behind the buffer: only while nothing is carried over, or nothing is left to read. */
  predicate Stale(data: seq<Byte>, filled: nat, rest: seq<Byte>)
    requires |data| == BUFSIZE + 1
  {
    data[BUFSIZE] == NEWLINE ==> filled == 0 || rest == []
  }

  lemma BufferDue(fname: seq<Byte>, s: seq<Byte>, chunk: seq<Byte>, rest: seq<Byte>, stale: bool)
    requires |chunk| == BUFSIZE && (stale <==> chunk[BUFSIZE - 1] == NEWLINE)
    ensures StaleOutput(fname, s, chunk + rest) == Output(fname, s, chunk) + Due(stale, fname, s, rest)
  {
    assert (chunk + rest)[..BUFSIZE] == chunk && (chunk + rest)[BUFSIZE..] == rest;
  }

  lemma RoundDue(fname: seq<Byte>, s: seq<Byte>, before: seq<Byte>, after: seq<Byte>, filled: nat, last: nat,
                 rest: seq<Byte>, was: seq<Byte>, all: seq<Byte>, line: seq<Byte>, left: seq<Byte>)
    requires |before| == |after| == BUFSIZE + 1 && filled <= BUFSIZE && last < BUFSIZE
      && LastByte(before, after, filled, last)
    requires filled < BUFSIZE ==> rest == []
    requires was == before[..filled] + rest && left == after[..last] + rest
    requires var tail := if before[BUFSIZE] == NEWLINE && filled == BUFSIZE then [] else rest;
      all == after[..last] + tail && Output(fname, s, before[..filled] + tail) == line + Output(fname, s, all)
    ensures Due(before[BUFSIZE] == NEWLINE, fname, s, was) == line + Due(after[BUFSIZE] == NEWLINE, fname, s, left)
  {
    if before[BUFSIZE] == NEWLINE {
      if filled == BUFSIZE {
        BufferDue(fname, s, before[..BUFSIZE], rest, after[BUFSIZE] == NEWLINE);
        assert before[..BUFSIZE] + [] == before[..BUFSIZE] && all == [] && left == rest;
        OutputEnd(fname, s);
        NothingMore(line, Output(fname, s, all));
      } else {
        assert was == before[..filled] + [] && left == all;
      }
    }
  }

  /** One round of the outer loop: read, then search what the buffer holds; `left` is what has not been searched. */
  method Round(img: FileSystem.Image, fds: array<FileSystem.FileDesc>, fd: nat, data: array<Byte>, filled: nat,
               s: seq<Byte>, fname: seq<Byte>, ghost text: seq<Byte>, ghost was: seq<Byte>)
    returns (last: nat, cnt: nat, line: seq<Byte>, ghost left: seq<Byte>)
    requires fd < fds.Length && Reads(img, fds[fd], text) && data.Length == BUFSIZE + 1 && filled < BUFSIZE
    requires NulFree(s) && NulFree(text) && NulFree(data[..filled]) && Stale(data[..], filled, text[fds[fd].pos..])
    requires was == data[..filled] + text[fds[fd].pos..]
    modifies fds, data
    ensures Reads(img, fds[fd], text) && fds[fd].pos == old(fds[fd].pos) + cnt
    ensures last < BUFSIZE && NulFree(data[..last]) && Stale(data[..], last, text[fds[fd].pos..])
    ensures left == data[..last] + text[fds[fd].pos..] && (cnt == 0 ==> left == [])
    ensures Due(old(data[BUFSIZE]) == NEWLINE, fname, s, was) == line + Due(data[BUFSIZE] == NEWLINE, fname, s, left)
  {
    cnt := Refill(img, fds, fd, data, filled, text, was);
    ghost var rest, before := text[fds[fd].pos..], data[..];
    ghost var cut := before[BUFSIZE] == NEWLINE && filled + cnt == BUFSIZE;
    ghost var tail := if cut then [] else rest;
    ghost var all;
    last, line, all := ScanBuffer(data, filled + cnt, cnt, s, fname, tail, before[..filled + cnt] + tail);
    left := data[..last] + rest;
    RoundDue(fname, s, before, data[..], filled + cnt, last, rest, was, all, line, left);
  }

  /**
    do_one_file: the output is what the pieces of the file from the descriptor's position on call for. The
    file has no NUL. The buffer may hold anything; a newline in its last byte makes a difference, and
    StaleOutput says which.
  */
  method DoOneFile(img: FileSystem.Image, fds: array<FileSystem.FileDesc>, fd: int, data: array<Byte>,
                   s: seq<Byte>, fname: seq<Byte>, ghost text: seq<Byte>) returns (r: int, printed: seq<Byte>)
    requires data.Length == BUFSIZE + 1 && NulFree(s) && NulFree(text)
    requires fd != -1 ==> 0 <= fd < fds.Length && Reads(img, fds[fd], text)
    modifies fds, data
    ensures fd == -1 ==> r == -1 && printed == OPEN_FAILED
    ensures fd != -1 ==> r == 0 && printed == Due(old(data[BUFSIZE]) == NEWLINE, fname, s, text[old(fds[fd].pos)..])
  {
    if fd == -1 {
      return -1, OPEN_FAILED;
    }
    printed := [];
    var last: nat := 0;
    ghost var left := text[fds[fd].pos..];
    ghost var todo := Due(data[BUFSIZE] == NEWLINE, fname, s, left);
    ghost var goal := todo;
    assert data[..0] + left == left;
    while true
      invariant last < BUFSIZE && NulFree(data[..last]) && Reads(img, fds[fd], text)
      invariant Stale(data[..], last, text[fds[fd].pos..])
      invariant left == data[..last] + text[fds[fd].pos..]
      invariant todo == Due(data[BUFSIZE] == NEWLINE, fname, s, left) && goal == printed + todo
      decreases |text| - fds[fd].pos
    {
      var cnt, line;
      last, cnt, line, left := Round(img, fds, fd, data, last, s, fname, text, left);
      todo := Due(data[BUFSIZE] == NEWLINE, fname, s, left);
      Regroup(printed, line, todo);
      printed := printed + line;
      if cnt == 0 {
        DueEnd(data[BUFSIZE] == NEWLINE, fname, s);
        NothingMore(printed, todo);
        break;
      }
    }
    return 0, printed;
  }
}
