/** How execute (syscall.c) takes a command line apart and decides whether it names a program. */
module Command {
  import opened Common
  import opened Bytes
  import opened FileSystem
  import LineDiscipline

  const MAGIC: seq<Byte> := [0x7f, 0x45, 0x4c, 0x46]
  const SHELL: seq<Byte> := [115, 104, 101, 108, 108]

  predicate EndsWord(c: Byte) { c == SPACE || c == NEWLINE }

  function SkipSpaces(s: seq<Byte>): (r: seq<Byte>)
    ensures |r| <= |s|
  {
    if s == [] || s[0] != SPACE then s else SkipSpaces(s[1..])
  }

  lemma SkipOne(s: seq<Byte>, at: nat)
    requires at < |s| && s[at] == SPACE
    ensures SkipSpaces(s[at..]) == SkipSpaces(s[at + 1..])
  {
    assert s[at..][1..] == s[at + 1..];
  }

  /** The characters before the first space or newline. */
  function Word(s: seq<Byte>): (r: seq<Byte>)
    ensures |r| <= |s|
  {
    if s == [] || EndsWord(s[0]) then [] else [s[0]] + Word(s[1..])
  }

  lemma {:induction false} SkipSpacesIsSuffix(s: seq<Byte>)
    ensures SkipSpaces(s) == s[|s| - |SkipSpaces(s)|..]
  {
    if s != [] && s[0] == SPACE { SkipSpacesIsSuffix(s[1..]); }
  }

  lemma {:induction false} WordIsPrefix(s: seq<Byte>)
    ensures Word(s) == s[..|Word(s)|]
  {
    if s != [] && !EndsWord(s[0]) { WordIsPrefix(s[1..]); }
  }

  function FirstWord(s: seq<Byte>): seq<Byte> { Word(SkipSpaces(s)) }

  function SecondWord(s: seq<Byte>): seq<Byte> { FirstWord(SkipSpaces(s)[|FirstWord(s)|..]) }

  /** The first scanning loop of execute: over the spaces from `at` on. */
  method SkipBlanks(command: seq<Byte>, at: nat) returns (start: nat)
    requires at <= |command|
    ensures at <= start <= |command|
    ensures command[start..] == SkipSpaces(command[at..])
  {
    start := at;
    while start < |command| && command[start] == SPACE
      invariant at <= start <= |command|
      invariant SkipSpaces(command[start..]) == SkipSpaces(command[at..])
    {
      SkipOne(command, start);
      start := start + 1;
    }
  }

  lemma {:induction false} WordThen(w: seq<Byte>, rest: seq<Byte>)
    requires forall i :: 0 <= i < |w| ==> !EndsWord(w[i])
    requires rest == [] || EndsWord(rest[0])
    ensures Word(w + rest) == w
  {
    if w == [] {
      assert w + rest == rest;
    } else {
      assert (w + rest)[1..] == w[1..] + rest;
      WordThen(w[1..], rest);
    }
  }

  /** The second one: to the end of the word that starts at `start`. */
  method FindEnd(command: seq<Byte>, start: nat) returns (end: nat)
    requires start <= |command|
    ensures start <= end <= |command|
    ensures command[start..end] == Word(command[start..])
  {
    end := start;
    while end < |command| && !EndsWord(command[end])
      invariant start <= end <= |command|
      invariant forall i :: start <= i < end ==> !EndsWord(command[i])
    {
      end := end + 1;
    }
    WordThen(command[start..end], command[end..]);
    assert command[start..] == command[start..end] + command[end..];
  }

  /** What copying a word into a buffer writes, from the buffer's start on. */
  function Stored(word: seq<Byte>): seq<Byte> { word + [NUL] }

  lemma CopiedWord(was: seq<Byte>, now: seq<Byte>, w: seq<Byte>)
    requires |w| < |was| && now == (w + was[|w|..])[|w| := NUL]
    ensures now == Stored(w) + was[|w| + 1..]
  {
  }

  /** Read as a C string, a stored word is the word. */
  lemma StoredReads(mem: seq<Byte>, w: seq<Byte>, rest: seq<Byte>)
    requires NulFree(w) && mem == Stored(w) + rest
    ensures CString(mem) == w
  {
    assert mem[..|w|] == w;
    CStringIs(mem, |w|);
  }

  method CopyWord(buf: array<Byte>, command: seq<Byte>, start: nat, end: nat)
    requires start <= end <= |command| && NulFree(command) && end - start < buf.Length
    modifies buf
    ensures buf[..] == Stored(command[start..end]) + old(buf[end - start + 1..])
  {
    ghost var was := buf[..];
    assert NulFree(command[start..][..end - start]);
    StrNCpy(buf, command[start..], end - start);
    buf[end - start] := NUL;
    CopiedWord(was, buf[..], command[start..][..end - start]);
    assert command[start..][..end - start] == command[start..end];
  }

  lemma WordsAt(s: seq<Byte>, start: nat, end: nat, second: nat, last: nat)
    requires start <= end <= second <= last <= |s|
    requires s[start..] == SkipSpaces(s[0..]) && s[start..end] == Word(s[start..])
    requires s[second..] == SkipSpaces(s[end..]) && s[second..last] == Word(s[second..])
    ensures s[start..end] == FirstWord(s) && s[second..last] == SecondWord(s)
  {
    assert s[0..] == s && s[start..][end - start..] == s[end..];
  }

  /** The four scanning loops: where the first two words stand. */
  method Scan(command: seq<Byte>) returns (start: nat, end: nat, second: nat, last: nat)
    ensures start <= end <= second <= last <= |command|
    ensures command[start..end] == FirstWord(command) && command[second..last] == SecondWord(command)
  {
    start := SkipBlanks(command, 0);
    end := FindEnd(command, start);
    second := SkipBlanks(command, end);
    last := FindEnd(command, second);
    WordsAt(command, start, end, second, last);
  }

  /** The scans and copies of execute; cmd and argument are the memory from the two buffers on, as far as it writes. */
  method Parse(command: seq<Byte>, cmd: array<Byte>, argument: array<Byte>)
    requires NulFree(command) && cmd != argument
    requires |Stored(FirstWord(command))| <= cmd.Length && |Stored(SecondWord(command))| <= argument.Length
    modifies cmd, argument
    ensures cmd[..] == Stored(FirstWord(command)) + old(cmd[|FirstWord(command)| + 1..])
    ensures argument[..] == Stored(SecondWord(command)) + old(argument[|SecondWord(command)| + 1..])
  {
    var start, end, second, last := Scan(command);
    CopyWord(cmd, command, start, end);
    CopyWord(argument, command, second, last);
  }

  lemma FirstWordNulFree(s: seq<Byte>)
    requires NulFree(s)
    ensures NulFree(FirstWord(s))
  {
    var t := SkipSpaces(s);
    SkipSpacesIsSuffix(s);
    WordIsPrefix(t);
    assert forall i :: 0 <= i < |FirstWord(s)| ==> FirstWord(s)[i] == s[|s| - |t| + i];
  }

  function Spaces(n: nat): (r: seq<Byte>)
    ensures |r| == n
  {
    seq(n, _ => SPACE)
  }

  lemma {:induction false} SkipAll(n: nat, rest: seq<Byte>)
    requires rest == [] || rest[0] == NEWLINE
    ensures SkipSpaces(Spaces(n) + rest) == rest
  {
    if n == 0 {
      assert Spaces(0) + rest == rest;
    } else {
      assert (Spaces(n) + rest)[1..] == Spaces(n - 1) + rest;
      SkipAll(n - 1, rest);
    }
  }

  predicate IsWord(w: seq<Byte>) {
    w != [] && SPACE !in w && NEWLINE !in w
  }

  lemma {:induction false} SkipLeading(n: nat, s: seq<Byte>)
    requires s != [] && s[0] != SPACE
    ensures SkipSpaces(Spaces(n) + s) == s
  {
    if n == 0 {
      assert Spaces(0) + s == s;
    } else {
      assert (Spaces(n) + s)[1..] == Spaces(n - 1) + s;
      SkipLeading(n - 1, s);
    }
  }

  /** A name with nothing but spaces, and perhaps the end of the line, behind it has no argument. */
  lemma ParseAlone(a: nat, name: seq<Byte>, b: nat, rest: seq<Byte>)
    requires IsWord(name) && (rest == [] || rest[0] == NEWLINE)
    ensures FirstWord(Spaces(a) + (name + (Spaces(b) + rest))) == name
    ensures SecondWord(Spaces(a) + (name + (Spaces(b) + rest))) == []
  {
    var tail := Spaces(b) + rest;
    SkipLeading(a, name + tail);
    WordThen(name, tail);
    assert (name + tail)[|name|..] == tail;
    SkipAll(b, rest);
  }

  lemma WordsNulFree(command: seq<Byte>)
    requires NulFree(command)
    ensures NulFree(FirstWord(command)) && NulFree(SecondWord(command))
  {
    FirstWordNulFree(command);
    var s := SkipSpaces(command);
    SkipSpacesIsSuffix(command);
    assert forall i :: 0 <= i < |s| ==> s[i] == command[|command| - |s| + i];
    assert NulFree(s[|FirstWord(command)|..]);
    FirstWordNulFree(s[|FirstWord(command)|..]);
  }

  /** The same, seen through the C strings that stand in the buffers afterwards. */
  method ParseReads(command: seq<Byte>, cmd: array<Byte>, argument: array<Byte>)
    requires NulFree(command) && cmd != argument
    requires |Stored(FirstWord(command))| <= cmd.Length && |Stored(SecondWord(command))| <= argument.Length
    modifies cmd, argument
    ensures CString(cmd[..]) == FirstWord(command) && CString(argument[..]) == SecondWord(command)
  {
    ghost var was, old' := cmd[..], argument[..];
    Parse(command, cmd, argument);
    WordsNulFree(command);
    StoredReads(cmd[..], FirstWord(command), was[|FirstWord(command)| + 1..]);
    StoredReads(argument[..], SecondWord(command), old'[|SecondWord(command)| + 1..]);
  }

  /** Neither copy of the scan leaves its 128-byte buffer. */
  predicate StaysInBuffers(command: seq<Byte>) {
    |Stored(FirstWord(command))| <= KEYBOARD_BUF_SIZE && |Stored(SecondWord(command))| <= KEYBOARD_BUF_SIZE
  }

  /** The scan stays in its buffers if and only if neither word has more than 127 characters. */
  lemma StaysExactly(command: seq<Byte>)
    ensures StaysInBuffers(command)
       <==> |FirstWord(command)| < KEYBOARD_BUF_SIZE && |SecondWord(command)| < KEYBOARD_BUF_SIZE
  {
  }

  lemma ShortCommandsStay(command: seq<Byte>)
    requires |command| < KEYBOARD_BUF_SIZE
    ensures StaysInBuffers(command)
  {
  }

  /** A line typed at a terminal always stays in them, its newline taken off. */
  lemma TypedLinesStay(b: LineDiscipline.Buffer, nbytes: nat)
    requires LineDiscipline.Counted(b) && b.flag != 0 && nbytes >= LineDiscipline.LineLength(b.pending)
    ensures var k := LineDiscipline.Taken(b, nbytes); k > 0 && StaysInBuffers(b.pending[..k - 1])
  {
    LineDiscipline.FlagMeansLine(b);
    ShortCommandsStay(b.pending[..LineDiscipline.Taken(b, nbytes) - 1]);
  }

  /** A word of n letters does up to 127. */
  lemma LongWordEscapes(c: Byte, n: nat)
    requires !EndsWord(c)
    ensures StaysInBuffers(seq(n, _ => c)) <==> n < KEYBOARD_BUF_SIZE
  {
    var w: seq<Byte> := seq(n, _ => c);
    SkipSpacesIsSuffix(w);
    WordThen(w, []);
    assert w + [] == w && SkipSpaces(w) == w;
    assert w[|w|..] == [];
  }

  /**
    Parsing undoes formatting: whatever the spacing, and whatever follows, the program name and its
    first argument come back.
  */
  lemma ParseFormatted(a: nat, name: seq<Byte>, b: nat, argument: seq<Byte>, rest: seq<Byte>)
    requires IsWord(name) && IsWord(argument) && b > 0
    requires rest == [] || EndsWord(rest[0])
    ensures FirstWord(Spaces(a) + (name + (Spaces(b) + (argument + rest)))) == name
    ensures SecondWord(Spaces(a) + (name + (Spaces(b) + (argument + rest)))) == argument
  {
    var tail := Spaces(b) + (argument + rest);
    SkipLeading(a, name + tail);
    WordThen(name, tail);
    assert (name + tail)[|name|..] == tail;
    SkipLeading(b, argument + rest);
    WordThen(argument, rest);
  }

  // ---- the magic number ----

  /** The header buffer after the read: a short file leaves part of it, a bad inode all of it, as it was. */
  function HeaderAfter(img: Image, inode: nat, header: seq<Byte>): (r: seq<Byte>)
    requires WellFormed(img) && |header| == |MAGIC|
  {
    match DataAt(img, inode, 0, |MAGIC|)
    case None => header
    case Some(bytes) => bytes + header[|bytes|..]
  }

  /** What execute accepts, `header` being what its uninitialised header buffer holds. */
  predicate Accepted(img: Image, name: seq<Byte>, header: seq<Byte>)
    requires WellFormed(img) && |header| == |MAGIC|
  {
    match Lookup(img, name)
    case None => false
    case Some(d) => HeaderAfter(img, d.inodeNum, header) == MAGIC
  }

  /** What it is meant to accept: names of files that start with the ELF magic number. */
  predicate IsProgram(img: Image, name: seq<Byte>)
    requires WellFormed(img)
  {
    match Lookup(img, name)
    case None => false
    case Some(d) => DataAt(img, d.inodeNum, 0, |MAGIC|) == Some(MAGIC)
  }

  /** The bytes of the magic number that a file supplies by itself. */
  function FirstBytes(img: Image, inode: nat): (bytes: seq<Byte>)
    requires WellFormed(img)
    ensures |bytes| <= |MAGIC|
  {
    match DataAt(img, inode, 0, |MAGIC|)
    case None => []
    case Some(bytes) => bytes
  }

  /** The comparing loop. */
  method HasMagic(header: array<Byte>) returns (same: bool)
    requires header.Length == |MAGIC|
    ensures same <==> header[..] == MAGIC
  {
    for i := 0 to |MAGIC|
      invariant header[..i] == MAGIC[..i]
    {
      if header[i] != MAGIC[i] {
        assert header[..][i] != MAGIC[i];
        return false;
      }
    }
    assert header[..] == header[..|MAGIC|];
    return true;
  }

  lemma HeaderRead(img: Image, inode: nat, was: seq<Byte>, now: seq<Byte>)
    requires WellFormed(img) && |was| == |MAGIC|
    requires var data := DataAt(img, inode, 0, |MAGIC|);
      if data.None? then now == was else now == was[..0] + data.value + was[|data.value|..]
    ensures now == HeaderAfter(img, inode, was)
  {
  }

  method CheckRunnable(img: Image, name: seq<Byte>, header: array<Byte>) returns (ok: bool)
    requires WellFormed(img) && NulFree(name) && header.Length == |MAGIC|
    modifies header
    ensures ok <==> Accepted(img, name, old(header[..]))
  {
    ghost var was := header[..];
    var r, dentry := ReadDentryByName(img, name);
    if r != 0 { return false; }
    var count := ReadData(img, dentry.value.inodeNum, 0, header, 0, |MAGIC|);
    HeaderRead(img, dentry.value.inodeNum, was, header[..]);
    ok := HasMagic(header);
  }

  lemma Continues(bytes: seq<Byte>, header: seq<Byte>)
    requires |bytes| <= |header| == |MAGIC|
    ensures bytes + header[|bytes|..] == MAGIC <==> bytes <= MAGIC && header[|bytes|..] == MAGIC[|bytes|..]
  {
    assert MAGIC == MAGIC[..|bytes|] + MAGIC[|bytes|..];
  }

  /**
    The check does what it is meant to do if and only if the file does not end within the magic number
    or the memory of the buffer does not happen to continue it.
  */
  lemma AcceptedExactly(img: Image, name: seq<Byte>, header: seq<Byte>)
    requires WellFormed(img) && |header| == |MAGIC| && Lookup(img, name).Some?
    ensures var bytes := FirstBytes(img, Lookup(img, name).value.inodeNum);
      (Accepted(img, name, header) <==> IsProgram(img, name))
      <==> !(bytes < MAGIC && header[|bytes|..] == MAGIC[|bytes|..])
  {
    var inode := Lookup(img, name).value.inodeNum;
    var bytes := FirstBytes(img, inode);
    Continues(bytes, header);
    assert HeaderAfter(img, inode, header) == bytes + header[|bytes|..];
    assert bytes <= MAGIC ==> (bytes == MAGIC <==> !(bytes < MAGIC));
    assert |bytes| == |MAGIC| ==> bytes + header[|bytes|..] == bytes;
    assert IsProgram(img, name) <==> bytes == MAGIC;
  }

  /** It can be relied on, whatever the buffer holds, if and only if the file does not end within the magic number. */
  lemma ReliableExactly(img: Image, name: seq<Byte>)
    requires WellFormed(img) && Lookup(img, name).Some?
    ensures (forall header: seq<Byte> | |header| == |MAGIC| :: Accepted(img, name, header) <==> IsProgram(img, name))
       <==> !(FirstBytes(img, Lookup(img, name).value.inodeNum) < MAGIC)
  {
    forall header: seq<Byte> | |header| == |MAGIC| {
      AcceptedExactly(img, name, header);
    }
    AcceptedExactly(img, name, MAGIC);
  }

  /** An empty file is run if an earlier execute has left the magic number in the buffer. */
  lemma EmptyFileRuns()
    ensures var name := [97];
      var img := Image([Dentry(name + seq(31, _ => NUL), 2, 0)], [Inode(0, [])], []);
      WellFormed(img) && Accepted(img, name, MAGIC) && !IsProgram(img, name)
  {
    var name: seq<Byte> := [97];
    var img := Image([Dentry(name + seq(31, _ => NUL), 2, 0)], [Inode(0, [])], []);
    CStringIs(img.dentries[0].fileName, 1);
    assert EntryName(img, 0) == name;
    assert Lookup(img, name) == Some(img.dentries[0]);
  }

  lemma ShellIsWord()
    ensures NulFree(SHELL) && FirstWord(SHELL) == SHELL && SecondWord(SHELL) == []
  {
    assert forall i :: 0 <= i < |SHELL| ==> !EndsWord(SHELL[i]) && SHELL[i] != NUL;
    WordThen(SHELL, []);
    assert SHELL + [] == SHELL && SHELL[|SHELL|..] == [];
  }
}
