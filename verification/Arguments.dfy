/**
  Arguments in the emulation layer (ece391emulate.c): ece391_execute splits a command line into
  arguments, ece391_getargs joins them again.
*/
module Arguments {
  import opened Common
  import opened Bytes
  import Command

  const MAX_COMMAND := 1023
  const ARG_SLOTS := 1024

  /** What is left after k characters and one more. */
  function Beyond(s: seq<Byte>, k: nat): seq<Byte> { if k < |s| then s[k + 1..] else [] }

  lemma WordIsWord(s: seq<Byte>)
    requires s != [] && !Command.EndsWord(s[0])
    ensures Command.IsWord(Command.Word(s))
    ensures |Command.Word(s)| < |s| ==> Command.EndsWord(s[|Command.Word(s)|])
  {
    if |s| > 1 && !Command.EndsWord(s[1]) { WordIsWord(s[1..]); }
  }

  /** The arguments from a point between words on: a newline met there ends them, one right after a word does not. */
  function Args(s: seq<Byte>): (ws: seq<seq<Byte>>)
    ensures forall i :: 0 <= i < |ws| ==> Command.IsWord(ws[i])
    decreases |s|
  {
    var t := Command.SkipSpaces(s);
    if t == [] || Command.EndsWord(t[0]) then [] else
      var w := Command.Word(t);
      WordIsWord(t);
      [w] + Args(Beyond(t, |w|))
  }

  /** The arguments of a command; its first word is the program. */
  function CommandArgs(command: seq<Byte>): seq<seq<Byte>> {
    Args(Beyond(command, |Command.Word(command)|))
  }

  function Join(ws: seq<seq<Byte>>): seq<Byte> {
    if ws == [] then [] else if |ws| == 1 then ws[0] else ws[0] + [SPACE] + Join(ws[1..])
  }

  // ---- splitting against the textbook ----

  function Collected(word: seq<Byte>): seq<seq<Byte>> { if word == [] then [] else [word] }

  /** Splitting at spaces, one character at a time, `word` being what has been collected. */
  function Fields(s: seq<Byte>, word: seq<Byte>): seq<seq<Byte>> {
    if s == [] then Collected(word)
    else if s[0] == SPACE then Collected(word) + Fields(s[1..], [])
    else Fields(s[1..], word + [s[0]])
  }

  lemma {:induction false} FieldsOfWord(w: seq<Byte>, rest: seq<Byte>, word: seq<Byte>)
    requires SPACE !in w
    ensures Fields(w + rest, word) == Fields(rest, word + w)
  {
    if w == [] {
      assert w + rest == rest && word + w == word;
    } else {
      assert (w + rest)[0] == w[0] && (w + rest)[1..] == w[1..] + rest;
      FieldsOfWord(w[1..], rest, word + [w[0]]);
      assert word + [w[0]] + w[1..] == word + w;
    }
  }

  lemma {:induction false} FieldsSkip(s: seq<Byte>)
    ensures Fields(s, []) == Fields(Command.SkipSpaces(s), [])
  {
    if s != [] && s[0] == SPACE { FieldsSkip(s[1..]); }
  }

  lemma BeyondWord(w: seq<Byte>, rest: seq<Byte>)
    ensures Beyond(w + rest, |w|) == Beyond(rest, 0)
  {
    if rest != [] { assert (w + rest)[|w| + 1..] == rest[1..]; }
  }

  /** One argument, and what is left after the separator that follows it. */
  lemma ArgsStep(s: seq<Byte>, w: seq<Byte>, rest: seq<Byte>)
    requires Command.IsWord(w) && (rest == [] || Command.EndsWord(rest[0])) && Command.SkipSpaces(s) == w + rest
    ensures Args(s) == [w] + Args(Beyond(rest, 0))
  {
    Command.WordThen(w, rest);
    BeyondWord(w, rest);
    assert (w + rest)[0] == w[0];
  }

  lemma SplitAt(s: seq<Byte>, k: nat)
    requires k <= |s|
    ensures s == s[..k] + s[k..]
  {
  }

  lemma FieldsStep(s: seq<Byte>, w: seq<Byte>, rest: seq<Byte>)
    requires w != [] && SPACE !in w && (rest == [] || rest[0] == SPACE) && Command.SkipSpaces(s) == w + rest
    ensures Fields(s, []) == [w] + Fields(Beyond(rest, 0), [])
  {
    FieldsSkip(s);
    FieldsOfWord(w, rest, []);
    assert [] + w == w;
  }

  lemma NoneInSuffix(s: seq<Byte>, k: nat)
    requires k <= |s| && NEWLINE !in s
    ensures NEWLINE !in s[k..]
  {
  }

  lemma WordHasNoSpace(w: seq<Byte>)
    requires Command.IsWord(w)
    ensures SPACE !in w
  {
  }

  lemma FirstArg(s: seq<Byte>, t: seq<Byte>)
    requires NEWLINE !in s && t == Command.SkipSpaces(s) && t != [] && t[0] != SPACE
    ensures var w, rest := Command.Word(t), t[|Command.Word(t)|..];
      && Command.IsWord(w) && SPACE !in w && t == w + rest && |t| <= |s| && NEWLINE !in t
      && (rest == [] || rest[0] == SPACE)
  {
    Command.SkipSpacesIsSuffix(s);
    Command.WordIsPrefix(t);
    NoneInSuffix(s, |s| - |t|);
    assert t[0] in t;
    WordIsWord(t);
    WordHasNoSpace(Command.Word(t));
    var n := |Command.Word(t)|;
    SplitAt(t, n);
    if n < |t| { assert t[n] in t; }
  }

  lemma {:induction false} SkipsAll(s: seq<Byte>)
    ensures var t := Command.SkipSpaces(s); t != [] ==> t[0] != SPACE
  {
    if s != [] && s[0] == SPACE { SkipsAll(s[1..]); }
  }

  /** Without newlines the arguments are the maximal runs of characters between spaces. */
  lemma {:induction false} ArgsAreFields(s: seq<Byte>)
    requires NEWLINE !in s
    ensures Args(s) == Fields(s, [])
    decreases |s|
  {
    var t := Command.SkipSpaces(s);
    FieldsSkip(s);
    SkipsAll(s);
    Command.SkipSpacesIsSuffix(s);
    if t != [] {
      assert t[0] in s;
      FirstArg(s, t);
      var w, rest := Command.Word(t), t[|Command.Word(t)|..];
      ArgsStep(s, w, rest);
      FieldsStep(s, w, rest);
      assert NEWLINE !in Beyond(rest, 0);
      ArgsAreFields(Beyond(rest, 0));
    }
  }

  lemma {:induction false} SkipBefore(s: seq<Byte>)
    ensures Command.SkipSpaces(s + [NEWLINE]) == Command.SkipSpaces(s) + [NEWLINE]
  {
    if s != [] && s[0] == SPACE {
      assert (s + [NEWLINE])[1..] == s[1..] + [NEWLINE];
      SkipBefore(s[1..]);
    }
  }

  lemma BeyondFinal(rest: seq<Byte>)
    ensures Beyond(rest + [NEWLINE], 0) == if rest == [] then [] else Beyond(rest, 0) + [NEWLINE]
    ensures NEWLINE !in rest ==> NEWLINE !in Beyond(rest, 0)
  {
  }

  /** The newline with which a command line ends changes nothing. */
  lemma {:induction false} FinalNewline(s: seq<Byte>)
    requires NEWLINE !in s
    ensures Args(s + [NEWLINE]) == Args(s)
    decreases |s|
  {
    var t := Command.SkipSpaces(s);
    SkipBefore(s);
    SkipsAll(s);
    if t == [] {
      assert t + [NEWLINE] == [NEWLINE];
    } else {
      Command.SkipSpacesIsSuffix(s);
      NoneInSuffix(s, |s| - |t|);
      assert t[0] in t;
      FirstArg(s, t);
      var w, rest := Command.Word(t), t[|Command.Word(t)|..];
      ArgsStep(s, w, rest);
      Regroup(w, rest, [NEWLINE]);
      ArgsStep(s + [NEWLINE], w, rest + [NEWLINE]);
      BeyondFinal(rest);
      if rest != [] { FinalNewline(Beyond(rest, 0)); }
    }
  }

  // ---- round trips ----

  lemma JoinParts(ws: seq<seq<Byte>>, end: seq<Byte>)
    ensures ws == [] ==> Join(ws) + end == end
    ensures |ws| == 1 ==> Join(ws) + end == ws[0] + end && ws == [ws[0]]
    ensures |ws| > 1 ==> Join(ws) + end == ws[0] + ([SPACE] + (Join(ws[1..]) + end)) && ws == [ws[0]] + ws[1..]
  {
    if |ws| > 1 {
      var more := Join(ws[1..]);
      Regroup(ws[0], [SPACE], more);
      Regroup(ws[0], [SPACE] + more, end);
      Regroup([SPACE], more, end);
    }
  }

  lemma NoSpacesToSkip(w: seq<Byte>, rest: seq<Byte>)
    requires Command.IsWord(w)
    ensures Command.SkipSpaces(w + rest) == w + rest
  {
    assert (w + rest)[0] == w[0];
  }

  lemma WordThenMore(w: seq<Byte>, rest: seq<Byte>)
    requires Command.IsWord(w)
    ensures Args(w + ([SPACE] + rest)) == [w] + Args(rest)
  {
    NoSpacesToSkip(w, [SPACE] + rest);
    ArgsStep(w + ([SPACE] + rest), w, [SPACE] + rest);
    assert ([SPACE] + rest)[1..] == rest;
  }

  lemma WordThenEnd(w: seq<Byte>, end: seq<Byte>)
    requires Command.IsWord(w) && (end == [] || end == [NEWLINE])
    ensures Args(w + end) == [w]
  {
    NoSpacesToSkip(w, end);
    ArgsStep(w + end, w, end);
    assert Beyond(end, 0) == [];
  }

  /** Splitting undoes joining: words joined by single spaces come apart into the same words. */
  lemma {:induction false} SplitJoined(ws: seq<seq<Byte>>, end: seq<Byte>)
    requires forall i :: 0 <= i < |ws| ==> Command.IsWord(ws[i])
    requires end == [] || end == [NEWLINE]
    ensures Args(Join(ws) + end) == ws
  {
    JoinParts(ws, end);
    if |ws| == 1 {
      WordThenEnd(ws[0], end);
    } else if ws != [] {
      SplitJoined(ws[1..], end);
      WordThenMore(ws[0], Join(ws[1..]) + end);
    }
  }

  /** So joining the arguments of any command at all and splitting again gives the same arguments. */
  lemma JoinSplitStable(command: seq<Byte>)
    ensures Args(Join(CommandArgs(command))) == CommandArgs(command)
  {
    assert Join(CommandArgs(command)) + [] == Join(CommandArgs(command));
    SplitJoined(CommandArgs(command), []);
  }

  lemma JoinAssoc(w: seq<Byte>, x: seq<Byte>, y: seq<Byte>)
    ensures w + [SPACE] + (x + [SPACE] + y) == (w + [SPACE] + x) + [SPACE] + y
  {
  }

  /** Joining puts one space between two lists of words, and nothing else anywhere. */
  lemma {:induction false} JoinConcat(a: seq<seq<Byte>>, b: seq<seq<Byte>>)
    requires a != [] && b != []
    ensures Join(a + b) == Join(a) + [SPACE] + Join(b)
    ensures forall w: seq<Byte> :: Join([w]) == w
  {
    assert (a + b)[1..] == a[1..] + b && (a + b)[0] == a[0];
    if |a| > 1 {
      JoinConcat(a[1..], b);
      JoinAssoc(a[0], Join(a[1..]), Join(b));
    } else {
      assert a + b == [a[0]] + b && a[1..] + b == b;
    }
  }

  lemma BehindProgram(name: seq<Byte>, more: seq<Byte>)
    requires Command.IsWord(name) && (more == [] || Command.EndsWord(more[0]))
    ensures CommandArgs(name + more) == Args(Beyond(more, 0))
  {
    Command.WordThen(name, more);
    BeyondWord(name, more);
  }

  lemma BehindSpace(rest: seq<Byte>)
    ensures Beyond([SPACE] + rest, 0) == rest
  {
  }

  /** A program's name and its arguments, written with single spaces, come apart into the same arguments. */
  lemma CommandRoundTrip(name: seq<Byte>, ws: seq<seq<Byte>>, end: seq<Byte>)
    requires Command.IsWord(name) && forall i :: 0 <= i < |ws| ==> Command.IsWord(ws[i])
    requires end == [] || end == [NEWLINE]
    ensures CommandArgs(Join([name] + ws) + end) == ws
  {
    var all := [name] + ws;
    assert all[0] == name && all[1..] == ws;
    JoinParts(all, end);
    if ws == [] {
      BehindProgram(name, end);
      assert Beyond(end, 0) == [];
    } else {
      BehindProgram(name, [SPACE] + (Join(ws) + end));
      BehindSpace(Join(ws) + end);
      SplitJoined(ws, end);
    }
  }
}
