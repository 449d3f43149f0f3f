/**
  Listing the directory while others do (filesystem.c): all processes share one cursor, and every
  dir_open puts it back to the first entry.
*/
module SharedCursor {
  import opened Common
  import opened Bytes
  import opened FileSystem

  datatype Call = Open(who: nat) | Read(who: nat, count: nat)

  function After(img: Image, cursor: nat, c: Call): nat {
    match c
    case Open(_) => 0
    case Read(_, _) => Cursor(img, cursor)
  }

  /** What the reads of one of them return in a run of calls, the cursor standing at `cursor` before it. */
  function Heard(img: Image, cursor: nat, cs: seq<Call>, who: nat): seq<seq<Byte>>
    decreases |cs|
  {
    if cs == [] then [] else
      var rest := Heard(img, After(img, cursor, cs[0]), cs[1..], who);
      if cs[0].Read? && cs[0].who == who then [Listed(img, cursor, cs[0].count)] + rest else rest
  }

  /** The sizes of its reads. */
  function Sizes(cs: seq<Call>, who: nat): seq<nat> {
    if cs == [] then [] else if cs[0].Read? && cs[0].who == who then [cs[0].count] + Sizes(cs[1..], who)
      else Sizes(cs[1..], who)
  }

  /**
    At each of its reads the cursor stands where its own reads alone would have put it: `own` is that
    place. No other condition on the others' calls is made; an open and as many reads undo each other.
  */
  predicate InTurn(img: Image, cursor: nat, own: nat, cs: seq<Call>, who: nat)
    decreases |cs|
  {
    if cs == [] then true else
      var next := After(img, cursor, cs[0]);
      if cs[0].Read? && cs[0].who == who then cursor == own && InTurn(img, next, Cursor(img, own), cs[1..], who)
      else InTurn(img, next, own, cs[1..], who)
  }

  /** Entry names tell the entries apart, and reads are long enough for them. */
  predicate Distinguished(img: Image, cs: seq<Call>) {
    && WellFormed(img)
    && (forall i :: 0 <= i < |img.dentries| ==> EntryName(img, i) != [])
    && (forall i, j :: 0 <= i < j < |img.dentries| ==> EntryName(img, i) != EntryName(img, j))
    && forall k :: 0 <= k < |cs| && cs[k].Read? ==> cs[k].count >= FILENAME_LEN
  }

  lemma ListedApart(img: Image, cs: seq<Call>, i: nat, j: nat, n: nat)
    requires Distinguished(img, cs) && i <= |img.dentries| && j <= |img.dentries| && n >= FILENAME_LEN
    ensures Listed(img, i, n) == Listed(img, j, n) <==> i == j
  {
    ListedWhole(img, i, n);
    ListedWhole(img, j, n);
  }

  lemma SameHead<T>(a: T, s: seq<T>, b: T, t: seq<T>)
    ensures [a] + s == [b] + t <==> a == b && s == t
  {
    if [a] + s == [b] + t {
      assert ([a] + s)[1..] == s && ([b] + t)[1..] == t && ([a] + s)[0] == a;
    }
  }

  /**
    One of them hears just what it would hear alone, each name once and in order, if and only if the
    others leave the cursor where it belongs at each of its reads.
  */
  lemma {:induction false} HearsListing(img: Image, cursor: nat, own: nat, cs: seq<Call>, who: nat)
    requires Distinguished(img, cs) && cursor <= |img.dentries| && own <= |img.dentries|
    ensures Heard(img, cursor, cs, who) == Listing(img, own, Sizes(cs, who)) <==> InTurn(img, cursor, own, cs, who)
    decreases |cs|
  {
    if cs != [] {
      var next, rest := After(img, cursor, cs[0]), cs[1..];
      if cs[0].Read? && cs[0].who == who {
        ListedApart(img, cs, cursor, own, cs[0].count);
        HearsListing(img, next, Cursor(img, own), rest, who);
        SameHead(Listed(img, cursor, cs[0].count), Heard(img, next, rest, who),
                 Listed(img, own, cs[0].count), Listing(img, Cursor(img, own), Sizes(rest, who)));
        assert ([cs[0].count] + Sizes(rest, who))[1..] == Sizes(rest, who);
      } else {
        HearsListing(img, next, own, rest, who);
      }
    }
  }

  /** Between two reads of one of them another opens the directory: the first name is heard twice. */
  lemma OpenRepeats(img: Image, who: nat, other: nat, n: nat)
    requires WellFormed(img) && img.dentries != [] && n >= FILENAME_LEN
    ensures Heard(img, 0, [Read(who, n), Open(other), Read(who, n)], who) == [EntryName(img, 0), EntryName(img, 0)]
  {
    ListedWhole(img, 0, n);
    var cs := [Read(who, n), Open(other), Read(who, n)];
    var last := [Read(who, n)];
    assert last[1..] == [] && Heard(img, 0, last, who) == [EntryName(img, 0)];
    assert cs[1..] == [Open(other), Read(who, n)] && cs[1..][1..] == last;
    assert Heard(img, 1, cs[1..], who) == Heard(img, 0, last, who);
  }
}
