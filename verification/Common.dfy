/** What several modules need and none of them owns: options, sizes, and counting. */
module Common {
  const TERMINAL_NUM := 3
  const KEYBOARD_BUF_SIZE := 128
  const UINT32 := 0x1_0000_0000

  datatype Option<+T> = None | Some(value: T)

  predicate NoRepeats<T(==)>(s: seq<T>) {
    forall i, j :: 0 <= i < j < |s| ==> s[i] != s[j]
  }

  function Members<T>(s: seq<T>): set<T> { set x | x in s }

  lemma {:induction false} MembersCount<T>(s: seq<T>)
    requires NoRepeats(s)
    ensures |Members(s)| == |s|
  {
    if s != [] {
      var rest := s[1..];
      MembersCount(rest);
      assert s == [s[0]] + rest;
      assert s[0] !in Members(rest);
      assert Members(s) == Members(rest) + {s[0]};
    }
  }

  lemma SubsetCount<T>(a: set<T>, b: set<T>)
    requires a <= b
    ensures |a| <= |b| && (|a| == |b| ==> a == b)
  {
    assert b == a + (b - a) && |b| == |a| + |b - a|;
  }

  lemma UpdateTwice<T>(s: seq<T>, i: nat, a: T, b: T)
    requires i < |s|
    ensures s[i := a][i := b] == s[i := b]
  {
  }

  lemma Regroup<T>(a: seq<T>, b: seq<T>, c: seq<T>)
    ensures (a + b) + c == a + (b + c)
  {
  }
}
