/**
  The round-robin choice of the timer handler (pit.c), for any number of terminals.
  `flags[t]` says that terminal t has a shell.
*/
module Scheduler {
  /** The terminal d places after i on a ring of n. */
  function Ahead(n: nat, i: nat, d: nat): nat
    requires i < n && d <= n
  {
    if i + d < n then i + d else i + d - n
  }

  /** How far ahead of i terminal j is, from 1 to n; a terminal is a whole turn ahead of itself. */
  function Distance(n: nat, i: nat, j: nat): (d: nat)
    requires i < n && j < n
    ensures 1 <= d <= n && Ahead(n, i, d) == j
    ensures forall e :: 1 <= e <= n && Ahead(n, i, e) == j ==> e == d
  {
    if i < j then j - i else j + n - i
  }

  /** The least distance, from d on, at which a flagged terminal stands; n when the turn is complete. */
  function GapFrom(flags: seq<bool>, i: nat, d: nat): (g: nat)
    requires i < |flags| && 1 <= d <= |flags|
    ensures d <= g <= |flags|
    ensures g < |flags| ==> flags[Ahead(|flags|, i, g)]
    ensures forall e :: d <= e < g ==> !flags[Ahead(|flags|, i, e)]
    decreases |flags| - d
  {
    if d == |flags| || flags[Ahead(|flags|, i, d)] then d else GapFrom(flags, i, d + 1)
  }

  /** The terminal that runs after i. */
  function Next(flags: seq<bool>, i: nat): (t: nat)
    requires i < |flags|
    ensures t < |flags|
    ensures flags[i] ==> flags[t]
  {
    Ahead(|flags|, i, GapFrom(flags, i, 1))
  }

  /** The terminal that runs k ticks after i did. */
  function Turn(flags: seq<bool>, i: nat, k: nat): (t: nat)
    requires i < |flags|
    ensures t < |flags|
  {
    if k == 0 then i else Next(flags, Turn(flags, i, k - 1))
  }

  /** Next never jumps over a flagged terminal: it comes closer to it, or reaches it. */
  lemma NextApproaches(flags: seq<bool>, i: nat, u: nat)
    requires i < |flags| && u < |flags| && flags[u]
    ensures Next(flags, i) == u || Distance(|flags|, Next(flags, i), u) < Distance(|flags|, i, u)
  {
    assert GapFrom(flags, i, 1) <= Distance(|flags|, i, u);
  }

  /** As NextApproaches, k ticks on: until u's turn comes, its distance has shrunk by at least k. */
  lemma {:induction false} TurnsApproach(flags: seq<bool>, i: nat, u: nat, k: nat)
    requires i < |flags| && u < |flags| && flags[u]
    requires forall j :: 0 < j <= k ==> Turn(flags, i, j) != u
    ensures Distance(|flags|, Turn(flags, i, k), u) + k <= Distance(|flags|, i, u)
  {
    if k > 0 {
      TurnsApproach(flags, i, u, k - 1);
      NextApproaches(flags, Turn(flags, i, k - 1), u);
    }
  }

  /**
    Waiting is bounded: with the flags unchanged, a flagged terminal u runs within |flags| ticks, in
    fact within its distance. k is the first tick at which it does.
  */
  lemma {:induction false} RunsWithin(flags: seq<bool>, i: nat, u: nat) returns (k: nat)
    requires i < |flags| && u < |flags| && flags[u]
    ensures 1 <= k <= Distance(|flags|, i, u) <= |flags|
    ensures Turn(flags, i, k) == u
    ensures forall j :: 0 < j < k ==> Turn(flags, i, j) != u
  {
    k := 1;
    while Turn(flags, i, k) != u
      invariant k >= 1
      invariant forall j :: 0 < j < k ==> Turn(flags, i, j) != u
      decreases Distance(|flags|, i, u) - k
    {
      TurnsApproach(flags, i, u, k);
      k := k + 1;
    }
    TurnsApproach(flags, i, u, k - 1);
  }

  /** Between two turns of i the terminals that run stand at ever greater distances from it. */
  lemma {:induction false} Outward(flags: seq<bool>, i: nat, j: nat, k: nat)
    requires i < |flags| && flags[i] && 0 < j < k
    requires forall l :: 0 < l <= k ==> Turn(flags, i, l) != i
    ensures Distance(|flags|, i, Turn(flags, i, j)) < Distance(|flags|, i, Turn(flags, i, k))
  {
    if j < k - 1 { Outward(flags, i, j, k - 1); }
    NextApproaches(flags, Turn(flags, i, k - 1), i);
  }

  /**
    Fairness: between one turn of a flagged terminal i and its next one, m ticks later, every other
    flagged terminal u runs exactly once.
  */
  lemma {:induction false} ExactlyOneTurn(flags: seq<bool>, i: nat, m: nat, u: nat) returns (k: nat)
    requires i < |flags| && flags[i] && u < |flags| && flags[u] && u != i
    requires m > 0 && Turn(flags, i, m) == i
    requires forall j :: 0 < j < m ==> Turn(flags, i, j) != i
    ensures 0 < k < m && Turn(flags, i, k) == u
    ensures forall j :: 0 < j < m && Turn(flags, i, j) == u ==> j == k
  {
    k := RunsWithin(flags, i, u);
    if m < k {
      TurnsApproach(flags, i, u, m);
      assert false;
    }
    forall j | 0 < j < m && Turn(flags, i, j) == u ensures j == k {
      if k < j { Outward(flags, i, k, j); }
    }
  }
}
