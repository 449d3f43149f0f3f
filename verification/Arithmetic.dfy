/** Division by a variable, one small fact at a time. */
module Arithmetic {
  lemma MultipleIsFar(m: int, d: int)
    requires m > 0
    ensures d >= 1 ==> m * d >= m
    ensures d <= -1 ==> m * d + m <= 0
  {
    if d >= 1 { assert m * d == m * (d - 1) + m; }
    if d <= -1 { assert m * d == m * (d + 1) - m; }
  }

  /** Quotient and remainder are the only pair of their kind. */
  lemma DivisionOf(m: nat, q: nat, r: nat)
    requires m > 0 && r < m
    ensures (m * q + r) / m == q && (m * q + r) % m == r
  {
    var t := m * q + r;
    var d := t / m - q;
    assert t == m * (t / m) + t % m;
    assert m * d == r - t % m;
    MultipleIsFar(m, d);
  }

  lemma DivisionShrinks(v: nat, m: nat)
    requires m >= 2 && v > 0
    ensures v / m < v && v == m * (v / m) + v % m
    ensures v >= m ==> v / m > 0
  {
    assert v == m * (v / m) + v % m;
    MultipleIsFar(v / m + 1, m - 1);
  }

  lemma QuotientBelow(v: nat, m: nat, p: nat)
    requires m > 0 && v < m * p
    ensures v / m < p
  {
    assert v == m * (v / m) + v % m;
    assert m * (v / m - p) == m * (v / m) - m * p;
    MultipleIsFar(m, v / m - p);
  }
}
