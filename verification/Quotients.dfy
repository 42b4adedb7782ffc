/** Quotient and remainder pinned down by their defining equation. */
module Quotients {

  lemma Multiple(b: int, d: int)
    requires b > 0
    ensures d >= 1 ==> b * d >= b
    ensures d <= -1 ==> b * d <= -b
  {
  }

  lemma Quot(a: int, b: int, q: int, r: int)
    requires b > 0 && a == b * q + r && 0 <= r < b
    ensures a / b == q && a % b == r
  {
    var q', r' := a / b, a % b;
    assert a == b * q' + r';
    assert b * (q' - q) == b * q' - b * q;
    Multiple(b, q' - q);
  }
}
