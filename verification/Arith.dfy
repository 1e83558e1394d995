/** Facts about division that several modules need. */
module Arith {

  lemma {:induction false} Apart(n: int, q: int, q': int)
    requires n > 0 && q < q'
    ensures n * q + n <= n * q'
    decreases q' - q
  {
    if q + 1 < q' {
      Apart(n, q, q' - 1);
      assert n * q' == n * (q' - 1) + n;
    }
  }

  /** The remainder is the only r below n with h = n * q + r. */
  lemma ModIs(h: int, n: int, q: int, r: int)
    requires n > 0 && 0 <= r < n && h == n * q + r
    ensures h % n == r && h / n == q
  {
    var q', r' := h / n, h % n;
    assert h == n * q' + r';
    if q > q' {
      Apart(n, q', q);
    } else if q < q' {
      Apart(n, q, q');
    }
  }
}
