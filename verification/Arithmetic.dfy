/** The few facts about products and quotients of variables that the other modules need. */
module Arithmetic {

  lemma {:induction false} MulSub(a: int, b: int, k: int)
    ensures (a - b) * k == a * k - b * k
  {
  }

  lemma {:induction false} DivMod(x: int, k: int) returns (q: int, r: int)
    requires k > 0
    ensures q == x / k && r == x % k && x == q * k + r && 0 <= r < k
  {
    q, r := x / k, x % k;
  }

  lemma {:induction false} AtLeast(d: int, k: int)
    requires k > 0 && d != 0
    ensures d * k >= k || d * k <= -k
    decreases if d < 0 then -d else d
  {
    if d > 1 {
      AtLeast(d - 1, k);
      MulSub(d, 1, k);
    } else if d < -1 {
      AtLeast(d + 1, k);
      MulSub(d, -1, k);
    }
  }

  /** Division with remainder is unique. */
  lemma {:induction false} QuotientIs(x: int, k: int, q: int, r: int)
    requires k > 0 && x == q * k + r && 0 <= r < k
    ensures x / k == q && x % k == r
  {
    var q', r' := DivMod(x, k);
    MulSub(q', q, k);
    if q' != q {
      AtLeast(q' - q, k);
    }
  }
}
