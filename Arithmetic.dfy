/** Facts about Euclidean division that the clock and countdown arithmetic
    rests on. */
module Arithmetic {

  /** Quotient and remainder are determined by the division identity. */
  lemma LemmaDivModUnique(n: int, d: int, q: int, r: int)
    requires d > 0 && n == q * d + r && 0 <= r < d
    ensures n % d == r && n / d == q
  {
    var q', r' := n / d, n % d;
    assert (q - q') * d == r' - r;
    if q > q' {
      MulAtLeast(q - q', d);
    } else if q < q' {
      MulAtLeast(q' - q, d);
    }
  }

  lemma MulAtLeast(k: int, d: int)
    requires k >= 1 && d > 0
    ensures k * d >= d
  {
  }

  /** Taking the remainder by a multiple of `small` first does not change the
      remainder by `small`. */
  lemma ModNested(t: int, big: int, small: int, k: int)
    requires small > 0 && k > 0 && big == k * small
    ensures (t % big) % small == t % small
  {
    var q, r := t / big, t % big;
    var a, b := r / small, r % small;
    assert t == q * big + r;
    assert q * big == (q * k) * small;
    assert t == (q * k + a) * small + b;
    LemmaDivModUnique(t, small, q * k + a, b);
  }
}
