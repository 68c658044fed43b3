/** Facts about integer division and multiplication that the geometry and the channel
    arithmetic rely on. */
module Arith {

  lemma MulMonotone(a: nat, b: nat, w: nat)
    requires a <= b
    ensures a * w <= b * w
  {
  }

  /** Quotient and remainder are determined by any decomposition `k == q * w + r` with `0 <= r < w`. */
  lemma {:induction false} DivModUnique(k: int, w: int, q: int, r: int)
    requires w > 0 && 0 <= r < w && k == q * w + r
    ensures k / w == q && k % w == r
  {
    var q', r' := k / w, k % w;
    assert k == q' * w + r';
    assert (q - q') * w == r' - r;
    if q > q' {
      assert (q - q') * w >= w by { MulMonotone(1, q - q', w); }
    } else if q < q' {
      assert (q' - q) * w >= w by { MulMonotone(1, q' - q, w); }
    }
  }
}
