/** Powers of two; multiplication and order.
 */
module Arith {

  function Pow2(n: nat): (p: nat)
    ensures p > 0
  {
    if n == 0 then 1 else 2 * Pow2(n - 1)
  }

  // How a product moves with one factor.
  lemma MulOrder(d: int, a: int, b: int)
    requires d > 0
    ensures a <= b ==> d * a <= d * b
    ensures a > b ==> d * a >= d * b + d
  {
    if a <= b {
      assert d * (b - a) >= 0;
    } else {
      assert d * (a - b - 1) >= 0;
    }
  }
}
