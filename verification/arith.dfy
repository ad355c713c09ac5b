/** Facts about multiplication by a count that the chunk and block
    arithmetic needs. */
module Arith {

  lemma MulSucc(n: int, k: int)
    ensures (n + 1) * k == n * k + k
  {
  }

  lemma MulMonotone(a: int, b: int, k: nat)
    requires a <= b
    ensures a * k <= b * k
  {
    assert b * k - a * k == (b - a) * k;
  }

  lemma MulNegate(q: int, b: int)
    ensures q * -b == -(q * b)
  {
  }
}
