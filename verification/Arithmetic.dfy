/** Facts about division used by several modules. */
module Arithmetic {
  lemma ModMinus(k: nat, d: nat)
    requires 1 <= d <= k
    ensures (k - d) % d == k % d
  {
    var q1: int, r1: int, q2: int, r2: int := k / d, k % d, (k - d) / d, (k - d) % d;
    var a := q1 - q2 - 1;
    assert k == q1 * d + r1 && k - d == q2 * d + r2;
    assert a * d == q1 * d - q2 * d - d;
    MultipleOf(a, d);
  }

  lemma MultipleOf(a: int, d: int)
    requires d >= 1
    ensures a >= 1 ==> a * d >= d
    ensures a <= -1 ==> a * d <= -d
  {
  }
}
