/**
  Remainders modulo the alphabet length 26. Dafny's `%` is Euclidean and
  Python's floors; for the positive divisor 26 both give a result in
  0..25, so these facts hold of the Python expressions as well.
 */
module Modular {
  /** `((x % 26) - k) % 26 == (x - k) % 26` for every integer `k`. */
  lemma ModSub(x: int, k: int)
    ensures ((x % 26) - k) % 26 == (x - k) % 26
  {
    var q := x / 26;
    assert x == 26 * q + x % 26;
    assert (x - k) == 26 * q + ((x % 26) - k);
    ModShift((x % 26) - k, q);
  }

  /** Adding a multiple of 26 leaves the remainder alone. */
  lemma {:induction false} ModShift(y: int, q: int)
    ensures (26 * q + y) % 26 == y % 26
    decreases if q < 0 then -q else q
  {
    if q > 0 {
      ModShift(y, q - 1);
      assert 26 * q + y == (26 * (q - 1) + y) + 26;
    } else if q < 0 {
      ModShift(y, q + 1);
      assert 26 * q + y == (26 * (q + 1) + y) - 26;
    }
  }

  /** `(a + b) % 26` depends only on the remainders of `a` and `b`. */
  lemma ModSum(a: int, b: int)
    ensures (a + b) % 26 == (a % 26 + b % 26) % 26
  {
    var qa, qb := a / 26, b / 26;
    assert a + b == 26 * (qa + qb) + (a % 26 + b % 26);
    ModShift(a % 26 + b % 26, qa + qb);
  }
}
