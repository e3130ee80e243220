/** Facts about Dafny's Euclidean `%` with a divisor the solver does not know. */
module ModArith {

  /** Euclidean division leaves a single remainder in [0, n). */
  lemma ModUnique(a: int, n: int, q: int, r: int)
    requires n > 0 && 0 <= r < n && a == q * n + r
    ensures a % n == r
  {
    var q', r' := a / n, a % n;
    assert (q - q') * n == r' - r;
    if q > q' {
      MulAtLeast(q - q', n);
    } else if q < q' {
      MulAtLeast(q' - q, n);
    }
  }

  lemma MulAtLeast(d: int, n: int)
    requires n > 0 && d >= 1
    ensures d * n >= n
  {
  }

  /** A value already in [0, n) is its own remainder. */
  lemma ModSmall(x: int, n: int)
    requires 0 <= x < n
    ensures x % n == x
  {
    ModUnique(x, n, 0, x);
  }

  /** Adding the modulus does not change the remainder. */
  lemma ModShift(x: int, n: int)
    requires n > 0
    ensures (x + n) % n == x % n
  {
    ModUnique(x + n, n, x / n + 1, x % n);
  }
}
