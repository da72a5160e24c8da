/** Facts about Python's `%` with a positive modulus, which agrees with
    Dafny's Euclidean `%` there: the shifts of every cipher in the model
    are undone through them. */
module Modular {
  lemma {:induction false} MulAtLeast(a: int, n: int)
    requires a >= 1 && n > 0
    ensures a * n >= n
  {
    var b := a - 1;
    assert a * n == b * n + n;
    assert b * n >= 0;
  }

  /** The remainder is the one `r` in `0 .. n - 1` with `x = q * n + r`. */
  lemma {:induction false} ModUnique(x: int, q: int, r: int, n: int)
    requires n > 0 && 0 <= r < n && x == q * n + r
    ensures x % n == r
  {
    var q0, r0 := x / n, x % n;
    assert x == q0 * n + r0;
    assert (q - q0) * n == r0 - r;
    if q > q0 {
      MulAtLeast(q - q0, n);
    } else if q < q0 {
      MulAtLeast(q0 - q, n);
    }
  }

  /** Moving forward by `d` and back by `d` returns to the start. */
  lemma {:induction false} ModUndo(q: int, d: int, n: int)
    requires 0 <= q < n
    ensures ((q + d) % n - d) % n == q
  {
    var k := (q + d) / n;
    assert (q + d) % n - d == (-k) * n + q;
    ModUnique((q + d) % n - d, -k, q, n);
  }

  /** Taking back the shift `m - pp` (mod `n`) from `m` lands on `pp`. */
  lemma {:induction false} ModSub(m: int, pp: int, d: int, n: int)
    requires 0 <= pp < n && d == (m - pp) % n
    ensures (m - d) % n == pp
  {
    var k := (m - pp) / n;
    assert m - pp == k * n + d;
    assert m - d == k * n + pp;
    ModUnique(m - d, k, pp, n);
  }

  lemma {:induction false} ModShift(s: int, d: int, pp: int, n: int)
    requires 0 <= pp < n && 0 <= d
    requires (s - d) % n == pp
    ensures (s - pp) % n == d % n
  {
    var k := (s - d) / n;
    assert s - d == k * n + pp;
    assert d == (d / n) * n + d % n;
    assert s - pp == (k + d / n) * n + d % n;
    ModUnique(s - pp, k + d / n, d % n, n);
  }

  lemma {:induction false} ModAtMost(d: int, n: int)
    requires 0 <= d && 0 < n
    ensures d % n <= d
  {
    assert d == (d / n) * n + d % n;
    assert d / n >= 0;
    assert (d / n) * n >= 0;
  }
}
