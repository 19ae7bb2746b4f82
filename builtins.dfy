/** Python values and built-ins that the rest of the model shares: `None`-or-value,
    return-or-raise, `min`, and `round` applied to a true division of integers. */
module Builtins {

  /** A Python `Optional[T]`: `None` or a value. */
  datatype Option<+T> = None | Some(value: T)

  /** What a Python call does: return a value or raise an exception. */
  datatype Outcome<+T, +E> = Ok(value: T) | Raise(error: E)

  function Abs(x: int): nat {
    if x < 0 then -x else x
  }

  /** Python's `min(a, b)` on integers. */
  function Min(a: int, b: int): (r: int)
    ensures r <= a && r <= b
    ensures r == a || r == b
  {
    if a <= b then a else b
  }

  function Max(a: int, b: int): (r: int)
    ensures r >= a && r >= b
    ensures r == a || r == b
  {
    if a >= b then a else b
  }

  /** `round(n / d)` for a positive `d`: Python 3 rounds the exact quotient to the
      nearest integer and a tie to the even neighbour. */
  function RoundHalfEven(n: int, d: int): (r: int)
    requires d > 0
    ensures 2 * Abs(n - r * d) <= d
    ensures 2 * Abs(n - r * d) == d ==> r % 2 == 0
  {
    var q, m := n / d, n % d;
    assert n - q * d == m;
    assert n - (q + 1) * d == m - d;
    if 2 * m < d then q
    else if 2 * m > d || q % 2 == 1 then q + 1
    else q
  }

  /** `r` is `round(n / d)` for a positive `d`: within half a divisor of the exact
      quotient, and even when it lies exactly halfway. */
  predicate IsRounding(n: int, d: int, r: int)
    requires d > 0
  {
    2 * Abs(n - r * d) <= d && (2 * Abs(n - r * d) == d ==> r % 2 == 0)
  }

  lemma Distribute(r: int, s: int, d: int)
    ensures r * d - s * d == (r - s) * d
  {
  }

  lemma ScaleBound(k: int, d: int)
    requires d > 0
    ensures k >= 2 ==> k * d >= 2 * d
    ensures k <= -2 ==> k * d <= -2 * d
  {
  }

  /** The two clauses of RoundHalfEven's contract pin its result down: any integer
      within half a divisor of `n`, and even on a tie, is that result. */
  lemma {:induction false} RoundHalfEvenUnique(n: int, d: int, r: int)
    requires d > 0
    requires 2 * Abs(n - r * d) <= d
    requires 2 * Abs(n - r * d) == d ==> r % 2 == 0
    ensures r == RoundHalfEven(n, d)
  {
    var s := RoundHalfEven(n, d);
    var a, b := n - r * d, n - s * d;
    Distribute(s, r, d);
    var k := s - r;
    var kd := k * d;
    assert a - b == kd;
    ScaleBound(k, d);
    assert -d <= a - b <= d;
    assert -1 <= k <= 1;
  }

  /** `round(n / d)` for any non-zero `d` (`n / d` is Python's true division). */
  function RoundDiv(n: int, d: int): (r: int)
    requires d != 0
    ensures 2 * Abs(n - r * d) <= Abs(d)
    ensures 2 * Abs(n - r * d) == Abs(d) ==> r % 2 == 0
  {
    if d > 0 then RoundHalfEven(n, d)
    else
      var r := RoundHalfEven(-n, -d);
      assert -n - r * -d == -(n - r * d);
      r
  }
}
