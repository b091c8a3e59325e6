/** `round(x, 2)` on exact reals: the nearest multiple of 1/100, ties going to
    the even multiple, which is the tie rule of Python's `round`. */
module Rounding {

  /** The nearest integer to `x`; an exact tie goes to the even neighbour. */
  function RoundHalfEven(x: real): (n: int)
    ensures x - 0.5 <= n as real <= x + 0.5
    ensures x == x.Floor as real ==> n == x.Floor
    ensures x - x.Floor as real == 0.5 ==> n % 2 == 0
  {
    var f := x.Floor;
    var d := x - f as real;
    if d < 0.5 then f
    else if d > 0.5 then f + 1
    else if f % 2 == 0 then f
    else f + 1
  }

  /** `round(r, 2)`. */
  function Round2(r: real): (q: real)
    ensures -0.005 <= q - r <= 0.005
    ensures (q * 100.0).Floor as real == q * 100.0
  {
    RoundHalfEven(r * 100.0) as real / 100.0
  }

  /** Rounding an already rounded value changes nothing. */
  lemma Round2Idempotent(r: real)
    ensures Round2(Round2(r)) == Round2(r)
  {
    var n := RoundHalfEven(r * 100.0);
    assert Round2(r) * 100.0 == n as real;
    assert RoundHalfEven(n as real) == n;
  }

  /** Rounding never leaves an interval with integer end points. */
  lemma Round2StaysInBounds(r: real, lo: int, hi: int)
    requires lo as real <= r <= hi as real
    ensures lo as real <= Round2(r) <= hi as real
  {
    var x := r * 100.0;
    var n := RoundHalfEven(x);
    var f := x.Floor;
    assert lo * 100 <= f;
    assert n == f || (n == f + 1 && f as real < x);
    assert n <= hi * 100;
  }
}
