/** Python's `round(x, k)` on real numbers: half to even at the k-th decimal. */
module Rounding {

  function RoundHalfEven(x: real): int {
    var f := x.Floor;
    var rest := x - f as real;
    if rest < 0.5 || (rest == 0.5 && f % 2 == 0) then f else f + 1
  }

  /** `round(x, k)` for `scale` equal to ten to the `k`. */
  function RoundTo(x: real, scale: int): real
    requires scale > 0
  {
    RoundHalfEven(x * scale as real) as real / scale as real
  }

  lemma HalfEvenNear(x: real)
    ensures -0.5 <= RoundHalfEven(x) as real - x <= 0.5
  {
  }

  lemma HalfEvenMonotone(x: real, y: real)
    requires x <= y
    ensures RoundHalfEven(x) <= RoundHalfEven(y)
  {
  }

  lemma HalfEvenInteger(n: int)
    ensures RoundHalfEven(n as real) == n
  {
  }

  /** A tie goes to the even neighbour. */
  lemma HalfEvenTie(n: int)
    ensures RoundHalfEven(n as real + 0.5) % 2 == 0
    ensures RoundHalfEven(n as real + 0.5) == n || RoundHalfEven(n as real + 0.5) == n + 1
  {
    assert (n as real + 0.5).Floor == n;
  }
}
