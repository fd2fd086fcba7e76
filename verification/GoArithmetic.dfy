/** Go's integer division, and the one fact about products both users of it need. */
module GoArithmetic {
  /** Truncates toward zero. */
  function Quotient(a: int, b: int): int
    requires b > 0
  {
    if a >= 0 then a / b else -(-a / b)
  }

  lemma ScaleMonotone(i: int, j: int, step: int)
    requires i <= j && 0 <= step
    ensures i * step <= j * step
  {
    assert (j - i) * step >= 0;
  }
}
