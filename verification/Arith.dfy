/** The machine's division, and the steps of nonlinear arithmetic that proofs need named. */
module Arith {
  /** C division truncates towards zero. */
  function TruncDiv(a: int, b: int): int
    requires b != 0
    decreases b < 0
  {
    if b < 0 then TruncDiv(-a, -b) else if a >= 0 then a / b else -(-a / b)
  }

  function Abs(x: int): nat { if x < 0 then -x else x }

  lemma MulMono(a: int, b: int, q: int)
    ensures q >= 0 && a >= b ==> a * q >= b * q
  {
  }

  lemma MulStep(a: int, b: int, q: nat)
    ensures a > b ==> a * q >= b * q + q
  {
    if a > b { MulMono(a, b + 1, q); }
  }

  lemma Distribute(a: int, b: int, q: int)
    ensures (a + b) * q == a * q + b * q
  {
  }

  /** q and r are quotient and remainder of t by n. */
  lemma Divided(t: int, n: nat, q: int, r: nat)
    requires r < n && t == q * n + r
    ensures t / n == q && t % n == r
  {
    MulStep(q, t / n, n);
    MulStep(t / n, q, n);
    assert t == t / n * n + t % n;
  }

  function Pow2(n: nat): (p: nat)
    ensures p >= 1
  {
    if n == 0 then 1 else 2 * Pow2(n - 1)
  }
}
