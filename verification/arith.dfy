/** The few facts about multiplication that the index arithmetic needs
    (`i // N`, `i % N`, `i + k*N`), stated once so that proofs can cite them. */
module Arith {
  /** Adding one to a factor adds the other factor once. */
  lemma StepShift(k: int, step: int)
    ensures (k + 1) * step == k * step + step
  {
  }

  /** Multiplying by a non-negative factor keeps the order. */
  lemma MulLe(a: int, b: int, c: int)
    requires a <= b && c >= 0
    ensures a * c <= b * c
  {
    assert b * c - a * c == (b - a) * c;
  }

  /** Multiplication distributes over a sum of factors. */
  lemma MulAdd(a: int, b: int, c: int)
    ensures (a + b) * c == a * c + b * c
  {
  }
}
