/**
  Small facts about multiplication and division. Each holds as stated; calling one
  names the nonlinear terms a proof needs, so the solver instantiates them at the
  right place instead of searching for them.
*/
module Arith {

  lemma MulStep(a: int, b: int)
    ensures (a + 1) * b == a * b + b
  {
  }

  lemma MulMono(a: int, b: int, c: int)
    requires a <= b && 0 <= c
    ensures a * c <= b * c
  {
  }

  lemma MulNonneg(a: int, b: int)
    requires 0 <= a && 0 <= b
    ensures 0 <= a * b
  {
  }

  lemma MulAddOne(a: int, b: int)
    ensures a * (b + 1) == a * b + a
  {
  }

  lemma DivMod(p: int, d: int)
    requires 0 < d
    ensures p == (p / d) * d + p % d
    ensures 0 <= p % d < d
  {
  }
}
