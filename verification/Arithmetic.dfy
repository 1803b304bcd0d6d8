/** Division of natural numbers. */
module Arithmetic {
  type Positive = x: int | x > 0 witness 1

  lemma DivMod(d: Positive, x: nat)
    ensures x == x / d * d + x % d && 0 <= x % d < d && x / d >= 0
  {
  }

  lemma {:induction false} MulMono(d: Positive, a: int, b: int)
    requires a <= b
    ensures a * d <= b * d
  {
    assert (b - a) * d >= 0;
  }

  lemma DivMono(d: Positive, a: nat, b: nat)
    requires a <= b
    ensures a / d <= b / d
  {
    DivMod(d, a);
    DivMod(d, b);
    if b / d < a / d {
      MulMono(d, b / d + 1, a / d);
    }
  }

  lemma DivShrinks(d: Positive, x: nat)
    requires 1 < d && 0 < x
    ensures x / d < x
  {
    DivMod(d, x);
    if x / d >= x {
      MulMono(d, x, x / d);
    }
  }
}
