/** C++ `<<` and `|` on non-negative `int` values, defined arithmetically so
    that the frame fields can be stated as plain numbers. Both operands of
    every use here stay far below 2^31, so `int` never overflows. */
module Bits {

  function Pow2(k: nat): (p: nat)
    ensures p >= 1
  {
    if k == 0 then 1 else 2 * Pow2(k - 1)
  }

  /** `x << k` for a non-negative `x` whose result is representable,
      shifting one bit at a time: it multiplies by 2^k. */
  function ShiftLeft(x: nat, k: nat): (r: nat)
    ensures r == x * Pow2(k)
    decreases k
  {
    if k == 0 then x
    else
      var r := ShiftLeft(2 * x, k - 1);
      assert 2 * x * Pow2(k - 1) == x * Pow2(k);
      r
  }

  /** Bitwise or, bit by bit from the least significant end. The result
      has every bit of either operand, so it is at least each of them, and
      a bit set in both counts once, so it is at most their sum. */
  function BitOr(a: nat, b: nat): (r: nat)
    ensures a <= r && b <= r && r <= a + b
    decreases a + b
  {
    if a == 0 && b == 0 then 0
    else 2 * BitOr(a / 2, b / 2) + (if a % 2 == 1 || b % 2 == 1 then 1 else 0)
  }

  lemma {:induction false} BitOrZero(a: nat)
    ensures BitOr(a, 0) == a
    decreases a
  {
    if a != 0 {
      BitOrZero(a / 2);
    }
  }

  /** Or-ing a value below 2^k into a value shifted left by k adds it. */
  lemma {:induction false} BitOrDisjoint(a: nat, b: nat, k: nat)
    requires b < Pow2(k)
    ensures BitOr(ShiftLeft(a, k), b) == ShiftLeft(a, k) + b
  {
    if k == 0 {
      BitOrZero(a);
    } else {
      assert ShiftLeft(a, k) == 2 * ShiftLeft(a, k - 1);
      BitOrDisjoint(a, b / 2, k - 1);
    }
  }
}
