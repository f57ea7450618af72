/** Fixed-width unsigned arithmetic of the ESP32 target, where both
    `unsigned long` and `unsigned` are 32 bits wide. C performs `+` and `-`
    on these operands modulo 2^32; the model writes that wrap-around out. */
module Wrap32 {

  const Modulus: int := 0x1_0000_0000

  /** A value of a 32-bit unsigned C variable. */
  type u32 = x: int | 0 <= x < Modulus

  /** `a - b` on 32-bit unsigned operands: the ordinary difference when it
      is not negative, otherwise the difference plus 2^32 (a borrow). */
  function Sub(a: u32, b: u32): (r: u32)
    ensures b <= a ==> r == a - b
    ensures a < b ==> r == a - b + Modulus
  {
    (a - b) % Modulus
  }

  /** `a + b` on 32-bit unsigned operands: the ordinary sum when it fits,
      otherwise the sum less 2^32 (a carry out). */
  function Add(a: u32, b: u32): (r: u32)
    ensures a + b < Modulus ==> r == a + b
    ensures Modulus <= a + b ==> r == a + b - Modulus
  {
    (a + b) % Modulus
  }

  /** Subtraction undoes addition, carry or not. */
  lemma AddThenSub(a: u32, d: u32)
    ensures Sub(Add(a, d), a) == d
  {
  }

  /** Addition undoes subtraction, borrow or not. */
  lemma SubThenAdd(a: u32, b: u32)
    ensures Add(b, Sub(a, b)) == a
  {
  }

  /** A free-running counter shows the true time `t` as `t % Modulus`. If
      less than 2^32 ticks separate two true times, the wrapping difference
      of the two readings is the true elapsed time, even when the counter
      wrapped in between. */
  lemma ElapsedAcrossWrap(t0: nat, d: nat)
    requires d < Modulus
    ensures Sub((t0 + d) % Modulus, t0 % Modulus) == d
  {
  }
}
