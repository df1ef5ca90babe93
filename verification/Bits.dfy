/** Fixed-width integer arithmetic: wrap-around, sign interpretation, shifts and bitwise operators. */
module Bits {
  import opened Words

  function Pow2(k: nat): (r: nat)
    ensures r > 0
  {
    if k == 0 then 1 else 2 * Pow2(k - 1)
  }

  /** `wrapping_*`: the representative of i modulo 2^64. */
  function Wrap(i: int): u64 {
    i % TWO64
  }

  /** `as i64`. */
  function Signed(a: u64): int {
    if a >= 0x8000_0000_0000_0000 then a - TWO64 else a
  }

  /** `as u32`. */
  function Low32(a: int): (r: nat)
    ensures r < TWO32
  {
    a % TWO32
  }

  /** `as i32`. */
  function Signed32(a: int): int {
    var w := Low32(a);
    if w >= 0x8000_0000 then w - TWO32 else w
  }

  /** `as i32 as u64`: sign-extends the low word. */
  function Sext32(a: int): u64 {
    Wrap(Signed32(a))
  }

  function BitAnd(a: nat, b: nat): (r: nat)
    ensures r <= a && r <= b
  {
    if a == 0 || b == 0 then 0
    else (if a % 2 == 1 && b % 2 == 1 then 1 else 0) + 2 * BitAnd(a / 2, b / 2)
  }

  function BitOr(a: nat, b: nat): nat
    decreases a + b
  {
    if a == 0 && b == 0 then 0
    else (if a % 2 == 1 || b % 2 == 1 then 1 else 0) + 2 * BitOr(a / 2, b / 2)
  }

  function BitXor(a: nat, b: nat): nat
    decreases a + b
  {
    if a == 0 && b == 0 then 0
    else (if a % 2 != b % 2 then 1 else 0) + 2 * BitXor(a / 2, b / 2)
  }

  lemma {:induction false} BitwiseBound(a: nat, b: nat, k: nat)
    requires a < Pow2(k) && b < Pow2(k)
    ensures BitOr(a, b) < Pow2(k) && BitXor(a, b) < Pow2(k)
    decreases k
  {
    if k > 0 {
      BitwiseBound(a / 2, b / 2, k - 1);
    }
  }

  lemma Pow2Of64()
    ensures Pow2(64) == TWO64
  {
    assert Pow2(0) == 1;
    Pow2Plus8(0);
    Pow2Plus8(8);
    Pow2Plus8(16);
    Pow2Plus8(24);
    Pow2Plus8(32);
    Pow2Plus8(40);
    Pow2Plus8(48);
    Pow2Plus8(56);
  }

  lemma Pow2Plus8(k: nat)
    ensures Pow2(k + 8) == 256 * Pow2(k)
  {
    assert Pow2(k + 2) == 4 * Pow2(k);
    assert Pow2(k + 4) == 4 * Pow2(k + 2);
    assert Pow2(k + 6) == 4 * Pow2(k + 4);
  }

  function Or64(a: u64, b: u64): u64 {
    Pow2Of64();
    BitwiseBound(a, b, 64);
    BitOr(a, b)
  }

  function Xor64(a: u64, b: u64): u64 {
    Pow2Of64();
    BitwiseBound(a, b, 64);
    BitXor(a, b)
  }

  /** `!a`. */
  function Not64(a: u64): u64 {
    TWO64 - 1 - a
  }

  function Shl(a: u64, s: nat): u64 {
    Wrap(a * Pow2(s))
  }

  function Shr(a: u64, s: nat): u64 {
    DivideShrinks(a, Pow2(s));
    a / Pow2(s)
  }

  lemma DivideShrinks(a: nat, d: nat)
    requires d > 0
    ensures 0 <= a / d <= a
  {
    var q := a / d;
    assert a == d * q + a % d;
    MulGrows(d, q);
  }

  lemma MulGrows(d: int, q: int)
    requires d >= 1 && q >= 0
    ensures d * q >= q
  {
  }

  /** `(a as i64 >> s) as u64`; dividing by a positive power of two rounds down, as the shift does. */
  function Sra(a: u64, s: nat): u64 {
    Wrap(Signed(a) / Pow2(s))
  }

  /** Division truncating towards zero (`checked_div` on a nonzero divisor). */
  function TruncDiv(a: int, b: int): int
    requires b != 0
  {
    if a >= 0 then (if b > 0 then a / b else -(a / -b))
    else (if b > 0 then -(-a / b) else -a / -b)
  }

  /** The remainder belonging to TruncDiv (`checked_rem` on a nonzero divisor). */
  function TruncRem(a: int, b: int): int
    requires b != 0
  {
    a - b * TruncDiv(a, b)
  }
}
