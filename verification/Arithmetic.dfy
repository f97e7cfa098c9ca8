/** Fixed-width and saturating arithmetic, and the few facts about products the proofs lean on. */
module Arithmetic {
  import opened Bytes

  const TWO_32: nat := 0x1_0000_0000
  const U32_MAX: nat := 0xFFFF_FFFF

  function Min(a: nat, b: nat): nat {
    if a <= b then a else b
  }

  function SatAdd(a: u64, b: u64): u64 {
    if a + b > U64_MAX then U64_MAX else a + b
  }

  function SatSub(a: u64, b: u64): u64 {
    if a < b then 0 else a - b
  }

  function Pow2(n: nat): (p: nat)
    ensures p > 0
  {
    if n == 0 then 1 else 2 * Pow2(n - 1)
  }

  lemma {:induction false} MulAtMost(a: int, b: int, c: nat)
    requires a <= b
    ensures a * c <= b * c
  {
    assert b * c == a * c + (b - a) * c;
  }

  lemma {:induction false} Quotient(n: nat, d: nat)
    requires d > 0
    ensures n / d * d <= n < (n / d + 1) * d
  {
    assert n == n / d * d + n % d;
  }
}
