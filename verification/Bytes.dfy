/** Bytes and fixed-width little-endian integers. */
module Bytes {

  type byte = x: int | 0 <= x < 256

  const TWO_63: int := 0x8000_0000_0000_0000
  const TWO_64: int := 0x1_0000_0000_0000_0000
  const U64_MAX: nat := TWO_64 - 1

  /** A byte slice: Rust never hands out one of more than `isize::MAX` bytes. */
  type Slice = s: seq<byte> | |s| < TWO_63

  /** An unsigned 64-bit value. */
  type u64 = x: int | 0 <= x < TWO_64

  /** A signed 64-bit value. */
  type i64 = x: int | -TWO_63 <= x < TWO_63

  function Pow256(k: nat): nat {
    if k == 0 then 1 else 256 * Pow256(k - 1)
  }

  /** The value of little-endian bytes. */
  function FromLe(b: seq<byte>): nat {
    if b == [] then 0 else b[0] + 256 * FromLe(b[1..])
  }

  /** The `k` low-order bytes of `n`, least significant first. */
  function ToLe(n: nat, k: nat): (b: seq<byte>)
    ensures |b| == k
  {
    if k == 0 then [] else [n % 256] + ToLe(n / 256, k - 1)
  }

  lemma {:induction false} Pow256Eight()
    ensures Pow256(8) == TWO_64
  {
    assert Pow256(2) == 65536;
    assert Pow256(4) == 65536 * 65536;
    assert Pow256(6) == 65536 * 65536 * 65536;
  }

  lemma {:induction false} FromLeBound(b: seq<byte>)
    ensures FromLe(b) < Pow256(|b|)
  {
    if b != [] {
      FromLeBound(b[1..]);
    }
  }

  /** Writing a value that fits and reading it back. */
  lemma {:induction false} LeRoundTrip(n: nat, k: nat)
    requires n < Pow256(k)
    ensures FromLe(ToLe(n, k)) == n
  {
    if k > 0 {
      LeRoundTrip(n / 256, k - 1);
      assert ToLe(n, k)[1..] == ToLe(n / 256, k - 1);
    }
  }

  /** Reading bytes and writing them back. */
  lemma {:induction false} LeRoundTripBytes(b: seq<byte>)
    ensures ToLe(FromLe(b), |b|) == b
  {
    if b != [] {
      LeRoundTripBytes(b[1..]);
      assert FromLe(b) % 256 == b[0] && FromLe(b) / 256 == FromLe(b[1..]);
    }
  }

  /** `u64::from_le_bytes` and `u64::to_le_bytes`. */
  function ReadU64(b: seq<byte>): (n: u64)
    requires |b| == 8
  {
    FromLeBound(b);
    Pow256Eight();
    FromLe(b)
  }

  function WriteU64(n: u64): (b: seq<byte>)
    ensures |b| == 8 && ReadU64(b) == n
  {
    Pow256Eight();
    LeRoundTrip(n, 8);
    ToLe(n, 8)
  }

  /** `i64::from_le_bytes`: two's complement. */
  function ReadI64(b: seq<byte>): (n: i64)
    requires |b| == 8
  {
    var u := ReadU64(b);
    if u < TWO_63 then u else u - TWO_64
  }

  function WriteI64(n: i64): (b: seq<byte>)
    ensures |b| == 8 && ReadI64(b) == n
  {
    WriteU64(if n < 0 then n + TWO_64 else n)
  }

  /** The eight bytes of a number, the least significant first. */
  lemma {:induction false} LeastFirst(c: seq<byte>)
    requires |c| == 8
    ensures ReadU64(c) == (c[0] as int) + 256 * ((c[1] as int) + 256 * ((c[2] as int) + 256 * ((c[3] as int) + 256 * (
                            (c[4] as int) + 256 * ((c[5] as int) + 256 * ((c[6] as int) + 256 * (c[7] as int)))))))
  {
    assert FromLe(c[8..]) == 0;
    assert c[7..][1..] == c[8..] && c[6..][1..] == c[7..] && c[5..][1..] == c[6..] && c[4..][1..] == c[5..];
    assert c[3..][1..] == c[4..] && c[2..][1..] == c[3..] && c[1..][1..] == c[2..];
    assert FromLe(c[7..]) == c[7];
    assert FromLe(c[6..]) == c[6] + 256 * FromLe(c[7..]);
    assert FromLe(c[5..]) == c[5] + 256 * FromLe(c[6..]);
    assert FromLe(c[4..]) == c[4] + 256 * FromLe(c[5..]);
    assert FromLe(c[3..]) == c[3] + 256 * FromLe(c[4..]);
    assert FromLe(c[2..]) == c[2] + 256 * FromLe(c[3..]);
    assert FromLe(c[1..]) == c[1] + 256 * FromLe(c[2..]);
    assert FromLe(c) == c[0] + 256 * FromLe(c[1..]);
  }

  lemma {:induction false} RereadU64(b: seq<byte>)
    requires |b| == 8
    ensures WriteU64(ReadU64(b)) == b
  {
    LeRoundTripBytes(b);
  }

  lemma {:induction false} RereadI64(b: seq<byte>)
    requires |b| == 8
    ensures WriteI64(ReadI64(b)) == b
  {
    hide ReadU64, WriteU64;
    RereadU64(b);
  }

  function WrappingAdd(a: byte, b: byte): byte {
    (a + b) % 256
  }

  function WrappingSub(a: byte, b: byte): byte {
    (a - b) % 256
  }

  lemma {:induction false} AddUndoesSub(t: byte, r: byte)
    ensures WrappingAdd(r, WrappingSub(t, r)) == t
  {
  }
}
