/** Fixed-width integers, bytes, bit tests and little-endian fields shared by the other modules.
    Bit operations on bytes are written arithmetically: bit k of b is `b / 2^k % 2`. */
module Bytes {

  const TWO32: int := 0x1_0000_0000
  const TWO64: int := 0x1_0000_0000_0000_0000

  type byte = x: int | 0 <= x < 256
  type uint32 = x: int | 0 <= x < 0x1_0000_0000
  type uint64 = x: int | 0 <= x < 0x1_0000_0000_0000_0000
  type bytestring = seq<byte>

  datatype Option<+T> = None | Some(value: T)

  function Min(a: nat, b: nat): (m: nat) { if a <= b then a else b }

  function Max(a: nat, b: nat): (m: nat) { if a >= b then a else b }

  lemma AtLeast(a: int, b: int)
    requires a > 0 && b >= 1
    ensures a * b >= a
  {}

  /** Unsigned 64-bit difference, as the clock comparisons compute it. */
  function Elapsed(now: uint64, then_: uint64): (d: uint64)
  {
    if now >= then_ then now - then_ else now - then_ + TWO64
  }

  /** Unsigned 32-bit increment. */
  function Inc32(x: uint32): (y: uint32) { if x == TWO32 - 1 then 0 else x + 1 }

  /** b & (1 << k) != 0 */
  predicate Bit(b: nat, k: nat)
    decreases k, b
  {
    if k == 0 then b % 2 == 1 else Bit(b / 2, k - 1)
  }

  /** b | (1 << k) */
  function SetBit(b: nat, k: nat): (r: nat)
    ensures Bit(r, k)
    decreases k, b
  {
    if k == 0 then b / 2 * 2 + 1 else 2 * SetBit(b / 2, k - 1) + b % 2
  }

  /** b & ~(1 << k) */
  function ClearBit(b: nat, k: nat): (r: nat)
    ensures r <= b && !Bit(r, k)
    decreases k, b
  {
    if k == 0 then b / 2 * 2 else 2 * ClearBit(b / 2, k - 1) + b % 2
  }

  ghost function Pow2(n: nat): (p: nat)
    ensures p > 0
  {
    if n == 0 then 1 else 2 * Pow2(n - 1)
  }

  /** Setting a bit below the width keeps the width. */
  lemma {:induction false} SetBitWidth(b: nat, k: nat, n: nat)
    requires b < Pow2(n) && k < n
    ensures SetBit(b, k) < Pow2(n)
  {
    if k > 0 { SetBitWidth(b / 2, k - 1, n - 1); }
  }

  lemma SetBitByte(b: byte, k: nat)
    requires k < 8
    ensures SetBit(b, k) < 256
  {
    assert Pow2(4) == 16;
    assert Pow2(8) == 256;
    SetBitWidth(b, k, 8);
  }

  /** Setting bit k is what makes bit k set, and touches no other bit. */
  lemma {:induction false} BitOfSetBit(b: nat, k: nat, j: nat)
    ensures Bit(SetBit(b, k), j) <==> j == k || Bit(b, j)
  {
    if k > 0 && j > 0 { BitOfSetBit(b / 2, k - 1, j - 1); }
  }

  lemma {:induction false} ClearIdle(b: nat, k: nat)
    requires !Bit(b, k)
    ensures ClearBit(b, k) == b
  {
    if k > 0 { ClearIdle(b / 2, k - 1); }
  }

  lemma {:induction false} ClearUndoesSet(b: nat, k: nat)
    requires !Bit(b, k)
    ensures ClearBit(SetBit(b, k), k) == b
  {
    if k > 0 {
      ClearUndoesSet(b / 2, k - 1);
      var half := SetBit(b / 2, k - 1);
      assert SetBit(b, k) / 2 == half && SetBit(b, k) % 2 == b % 2;
    }
  }

  /** append_le<uint32_t> */
  function Le32(x: uint32): (s: bytestring)
    ensures |s| == 4
  {
    [x % 256, x / 0x100 % 256, x / 0x1_0000 % 256, x / 0x100_0000]
  }

  /** memcpy of four bytes into a uint32_t on a little-endian host. */
  function FromLe32(s: bytestring): (x: uint32)
    requires |s| == 4
  {
    var a: int, b: int, c: int, d: int := s[0], s[1], s[2], s[3];
    a + 0x100 * b + 0x1_0000 * c + 0x100_0000 * d
  }

  lemma Le32RoundTrip(x: uint32)
    ensures FromLe32(Le32(x)) == x
  {
    var a, b, c := x / 0x100, x / 0x1_0000, x / 0x100_0000;
    assert x == 0x100 * a + x % 256 && a == 0x100 * b + a % 256 && b == 0x100 * c + b % 256;
  }
}
