/**
 * Go's fixed-width unsigned integers, the conversions between them and the
 * bitwise AND used on addresses. Integers are unbounded in Dafny, so every
 * wrap-around Go performs is written out here.
 */
module Ints {

  const TWO8: int := 0x100
  const TWO16: int := 0x1_0000
  const TWO32: int := 0x1_0000_0000
  const TWO63: int := 0x8000_0000_0000_0000
  const TWO64: int := 0x1_0000_0000_0000_0000

  type uint8 = x: int | 0 <= x < TWO8
  type uint16 = x: int | 0 <= x < TWO16
  type uint32 = x: int | 0 <= x < TWO32

  /** Go's conversion uint32(x) of any integer: keep the low 32 bits. */
  function Uint32Of(x: int): uint32
  {
    x % TWO32
  }

  /** uint32(x) differs from x by a multiple of 2^32. */
  lemma Uint32OfWraps(x: int)
    ensures exists k :: x == k * TWO32 + Uint32Of(x)
  {
    assert x == (x / TWO32) * TWO32 + x % TWO32;
  }

  /** Go's 64-bit two's-complement overflow of a signed `int`. */
  function Int64Of(x: int): (r: int)
    ensures -TWO63 <= r < TWO63
  {
    (x + TWO63) % TWO64 - TWO63
  }

  /** The 64-bit value differs from x by a multiple of 2^64. */
  lemma Int64OfWraps(x: int)
    ensures exists k :: x == k * TWO64 + Int64Of(x)
  {
    assert x + TWO63 == ((x + TWO63) / TWO64) * TWO64 + (x + TWO63) % TWO64;
  }

  /** Go's `x << n` on a 64-bit signed `int`: bits shifted past bit 63 are lost. */
  function ShiftLeft64(x: int, n: nat): int
  {
    Int64Of(x * Pow2(n))
  }

  function Pow2(n: nat): (r: nat)
    ensures r >= 1
  {
    if n == 0 then 1 else 2 * Pow2(n - 1)
  }

  lemma Uint32OfShift(x: int, k: int)
    ensures Uint32Of(x + k * TWO32) == Uint32Of(x)
  {
    var q := (x + k * TWO32) / TWO32;
    var p := x / TWO32;
    assert x + k * TWO32 == q * TWO32 + Uint32Of(x + k * TWO32);
    assert x == p * TWO32 + Uint32Of(x);
    assert (q - p - k) * TWO32 == Uint32Of(x) - Uint32Of(x + k * TWO32);
  }

  /** Keeping the low 32 bits after a 64-bit overflow is the same as keeping them at once. */
  lemma Uint32OfInt64(x: int)
    ensures Uint32Of(Int64Of(x)) == Uint32Of(x)
  {
    Int64OfWraps(x);
    var k :| x == k * TWO64 + Int64Of(x);
    Uint32OfShift(Int64Of(x), k * TWO32);
  }

  /** A 32-bit sum that wraps after each step wraps the same as the exact sum. */
  lemma Uint32OfAdd(x: int, y: int)
    ensures Uint32Of(Uint32Of(x) + Uint32Of(y)) == Uint32Of(x + y)
  {
    Uint32OfWraps(x);
    Uint32OfWraps(y);
    var k :| x == k * TWO32 + Uint32Of(x);
    var j :| y == j * TWO32 + Uint32Of(y);
    Uint32OfShift(Uint32Of(x) + Uint32Of(y), k + j);
  }

  /** Bit `i` of `x`, counted from the least significant. */
  function Bit(x: nat, i: nat): (b: nat)
    ensures b < 2
  {
    if i == 0 then x % 2 else Bit(x / 2, i - 1)
  }

  /** Go's `&` on unsigned integers. */
  function BitAnd(a: nat, b: nat): (r: nat)
    ensures r <= a && r <= b
  {
    if a == 0 || b == 0 then 0
    else 2 * BitAnd(a / 2, b / 2) + (if a % 2 == 1 && b % 2 == 1 then 1 else 0)
  }

  lemma {:induction false} BitOfBitAnd(a: nat, b: nat, i: nat)
    ensures Bit(BitAnd(a, b), i) == if Bit(a, i) == 1 && Bit(b, i) == 1 then 1 else 0
  {
    if a == 0 || b == 0 {
      ZeroBits(i);
    } else if i > 0 {
      BitOfBitAnd(a / 2, b / 2, i - 1);
    }
  }

  lemma {:induction false} ZeroBits(i: nat)
    ensures Bit(0, i) == 0
  {
    if i > 0 {
      ZeroBits(i - 1);
    }
  }

  /** Two numbers below 2^n are equal if their low n bits agree. */
  lemma {:induction false} EqualByBits(a: nat, b: nat, n: nat)
    requires a < Pow2(n) && b < Pow2(n)
    requires forall i :: 0 <= i < n ==> Bit(a, i) == Bit(b, i)
    ensures a == b
  {
    if n > 0 {
      forall i | 0 <= i < n - 1
        ensures Bit(a / 2, i) == Bit(b / 2, i)
      {
        assert Bit(a, i + 1) == Bit(b, i + 1);
      }
      EqualByBits(a / 2, b / 2, n - 1);
      assert Bit(a, 0) == Bit(b, 0);
    }
  }

  lemma Pow2Of32()
    ensures Pow2(32) == TWO32
  {
    assert Pow2(8) == 0x100;
    assert Pow2(16) == 0x1_0000;
    assert Pow2(24) == 0x100_0000;
  }
}
