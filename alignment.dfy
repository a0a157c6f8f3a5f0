/** Machine-word arithmetic used by the runtime's type validator: the pointer
    size of the target, size_t wrap-around, the low-bit alignment mask and
    rounding a size up to a multiple of the pointer size. */
module Alignment {

  /** sizeof(TADDR): 4 bytes on a 32-bit target, 8 bytes on a 64-bit one. */
  type PtrSize = p: nat | p == 4 || p == 8 witness 8

  /** 2 to the number of bits of a size_t, which is as wide as a pointer. */
  function WordModulus(p: PtrSize): (m: nat)
    ensures m % p == 0 && m > 3 * p
  {
    if p == 4 then 0x1_0000_0000 else 0x1_0000_0000_0000_0000
  }

  /** Conversion of an unsigned value to size_t: arithmetic modulo the word size. */
  function ToSizeT(n: nat, p: PtrSize): (r: nat)
    ensures r < WordModulus(p)
    ensures n < WordModulus(p) ==> r == n
  {
    n % WordModulus(p)
  }

  /** 2 to the power n. */
  function Pow2(n: nat): nat
  {
    if n == 0 then 1 else 2 * Pow2(n - 1)
  }

  /** Bitwise AND of two unsigned values, bit by bit from the least significant;
      the result never exceeds either operand. */
  function BitAnd(a: nat, b: nat): (r: nat)
    ensures r <= a && r <= b
    decreases a
  {
    if a == 0 || b == 0 then 0
    else 2 * BitAnd(a / 2, b / 2) + (if a % 2 == 1 && b % 2 == 1 then 1 else 0)
  }

  /** Division by a positive divisor has exactly one quotient and remainder. */
  lemma {:induction false} DivModUnique(n: int, a: int, q: int, r: int)
    requires a > 0 && 0 <= r < a && n == q * a + r
    ensures n / a == q && n % a == r
  {
    var q', r' := n / a, n % a;
    assert n == q' * a + r';
    if q > q' {
      assert (q - q') * a >= a by { MulAtLeast(q - q', a); }
      assert false;
    } else if q < q' {
      assert (q' - q) * a >= a by { MulAtLeast(q' - q, a); }
      assert false;
    }
  }

  lemma {:induction false} MulAtLeast(k: int, a: int)
    requires k >= 1 && a > 0
    ensures k * a >= a
  {
  }

  /** The alignment test `addr & (sizeof(TADDR) - 1)` is nonzero exactly when
      the address is not a multiple of the pointer size. */
  lemma PointerMaskIsRemainder(addr: nat, p: PtrSize)
    ensures BitAnd(addr, p - 1) == addr % p
  {
    var a1, a2, a3 := addr / 2, addr / 4, addr / 8;
    assert a1 / 2 == a2 && a2 / 2 == a3;
    if p == 4 {
      assert BitAnd(a1, 1) == a1 % 2;
      assert BitAnd(addr, 3) == 2 * (a1 % 2) + addr % 2;
    } else {
      assert BitAnd(a2, 1) == a2 % 2;
      assert BitAnd(a1, 3) == 2 * (a2 % 2) + a1 % 2;
      assert BitAnd(addr, 7) == 4 * (a2 % 2) + 2 * (a1 % 2) + addr % 2;
    }
  }

  /** ALIGN_UP(x, a): the value x rounded up to the next multiple of a. */
  function AlignUp(x: nat, a: nat): (r: nat)
    requires a > 0
    ensures r % a == 0
    ensures x <= r < x + a
  {
    var q := (x + a - 1) / a;
    var s := (x + a - 1) % a;
    assert x + a - 1 == q * a + s;
    DivModUnique(q * a, a, q, 0);
    q * a
  }

  /** AlignUp gives the least multiple of a that is not below x. */
  lemma {:induction false} AlignUpIsLeast(x: nat, a: nat, m: nat)
    requires a > 0 && m % a == 0 && x <= m
    ensures AlignUp(x, a) <= m
  {
    var r := AlignUp(x, a);
    var q, k := r / a, m / a;
    assert r == q * a && m == k * a;
    if q > k {
      MulAtLeast(q - k, a);
      assert false;
    }
  }

  /** A value is a fixed point of AlignUp exactly when it is already aligned. */
  lemma AlignUpFixedIffAligned(x: nat, a: nat)
    requires a > 0
    ensures AlignUp(x, a) == x <==> x % a == 0
  {
    if x % a == 0 {
      AlignUpIsLeast(x, a, x);
    }
  }

  /** Rounding up twice is rounding up once. */
  lemma AlignUpIdempotent(x: nat, a: nat)
    requires a > 0
    ensures AlignUp(AlignUp(x, a), a) == AlignUp(x, a)
  {
    AlignUpFixedIffAligned(AlignUp(x, a), a);
  }

  /** Computed in size_t, rounding a size_t value up to the pointer size either
      stays in range, or wraps to exactly zero; the wrap happens precisely for
      an unaligned value within one pointer of the top of the word. */
  lemma AlignUpInSizeT(x: nat, p: PtrSize)
    requires x < WordModulus(p)
    ensures AlignUp(x, p) <= WordModulus(p)
    ensures AlignUp(x, p) < WordModulus(p) ==> ToSizeT(AlignUp(x, p), p) == AlignUp(x, p)
    ensures AlignUp(x, p) == WordModulus(p) ==> ToSizeT(AlignUp(x, p), p) == 0
    ensures AlignUp(x, p) == WordModulus(p) <==> x % p != 0 && x > WordModulus(p) - p
  {
    var m := WordModulus(p);
    AlignUpIsLeast(x, p, m);
    AlignUpFixedIffAligned(x, p);
  }

  lemma {:induction false} Pow2Add(m: nat, n: nat)
    ensures Pow2(m + n) == Pow2(m) * Pow2(n)
  {
    if m != 0 {
      Pow2Add(m - 1, n);
    }
  }

  lemma Pow2Byte()
    ensures Pow2(2) == 4 && Pow2(3) == 8 && Pow2(8) == 256
  {
    assert Pow2(2) == 4;
    assert Pow2(4) == 16;
    assert Pow2(6) == 64;
  }

  lemma Pow2Words()
    ensures Pow2(32) == 0x1_0000_0000 && Pow2(64) == 0x1_0000_0000_0000_0000
  {
    Pow2Byte();
    Pow2Add(8, 8);
    assert Pow2(16) == 0x1_0000;
    Pow2Add(16, 16);
    assert Pow2(32) == 0x1_0000_0000;
    Pow2Add(32, 32);
  }

  /** The word modulus is 2 to the number of bits of a pointer. */
  lemma WordModulusIsPow2(p: PtrSize)
    ensures WordModulus(p) == Pow2(8 * p)
    ensures p == Pow2(if p == 4 then 2 else 3)
  {
    Pow2Byte();
    Pow2Words();
  }

  /** The value of the k low bits of y, built bit by bit. */
  function LowBits(y: nat, k: nat): (r: nat)
    ensures r <= y
  {
    if k == 0 then 0 else 2 * LowBits(y / 2, k - 1) + y % 2
  }

  /** For the pointer sizes, the low bits are the remainder modulo the pointer size. */
  lemma LowBitsIsRemainder(y: nat, p: PtrSize)
    ensures LowBits(y, if p == 4 then 2 else 3) == y % p
  {
    var y1, y2 := y / 2, y / 4;
    assert y1 / 2 == y2;
    assert LowBits(y1, 1) == y1 % 2;
    if p == 8 {
      assert LowBits(y2, 1) == y2 % 2;
      assert LowBits(y1, 2) == 2 * (y2 % 2) + y1 % 2;
    }
  }

  /** The mask with ones in bits k to n-1 and zeros elsewhere. */
  function HighMask(n: nat, k: nat): (r: nat)
  {
    if n == 0 then 0
    else if k == 0 then 2 * HighMask(n - 1, 0) + 1
    else 2 * HighMask(n - 1, k - 1)
  }

  /** That mask is 2^n - 2^k. */
  lemma {:induction false} HighMaskValue(n: nat, k: nat)
    requires k <= n
    ensures HighMask(n, k) == Pow2(n) - Pow2(k)
  {
    if n != 0 {
      HighMaskValue(n - 1, if k == 0 then 0 else k - 1);
    }
  }

  /** Masking an n-bit value with ones in bits k to n-1 clears its k low bits. */
  lemma {:induction false} ClearLowBits(y: nat, n: nat, k: nat)
    requires y < Pow2(n)
    ensures BitAnd(y, HighMask(n, k)) == y - LowBits(y, k)
  {
    if n != 0 && y != 0 {
      ClearLowBits(y / 2, n - 1, if k == 0 then 0 else k - 1);
    }
  }

  /** Rounding the size_t sum x + p - 1 down to a multiple of p gives the
      size_t value of AlignUp(x, p). */
  lemma RoundDownIsAlignUp(x: nat, p: PtrSize)
    requires x < WordModulus(p)
    ensures ToSizeT(x + p - 1, p) - ToSizeT(x + p - 1, p) % p == ToSizeT(AlignUp(x, p), p)
  {
    var m := WordModulus(p);
    var y := ToSizeT(x + p - 1, p);
    AlignUpInSizeT(x, p);
    if x + p - 1 < m {
      assert y == x + p - 1;
    } else {
      assert y == x + p - 1 - m;
    }
  }

  /** ALIGN_UP computed the way C does it on a size_t: add alignment - 1 with
      wrap-around, then clear the low bits. This gives the same value as
      rounding up and wrapping the result into a size_t. */
  lemma AlignUpIsMaskedSum(x: nat, p: PtrSize)
    requires x < WordModulus(p)
    ensures ToSizeT(AlignUp(x, p), p) == BitAnd(ToSizeT(x + p - 1, p), WordModulus(p) - p)
  {
    var y := ToSizeT(x + p - 1, p);
    var k := if p == 4 then 2 else 3;
    WordModulusIsPow2(p);
    HighMaskValue(8 * p, k);
    ClearLowBits(y, 8 * p, k);
    LowBitsIsRemainder(y, p);
    RoundDownIsAlignUp(x, p);
  }
}
