/**
  Rounding to alignments (os-std/math.hh), in unbounded integers with 32-bit
  wrap-around written out where the code computes in `u32`.
 */
module Alignment {
  const U32 := 0x1_0000_0000
  const MAX_ALIGN := 0x8000_0000

  function Pow2(n: nat): nat { if n == 0 then 1 else 2 * Pow2(n - 1) }

  /** `bit_count` */
  function BitCount(x: nat): nat { if x == 0 then 0 else x % 2 + BitCount(x / 2) }

  /** The number of binary digits of x; `count_leading_0s` of a u32 is 32 minus this. */
  function BitLength(x: nat): nat { if x == 0 then 0 else 1 + BitLength(x / 2) }

  function CountLeading0s(x: nat): int
    requires x < U32
  {
    32 - BitLength(x)
  }

  function Max(x: int, y: int): int { if x >= y then x else y }

  /** `align_up`, without wrap-around. */
  function AlignUp(x: nat, y: nat): nat {
    if y == 0 then x else if x % y != 0 then x + (y - x % y) else x
  }

  /** The alignment `Heap::alloc` works with: at least that of a node, rounded up to a power of two. */
  function RoundAlign(align: nat): nat
    requires align <= MAX_ALIGN
  {
    var a := Max(align, 4);
    if BitCount(a) != 1 then
      RoundAlignShift(align);
      Pow2(31) / Pow2(CountLeading0s(a) - 1)
    else a
  }

  lemma {:induction false} BitLengthBounds(x: nat)
    requires x > 0
    ensures BitLength(x) > 0 && Pow2(BitLength(x) - 1) <= x < Pow2(BitLength(x))
  {
    if x > 1 {
      BitLengthBounds(x / 2);
    }
  }

  lemma {:induction false} Pow2Monotonic(m: nat, n: nat)
    requires m <= n
    ensures Pow2(m) <= Pow2(n)
  {
    if m < n { Pow2Monotonic(m, n - 1); }
  }

  lemma {:induction false} Pow2Add(m: nat, n: nat)
    ensures Pow2(m + n) == Pow2(m) * Pow2(n)
  {
    if m > 0 { Pow2Add(m - 1, n); }
  }

  lemma {:induction false} BitCountPositive(x: nat)
    requires x > 0
    ensures BitCount(x) > 0
  {
    if x > 1 { BitCountPositive(x / 2); }
  }

  /** Exactly the powers of two have one bit set. */
  lemma {:induction false} SingleBit(x: nat)
    requires x > 0
    ensures BitCount(x) == 1 <==> x == Pow2(BitLength(x) - 1)
  {
    BitLengthBounds(x);
    if x > 1 {
      BitCountPositive(x / 2);
      BitLengthBounds(x / 2);
      SingleBit(x / 2);
    }
  }

  lemma Pow2Of31()
    ensures Pow2(31) == 0x8000_0000 && Pow2(32) == U32
  {
    assert Pow2(8) == 256;
    Pow2Add(8, 8);
    Pow2Add(16, 8);
    assert Pow2(7) == 128;
    Pow2Add(24, 7);
  }

  /** The shift in `RoundAlign` is by a valid amount. */
  lemma RoundAlignShift(align: nat)
    requires align <= MAX_ALIGN && BitCount(Max(align, 4)) != 1
    ensures var a := Max(align, 4);
      a < U32 && 0 < CountLeading0s(a) <= 32 && Pow2(CountLeading0s(a) - 1) > 0
      && Pow2(31) / Pow2(CountLeading0s(a) - 1) == Pow2(BitLength(a))
      && Pow2(BitLength(a) - 1) < a < Pow2(BitLength(a))
  {
    var a := Max(align, 4);
    var n := BitLength(a);
    Pow2Of31();
    BitLengthBounds(a);
    SingleBit(a);
    if n > 31 { Pow2Monotonic(31, n - 1); }
    Pow2Quotient(n);
  }

  lemma Pow2Quotient(n: nat)
    requires n <= 31
    ensures Pow2(31 - n) > 0 && Pow2(31) / Pow2(31 - n) == Pow2(n)
  {
    Pow2Add(n, 31 - n);
    Pow2Monotonic(0, 31 - n);
    DivUnique(Pow2(31), Pow2(n), 0, Pow2(31 - n));
  }

  lemma {:induction false} MulMonotonic(p: int, q: int, d: nat)
    requires p <= q
    ensures p * d <= q * d
  {
    assert (q - p) * d >= 0;
    assert (q - p) * d == q * d - p * d;
  }

  /** Quotient and remainder are unique. */
  lemma DivUnique(x: int, q: int, r: int, d: nat)
    requires 0 <= r < d && x == q * d + r
    ensures x / d == q && x % d == r
  {
    var p := x / d;
    assert x == p * d + x % d;
    if p < q { MulMonotonic(p + 1, q, d); assert false; }
    if p > q { MulMonotonic(q + 1, p, d); assert false; }
  }

  /** The rounded alignment is the least power of two that is at least 4 and at least the requested one. */
  lemma RoundAlignIsLeast(align: nat)
    requires align <= MAX_ALIGN
    ensures exists k :: 2 <= k <= 31 && RoundAlign(align) == Pow2(k)
    ensures align <= RoundAlign(align)
    ensures forall k: nat :: Max(align, 4) <= Pow2(k) ==> RoundAlign(align) <= Pow2(k)
  {
    var a := Max(align, 4);
    var n := BitLength(a);
    Pow2Of31();
    BitLengthBounds(a);
    SingleBit(a);
    if BitCount(a) == 1 {
      if n - 1 > 31 { Pow2Monotonic(32, n - 1); }
      assert Pow2(0) == 1 && Pow2(1) == 2;
    } else {
      RoundAlignShift(align);
      assert Pow2(0) == 1 && Pow2(1) == 2;
      forall k: nat | a <= Pow2(k) ensures Pow2(n) <= Pow2(k) {
        if k < n { Pow2Monotonic(k, n - 1); assert false; }
        Pow2Monotonic(n, k);
      }
    }
  }

  lemma {:induction false} Pow2DividesPow2(m: nat, n: nat)
    requires m <= n
    ensures Pow2(m) > 0 && Pow2(n) % Pow2(m) == 0
  {
    Pow2Monotonic(0, m);
    Pow2Add(n - m, m);
    DivUnique(Pow2(n), Pow2(n - m), 0, Pow2(m));
  }

  lemma AlignUpBounds(x: nat, y: nat)
    requires y > 0
    ensures AlignUp(x, y) % y == 0 && x <= AlignUp(x, y) < x + y
  {
    var q, r := x / y, x % y;
    assert x == q * y + r;
    if r != 0 {
      assert AlignUp(x, y) == (q + 1) * y;
      DivUnique(AlignUp(x, y), q + 1, 0, y);
    }
  }

  /** Rounded alignments are multiples of 4, and above 0. */
  lemma RoundAlignWord(align: nat)
    requires align <= MAX_ALIGN
    ensures RoundAlign(align) > 0 && RoundAlign(align) % 4 == 0
  {
    RoundAlignIsLeast(align);
    var k :| 2 <= k <= 31 && RoundAlign(align) == Pow2(k);
    Pow2DividesPow2(2, k);
    assert Pow2(2) == 4;
    Pow2Monotonic(0, k);
  }
}
