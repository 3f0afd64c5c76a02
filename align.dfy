/** Rounding an arena offset up to a power-of-two alignment (cps_align_address). */
module Align {

  /** `align` is one of 1, 2, 4, 8, ... */
  predicate IsPowerOfTwo(align: nat)
    decreases align
  {
    align == 1 || (align >= 2 && align % 2 == 0 && IsPowerOfTwo(align / 2))
  }

  /** `x & ~(align - 1)`: the bits of `x` below the single set bit of `align` are cleared.
      Clearing the lowest k bits is shifting right by one and clearing the lowest k-1 bits
      of that, then shifting back. */
  function ClearLowBits(x: nat, align: nat): nat
    requires IsPowerOfTwo(align)
    decreases align
  {
    if align == 1 then x else 2 * ClearLowBits(x / 2, align / 2)
  }

  lemma MulAtLeast(d: nat, k: int)
    requires d > 0 && k >= 1
    ensures d * k >= d
  {
  }

  lemma MulAtMost(d: nat, k: int)
    requires d > 0 && k <= -1
    ensures d * k + d <= 0
  {
  }

  /** Euclidean division is unique: a quotient and remainder in range are `x / d` and `x % d`. */
  lemma DivModUnique(x: nat, d: nat, q: int, r: int)
    requires d > 0 && x == d * q + r && 0 <= r < d
    ensures x % d == r && x / d == q
  {
    var k := x / d - q;
    assert d * (x / d) + x % d == d * q + r;
    assert d * k == r - x % d;
    if k >= 1 {
      MulAtLeast(d, k);
    } else if k <= -1 {
      MulAtMost(d, k);
    }
  }

  /** Two multiples of `align` less than `align` apart are equal. */
  lemma MultiplesInWindow(a: nat, b: nat, align: nat)
    requires align > 0 && a % align == 0 && b % align == 0
    requires a <= b < a + align
    ensures a == b
  {
    var k := b / align - a / align;
    assert a == align * (a / align) && b == align * (b / align);
    assert align * k == b - a;
    if k >= 1 {
      MulAtLeast(align, k);
    } else if k <= -1 {
      MulAtMost(align, k);
    }
  }

  /** Doubling a multiple of `half` gives a multiple of `2 * half`. */
  lemma DoubleMultiple(c: nat, half: nat)
    requires half > 0 && c % half == 0
    ensures (2 * c) % (2 * half) == 0
  {
    var q := c / half;
    assert c == half * q;
    DivModUnique(2 * c, 2 * half, q, 0);
  }

  /** Masking the low bits rounds down to a multiple of `align`, by less than `align`. */
  lemma {:induction false} ClearLowBitsRoundsDown(x: nat, align: nat)
    requires IsPowerOfTwo(align)
    ensures ClearLowBits(x, align) <= x < ClearLowBits(x, align) + align
    ensures ClearLowBits(x, align) % align == 0
    decreases align
  {
    if align != 1 {
      var half := align / 2;
      ClearLowBitsRoundsDown(x / 2, half);
      var c := ClearLowBits(x / 2, half);
      assert ClearLowBits(x, align) == 2 * c;
      DoubleMultiple(c, half);
    }
  }

  /** cps_align_address: `(addr + m) & ~m` with `m = align - 1`. The result is the
      nearest multiple of `align` at or above `addr`. */
  function AlignAddress(addr: nat, align: nat): (r: nat)
    requires IsPowerOfTwo(align)
    ensures r % align == 0
    ensures addr <= r < addr + align
    ensures addr % align == 0 ==> r == addr
  {
    var m := align - 1;
    ClearLowBitsRoundsDown(addr + m, align);
    var r := ClearLowBits(addr + m, align);
    if addr % align == 0 then
      MultiplesInWindow(addr, r, align);
      r
    else
      r
  }

  /** The aligned address is the least multiple of `align` that is at least `addr`. */
  lemma AlignAddressIsLeast(addr: nat, align: nat, m: nat)
    requires IsPowerOfTwo(align)
    requires m % align == 0 && addr <= m
    ensures AlignAddress(addr, align) <= m
  {
    var r := AlignAddress(addr, align);
    if m < r {
      MultiplesInWindow(m, r, align);
    }
  }
}
