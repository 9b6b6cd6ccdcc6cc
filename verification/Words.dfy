/** Machine words as ranges of integers, with the operations the program applies to them. A C++
    `int` is held as its 32-bit pattern, so a negative one is a word with the top bit set. */
module Words {
  const TWO32: int := 0x1_0000_0000

  type u8 = x: int | 0 <= x < 0x100
  type u16 = x: int | 0 <= x < 0x1_0000
  type u32 = x: int | 0 <= x < 0x1_0000_0000
  type u64 = x: int | 0 <= x < 0x1_0000_0000_0000_0000

  /** Conversion to a 32-bit word: what is above bit 31 is dropped. */
  function Wrap32(n: nat): u32 {
    n % TWO32
  }

  /** The sign bit of an `int`. */
  predicate IsNegative(v: u32) {
    v >= 0x8000_0000
  }

  /** Arithmetic right shift by seven of an `int`: vacated bits copy the sign bit. */
  function SignedShiftRight7(v: u32): u32 {
    if IsNegative(v) then v / 0x80 + 0xFE00_0000 else v / 0x80
  }

  function Pow2(n: nat): (p: nat)
    ensures p >= 1
  {
    if n == 0 then 1 else 2 * Pow2(n - 1)
  }

  lemma Pow2Values()
    ensures Pow2(0) == 1 && Pow2(7) == 0x80 && Pow2(14) == 0x4000 && Pow2(21) == 0x20_0000
    ensures Pow2(28) == 0x1000_0000 && Pow2(32) == TWO32 && Pow2(35) == 0x8_0000_0000
  {
    assert Pow2(3) == 8;
    assert Pow2(7) == 0x80;
    assert Pow2(10) == 0x400;
    assert Pow2(14) == 0x4000;
    assert Pow2(17) == 0x2_0000;
    assert Pow2(21) == 0x20_0000;
    assert Pow2(24) == 0x100_0000;
    assert Pow2(28) == 0x1000_0000;
    assert Pow2(32) == 0x1_0000_0000;
    assert Pow2(35) == 0x8_0000_0000;
  }

  lemma DivDiv(v: nat, m: nat, p: nat, d: nat)
    requires m > 0 && p > 0 && d == m * p && d > 0
    ensures v / m / p == v / d
  {
    Divided(v, m);
    Divided(v / m, p);
    Rejoined(v, m, p, d, v / m, v % m, v / m / p, v / m % p);
    QuotientIs(v, d, v / m / p, v / m % p * m + v % m);
  }

  lemma Divided(v: nat, m: nat)
    requires m > 0
    ensures v == v / m * m + v % m && v % m < m
  {
  }

  lemma Rejoined(v: nat, m: nat, p: nat, d: nat, w: nat, low: nat, q: nat, r: nat)
    requires v == w * m + low && low < m && w == q * p + r && r < p && d == m * p
    ensures v == q * d + (r * m + low) && r * m + low < d
  {
    MultipleBelow(r, p, m);
    assert (q * p + r) * m == q * (m * p) + r * m;
  }

  lemma QuotientIs(v: nat, d: nat, q: nat, r: nat)
    requires v == q * d + r && r < d
    ensures v / d == q
  {
    var k := v / d;
    assert v == k * d + v % d;
    MultipleBelow(k, q, d);
    MultipleBelow(q, k, d);
  }

  lemma {:induction false} MultipleBelow(k: nat, q: nat, d: nat)
    ensures k < q ==> k * d + d <= q * d
    decreases q
  {
    if k < q {
      MultipleBelow(k, q - 1, d);
      OneMoreTimes(q - 1, d);
    }
  }

  lemma OneMoreTimes(k: nat, d: nat)
    ensures (k + 1) * d == k * d + d
  {
  }

  /** `<<` on a 32-bit word. */
  function ShiftLeft(v: u32, n: nat): u32 {
    Wrap32(v * Pow2(n))
  }

  /** `|` on words, bit by bit from the lowest. */
  function BitOr(a: nat, b: nat): nat {
    if a == 0 then b
    else if b == 0 then a
    else 2 * BitOr(a / 2, b / 2) + (if a % 2 == 1 || b % 2 == 1 then 1 else 0)
  }

  lemma {:induction false} BitOrBound(a: nat, b: nat, n: nat)
    requires a < Pow2(n) && b < Pow2(n)
    ensures BitOr(a, b) < Pow2(n)
  {
    if a != 0 && b != 0 {
      BitOrBound(a / 2, b / 2, n - 1);
    }
  }

  lemma BitOrIsWord(a: u32, b: u32)
    ensures BitOr(a, b) < TWO32
  {
    Pow2Values();
    BitOrBound(a, b, 32);
  }

  lemma {:induction false} BitOrSelf(a: nat)
    ensures BitOr(a, a) == a
  {
    if a != 0 {
      BitOrSelf(a / 2);
    }
  }

  lemma BitOrZero(a: nat, b: nat)
    ensures a == 0 ==> BitOr(a, b) == b
    ensures b == 0 ==> BitOr(a, b) == a
  {
  }

  lemma BitOrHalves(a: nat, b: nat)
    ensures BitOr(a, b) / 2 == BitOr(a / 2, b / 2)
    ensures BitOr(a, b) % 2 == if a % 2 == 1 then 1 else b % 2
  {
  }

  lemma {:induction false} BitOrAssociates(a: nat, b: nat, c: nat)
    ensures BitOr(BitOr(a, b), c) == BitOr(a, BitOr(b, c))
  {
    if a != 0 && b != 0 && c != 0 {
      BitOrAssociates(a / 2, b / 2, c / 2);
      BitOrHalves(a, b);
      BitOrHalves(b, c);
      BitOrHalves(BitOr(a, b), c);
      BitOrHalves(a, BitOr(b, c));
      hide BitOr;
    }
  }

  /** Disjoint bit ranges: below 2^n and at or above it, `|` is addition. */
  lemma {:induction false} BitOrDisjoint(low: nat, high: nat, n: nat)
    requires low < Pow2(n)
    ensures BitOr(low, high * Pow2(n)) == low + high * Pow2(n)
  {
    hide BitOr;
    BitOrZero(low, high * Pow2(n));
    if n > 0 && low != 0 && high != 0 {
      var half := high * Pow2(n - 1);
      assert high * Pow2(n) == 2 * half;
      BitOrDisjoint(low / 2, high, n - 1);
      BitOrHalves(low, 2 * half);
    }
  }
}
