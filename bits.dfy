/**
 * Unsigned machine words as natural numbers.
 *
 * A mask is a `nat` below 2^w; bit `i` of it is the i-th binary digit. The
 * bitwise operations the backends use (complement within a word, AND,
 * count-trailing-zeros, packing one bit per lane) are defined here digit by
 * digit, and each comes with a lemma saying what it does to every bit.
 */
module Bits {

  const Uint32Limit: nat := 0x1_0000_0000
  const Uint64Limit: nat := 0x1_0000_0000_0000_0000

  /** std::uint32_t */
  type Uint32 = x: nat | x < Uint32Limit
  /** std::uint64_t */
  type Uint64 = x: nat | x < Uint64Limit

  function Pow2(n: nat): (r: nat)
    ensures r >= 1
  {
    if n == 0 then 1 else 2 * Pow2(n - 1)
  }

  lemma {:induction false} Pow2Add(a: nat, b: nat)
    ensures Pow2(a + b) == Pow2(a) * Pow2(b)
  {
    if a > 0 {
      Pow2Add(a - 1, b);
    }
  }

  lemma {:induction false} Pow2Monotone(a: nat, b: nat)
    requires a <= b
    ensures Pow2(a) <= Pow2(b)
  {
    if a < b {
      Pow2Monotone(a, b - 1);
    }
  }

  /** The widths the backends use: 16-bit group masks, 32- and 64-bit words. */
  lemma Pow2Widths()
    ensures Pow2(16) == 0x1_0000
    ensures Pow2(32) == Uint32Limit
    ensures Pow2(64) == Uint64Limit
  {
    assert Pow2(4) == 16;
    Pow2Add(4, 4);
    Pow2Add(8, 8);
    Pow2Add(16, 16);
    Pow2Add(32, 32);
  }

  /** Bit `i` of `m` (bit 0 is the least significant). */
  predicate Bit(m: nat, i: nat)
  {
    if i == 0 then m % 2 == 1 else Bit(m / 2, i - 1)
  }

  /**
   * Packs one bit per lane: bit i of the result is lane i. This is the
   * scalar form of a lane mask that both `_mm_movemask_epi8` and
   * `eve::top_bits` produce.
   */
  function FromLanes(lanes: seq<bool>): (m: nat)
    ensures m < Pow2(|lanes|)
  {
    if lanes == [] then 0
    else (if lanes[0] then 1 else 0) + 2 * FromLanes(lanes[1..])
  }

  /** `~a` on a `w`-bit unsigned word. */
  function Not(a: nat, w: nat): (r: nat)
    ensures r < Pow2(w)
  {
    if w == 0 then 0
    else (if a % 2 == 1 then 0 else 1) + 2 * Not(a / 2, w - 1)
  }

  /** `a & b` on unsigned words of any width. */
  function And(a: nat, b: nat): (r: nat)
    ensures r <= a && r <= b
  {
    if a == 0 || b == 0 then 0
    else (if a % 2 == 1 && b % 2 == 1 then 1 else 0) + 2 * And(a / 2, b / 2)
  }

  /**
   * `std::countr_zero` on a `w`-bit unsigned word: the number of consecutive
   * clear bits starting from bit 0, which is `w` when the word is zero.
   */
  function CountrZero(m: nat, w: nat): (k: nat)
    ensures k <= w
    ensures k < w ==> Bit(m, k)
    ensures forall j :: 0 <= j < k ==> !Bit(m, j)
  {
    if w == 0 || m % 2 == 1 then 0 else 1 + CountrZero(m / 2, w - 1)
  }

  lemma {:induction false} BitOfFromLanes(lanes: seq<bool>, i: nat)
    ensures Bit(FromLanes(lanes), i) == (i < |lanes| && lanes[i])
  {
    if lanes != [] && i > 0 {
      BitOfFromLanes(lanes[1..], i - 1);
    } else if lanes == [] {
      ZeroHasNoBits(i);
    }
  }

  lemma {:induction false} BitOfNot(a: nat, w: nat, i: nat)
    ensures Bit(Not(a, w), i) == (i < w && !Bit(a, i))
  {
    if w == 0 {
      ZeroHasNoBits(i);
    } else if i > 0 {
      BitOfNot(a / 2, w - 1, i - 1);
    }
  }

  lemma {:induction false} BitOfAnd(a: nat, b: nat, i: nat)
    ensures Bit(And(a, b), i) == (Bit(a, i) && Bit(b, i))
    decreases i
  {
    if a == 0 || b == 0 {
      ZeroHasNoBits(i);
    } else if i > 0 {
      BitOfAnd(a / 2, b / 2, i - 1);
    }
  }

  lemma {:induction false} ZeroHasNoBits(i: nat)
    ensures !Bit(0, i)
  {
    if i > 0 {
      ZeroHasNoBits(i - 1);
    }
  }

  /** A word below 2^w has no bit at position w or above. */
  lemma {:induction false} HighBitsClear(m: nat, w: nat, i: nat)
    requires m < Pow2(w) && w <= i
    ensures !Bit(m, i)
  {
    if w == 0 {
      ZeroHasNoBits(i);
    } else {
      HighBitsClear(m / 2, w - 1, i - 1);
    }
  }

  /** 2^k - 1 has exactly the bits 0 .. k-1 set (so 0xFFFF has bits 0 .. 15). */
  lemma {:induction false} BitOfLowOnes(k: nat, i: nat)
    ensures Bit(Pow2(k) - 1, i) == (i < k)
  {
    if k == 0 {
      ZeroHasNoBits(i);
    } else if i > 0 {
      BitOfLowOnes(k - 1, i - 1);
    }
  }

  /** Two words of width w with the same bits are equal. */
  lemma {:induction false} SameBitsEqual(a: nat, b: nat, w: nat)
    requires a < Pow2(w) && b < Pow2(w)
    requires forall i :: 0 <= i < w ==> Bit(a, i) == Bit(b, i)
    ensures a == b
  {
    if w > 0 {
      forall i | 0 <= i < w - 1
        ensures Bit(a / 2, i) == Bit(b / 2, i)
      {
        assert Bit(a, i + 1) == Bit(b, i + 1);
      }
      SameBitsEqual(a / 2, b / 2, w - 1);
      assert Bit(a, 0) == Bit(b, 0);
    }
  }

  /** A non-zero word of width w has its lowest set bit below w. */
  lemma {:induction false} NonZeroHasBit(m: nat, w: nat)
    requires 0 < m < Pow2(w)
    ensures CountrZero(m, w) < w
  {
    if m % 2 == 0 {
      NonZeroHasBit(m / 2, w - 1);
    }
  }

  /** A word of width w is non-zero exactly when one of its w bits is set. */
  lemma NonZeroIffSomeBit(m: nat, w: nat)
    requires m < Pow2(w)
    ensures m != 0 ==> exists i :: 0 <= i < w && Bit(m, i)
    ensures (exists i :: 0 <= i < w && Bit(m, i)) ==> m != 0
  {
    if m == 0 {
      forall i | 0 <= i < w ensures !Bit(m, i) {
        ZeroHasNoBits(i);
      }
    } else {
      NonZeroHasBit(m, w);
      assert Bit(m, CountrZero(m, w));
    }
  }
}
