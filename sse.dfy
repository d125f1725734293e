/**
 * `alp::SseBackend`: a group is one 128-bit SSE2 register of 16 control
 * bytes, and a mask is the 16-bit result of `_mm_movemask_epi8` held in a
 * `std::uint32_t`, bit i standing for lane i.
 *
 * The three intrinsics are modelled by their documented lane semantics:
 * `_mm_set1_epi8` broadcasts a byte, `_mm_cmpeq_epi8` yields 0xFF in each
 * equal lane and 0x00 elsewhere, `_mm_movemask_epi8` collects the top bit of
 * every byte into bits 0 .. 15 and leaves bits 16 .. 31 clear.
 */
module SseBackend {
  import opened Bits
  import Ctrl
  import opened GroupContract

  const GroupSize: nat := 16

  /** `__m128i` viewed as its 16 bytes, lane 0 first. */
  type Register = r: seq<bv8> | |r| == GroupSize witness seq(16, i => 0)

  type Mask = Uint32
  type BitMask = Uint32

  /** The 16-bit masks: no bit at position 16 or above. */
  predicate IsGroupMask(m: nat)
  {
    m < 0x1_0000
  }

  /** `_mm_set1_epi8`: the byte `v` in every lane. */
  function Set1(v: bv8): Register
  {
    seq(GroupSize, i => v)
  }

  /** `_mm_cmpeq_epi8`: 0xFF in the lanes where `a` and `b` agree, 0x00 elsewhere. */
  function CmpEq(a: Register, b: Register): Register
  {
    seq(GroupSize, i requires 0 <= i < GroupSize => if a[i] == b[i] then 0xFF else 0x00)
  }

  /** The top bit of each byte, lane by lane: what `_mm_movemask_epi8` collects. */
  function TopBits(v: Register): seq<bool>
  {
    seq(GroupSize, i requires 0 <= i < GroupSize => v[i] & 0x80 == 0x80)
  }

  /** `_mm_movemask_epi8`: bit i is the top bit of byte i; bits 16 .. 31 are clear. */
  function Movemask(v: Register): (m: Mask)
    ensures IsGroupMask(m)
    ensures forall i :: 0 <= i < GroupSize ==> (Bit(m, i) <==> v[i] & 0x80 == 0x80)
  {
    var lanes := TopBits(v);
    Pow2Widths();
    forall i | 0 <= i < GroupSize
      ensures Bit(FromLanes(lanes), i) <==> v[i] & 0x80 == 0x80
    {
      BitOfFromLanes(lanes, i);
    }
    FromLanes(lanes)
  }

  /**
   * `load`: the 16 bytes at `mem[ptr ..]`, with no alignment demand. The
   * caller must provide 16 readable bytes from `ptr` on.
   */
  function Load(mem: seq<bv8>, ptr: nat): (r: Register)
    requires ptr + GroupSize <= |mem|
    ensures forall i :: 0 <= i < GroupSize ==> r[i] == mem[ptr + i]
  {
    mem[ptr..ptr + GroupSize]
  }

  /** `match`: bit i is set exactly when byte i is `val`. */
  function Match(reg: Register, val: bv8): (m: Mask)
    ensures IsGroupMask(m)
    ensures forall i :: 0 <= i < GroupSize ==> (Bit(m, i) <==> reg[i] == val)
  {
    Movemask(CmpEq(reg, Set1(val)))
  }

  /** `matchEmpty`: bit i is set exactly when byte i is Empty (0x80). */
  function MatchEmpty(reg: Register): (m: Mask)
    ensures IsGroupMask(m)
    ensures forall i :: 0 <= i < GroupSize ==> (Bit(m, i) <==> reg[i] == Ctrl.Empty)
    ensures m == Match(reg, Ctrl.Empty)
  {
    Movemask(CmpEq(reg, Set1(0x80)))
  }

  /**
   * `matchFull`: the complement of the top bits, cut to 16 bits. Bit i is set
   * exactly when byte i has its top bit clear, and so never for Empty,
   * Deleted or Sentinel.
   */
  function MatchFull(reg: Register): (m: Mask)
    ensures IsGroupMask(m)
    ensures forall i :: 0 <= i < GroupSize ==> (Bit(m, i) <==> Ctrl.TopBitClear(reg[i]))
    ensures forall i :: 0 <= i < GroupSize && Bit(m, i) ==> Ctrl.IsFull(reg[i])
  {
    var top := Movemask(reg);
    var r := And(Not(top, 32), 0xFFFF);
    Pow2Widths();
    forall i | 0 <= i < GroupSize
      ensures Bit(r, i) <==> Ctrl.TopBitClear(reg[i])
    {
      BitOfAnd(Not(top, 32), 0xFFFF, i);
      BitOfNot(top, 32, i);
      BitOfLowOnes(16, i);
    }
    forall i | 0 <= i < GroupSize && Bit(r, i)
      ensures Ctrl.IsFull(reg[i])
    {
      Ctrl.TopBitClearIsFull(reg[i]);
    }
    r
  }

  /** `any`: some bit of the mask is set. */
  function Any(mask: Mask): (b: bool)
    ensures b <==> exists i :: 0 <= i < 32 && Bit(mask, i)
  {
    Pow2Widths();
    NonZeroIffSomeBit(mask, 32);
    mask != 0
  }

  /**
   * `firstTrue`: nothing for the zero mask, otherwise `std::countr_zero`,
   * the position of the lowest set bit.
   */
  function FirstTrue(mask: Mask): (r: Option<int>)
    ensures r.None? <==> mask == 0
    ensures r.Some? ==>
              && 0 <= r.value < 32
              && Bit(mask, r.value)
              && forall j :: 0 <= j < r.value ==> !Bit(mask, j)
  {
    if mask == 0 then None
    else
      Pow2Widths();
      NonZeroHasBit(mask, 32);
      Some(CountrZero(mask, 32))
  }

  /** `toBits`: the mask already is the scalar bitmask. */
  function ToBits(mask: Mask): (b: BitMask)
    ensures forall i :: 0 <= i < 32 ==> (Bit(b, i) <==> Bit(mask, i))
  {
    mask
  }

  /** `matchFull` and `matchEmpty` of one group share no bit: `full & empty == 0`. */
  lemma FullEmptyDisjoint(reg: Register)
    ensures And(MatchFull(reg), MatchEmpty(reg)) == 0
  {
    var full, empty := MatchFull(reg), MatchEmpty(reg);
    var both := And(full, empty);
    Pow2Widths();
    forall i | 0 <= i < 32
      ensures !Bit(both, i)
    {
      BitOfAnd(full, empty, i);
      if i >= GroupSize {
        HighBitsClear(full, GroupSize, i);
      }
    }
    NonZeroIffSomeBit(both, 32);
  }

  /** On a mask that `match`, `matchEmpty` or `matchFull` returns, `firstTrue` is a lane below 16. */
  lemma FirstTrueOfGroupMask(mask: Mask)
    requires IsGroupMask(mask)
    ensures FirstTrue(mask).Some? ==> FirstTrue(mask).value < GroupSize
  {
    var r := FirstTrue(mask);
    if r.Some? && r.value >= GroupSize {
      Pow2Widths();
      HighBitsClear(mask, GroupSize, r.value);
    }
  }
}
