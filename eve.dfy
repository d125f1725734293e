/**
 * `alp::EveBackend`: a group is one `eve::wide<std::uint8_t>` whose lane
 * count is the platform's native byte-vector width capped at 64, a mask is
 * an `eve::logical` of the same width (one boolean per lane), and `toBits`
 * packs it into a `std::uint64_t`.
 *
 * The native width `eve::expected_cardinal_v<std::uint8_t>` depends on the
 * target and is a parameter here: any positive lane count.
 */
module EveBackend {
  import opened Bits
  import Ctrl
  import opened GroupContract

  /** The cap that keeps a mask within one `std::uint64_t`. */
  const MaxSize: nat := 64

  /** `eve::expected_cardinal_v<std::uint8_t>`: the platform's native lane count. */
  type NativeSize = n: int | 1 <= n witness 1

  /** `capped_size`: the native lane count, but no more than 64. */
  function CappedSize(native: NativeSize): (c: nat)
    ensures 1 <= c <= MaxSize
    ensures native <= MaxSize ==> c == native
    ensures MaxSize < native ==> c == MaxSize
  {
    if native < MaxSize then native else MaxSize
  }

  /**
   * `GroupSize`, the size of `wide<std::uint8_t, fixed<capped_size>>`. A
   * mask of this many lanes fits in a `std::uint64_t`.
   */
  function GroupSize(native: NativeSize): (n: nat)
    ensures 1 <= n <= MaxSize
    ensures Pow2(n) <= Uint64Limit
  {
    var n := CappedSize(native);
    Pow2Widths();
    Pow2Monotone(n, MaxSize);
    n
  }

  /** A register or a mask holds exactly `GroupSize` lanes. */
  predicate IsGroup<T>(native: NativeSize, lanes: seq<T>)
  {
    |lanes| == GroupSize(native)
  }

  /** `Register {ptr}`: the `GroupSize` bytes at `mem[ptr ..]`. */
  function Load(native: NativeSize, mem: seq<bv8>, ptr: nat): (r: seq<bv8>)
    requires ptr + GroupSize(native) <= |mem|
    ensures IsGroup(native, r)
    ensures forall i :: 0 <= i < |r| ==> r[i] == mem[ptr + i]
  {
    mem[ptr..ptr + GroupSize(native)]
  }

  /** `ctrl_simd(v)`, or a scalar operand of a lane-wise operator: `v` in every lane. */
  function Splat(v: bv8, n: nat): seq<bv8>
  {
    seq(n, i => v)
  }

  /** `a == b` on two wides: lane-wise equality. */
  function EqLanes(a: seq<bv8>, b: seq<bv8>): seq<bool>
    requires |a| == |b|
  {
    seq(|a|, i requires 0 <= i < |a| => a[i] == b[i])
  }

  /** `a != b` on two wides: lane-wise disequality. */
  function NeLanes(a: seq<bv8>, b: seq<bv8>): seq<bool>
    requires |a| == |b|
  {
    seq(|a|, i requires 0 <= i < |a| => a[i] != b[i])
  }

  /** `p && q` on two logicals: lane-wise conjunction. */
  function AndLanes(p: seq<bool>, q: seq<bool>): seq<bool>
    requires |p| == |q|
  {
    seq(|p|, i requires 0 <= i < |p| => p[i] && q[i])
  }

  /** `match`: lane i is true exactly when byte i is `val`. */
  function Match(native: NativeSize, reg: seq<bv8>, val: bv8): (m: seq<bool>)
    requires IsGroup(native, reg)
    ensures IsGroup(native, m)
    ensures forall i :: 0 <= i < |m| ==> (m[i] <==> reg[i] == val)
  {
    EqLanes(reg, Splat(val, |reg|))
  }

  /** `matchEmpty`: lane i is true exactly when byte i is Empty (0x80). */
  function MatchEmpty(native: NativeSize, reg: seq<bv8>): (m: seq<bool>)
    requires IsGroup(native, reg)
    ensures IsGroup(native, m)
    ensures forall i :: 0 <= i < |m| ==> (m[i] <==> reg[i] == Ctrl.Empty)
  {
    EqLanes(reg, Splat(0x80, |reg|))
  }

  /**
   * `matchFull`: lane i is true exactly when byte i is none of Empty,
   * Deleted and Sentinel; no lane is both full and empty.
   */
  function MatchFull(native: NativeSize, reg: seq<bv8>): (m: seq<bool>)
    requires IsGroup(native, reg)
    ensures IsGroup(native, m)
    ensures forall i :: 0 <= i < |m| ==> (m[i] <==> Ctrl.IsFull(reg[i]))
    ensures Disjoint(m, MatchEmpty(native, reg))
  {
    var n := |reg|;
    AndLanes(AndLanes(NeLanes(reg, Splat(0x80, n)), NeLanes(reg, Splat(0xFE, n))),
             NeLanes(reg, Splat(0xFF, n)))
  }

  /** Whether some lane at `start` or later is true: the scan behind `eve::any`. */
  function AnyFrom(mask: seq<bool>, start: nat): (b: bool)
    requires start <= |mask|
    ensures b <==> exists i :: start <= i < |mask| && mask[i]
    decreases |mask| - start
  {
    if start == |mask| then false
    else mask[start] || AnyFrom(mask, start + 1)
  }

  /** `any`: some lane of the mask is true. */
  function Any(native: NativeSize, mask: seq<bool>): (b: bool)
    requires IsGroup(native, mask)
    ensures b <==> AnyLane(mask)
  {
    AnyFrom(mask, 0)
  }

  /** The lowest true lane at `start` or later: the scan behind `eve::first_true`. */
  function FirstTrueFrom(mask: seq<bool>, start: nat): (r: Option<int>)
    requires start <= |mask|
    ensures r.None? <==> forall i :: start <= i < |mask| ==> !mask[i]
    ensures r.Some? ==>
              && start <= r.value < |mask|
              && mask[r.value]
              && forall j :: start <= j < r.value ==> !mask[j]
    decreases |mask| - start
  {
    if start == |mask| then None
    else if mask[start] then Some(start)
    else FirstTrueFrom(mask, start + 1)
  }

  /** `firstTrue`: nothing when no lane is true, otherwise the lowest true lane. */
  function FirstTrue(native: NativeSize, mask: seq<bool>): (r: Option<int>)
    requires IsGroup(native, mask)
    ensures IsFirstTrue(mask, r)
    ensures r.Some? ==> r.value < GroupSize(native)
  {
    FirstTrueFrom(mask, 0)
  }

  /**
   * `toBits`, that is `eve::top_bits {mask}.as_int()`: bit i is set exactly
   * when lane i is true, and no bit at `GroupSize` or above is set.
   */
  function ToBits(native: NativeSize, mask: seq<bool>): (b: Uint64)
    requires IsGroup(native, mask)
    ensures b < Pow2(GroupSize(native))
    ensures forall i :: 0 <= i < 64 ==> (Bit(b, i) <==> i < |mask| && mask[i])
  {
    forall i | 0 <= i < 64
      ensures Bit(FromLanes(mask), i) <==> i < |mask| && mask[i]
    {
      BitOfFromLanes(mask, i);
    }
    FromLanes(mask)
  }
}
