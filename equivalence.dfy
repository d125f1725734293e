/**
 * Each backend refines the lane-level contract of `GroupContract`, and the
 * two backends are interchangeable: on a 16-lane platform they give the same
 * answer for `match`, `matchEmpty`, `any` and `firstTrue`, and for
 * `matchFull` on the bytes the table writes, but not on arbitrary bytes.
 */
module BackendEquivalence {
  import opened Bits
  import Ctrl
  import opened GroupContract
  import Sse = SseBackend
  import Eve = EveBackend

  /** A 16-bit mask whose bits are the lanes is the packed form of those lanes. */
  lemma {:induction false} GroupMaskIsPacked(m: nat, lanes: seq<bool>)
    requires |lanes| == Sse.GroupSize && Sse.IsGroupMask(m)
    requires forall i :: 0 <= i < Sse.GroupSize ==> (Bit(m, i) <==> lanes[i])
    ensures m == FromLanes(lanes)
  {
    Pow2Widths();
    forall i | 0 <= i < Sse.GroupSize
      ensures Bit(m, i) == Bit(FromLanes(lanes), i)
    {
      BitOfFromLanes(lanes, i);
    }
    SameBitsEqual(m, FromLanes(lanes), Sse.GroupSize);
  }

  /** SSE `match` is the packed form of the contract's matching lanes. */
  lemma SseMatchRefines(reg: Sse.Register, v: bv8)
    ensures Sse.ToBits(Sse.Match(reg, v)) == FromLanes(MatchLanes(reg, v))
  {
    GroupMaskIsPacked(Sse.Match(reg, v), MatchLanes(reg, v));
  }

  /** SSE `matchEmpty` is the packed form of the contract's empty lanes. */
  lemma SseMatchEmptyRefines(reg: Sse.Register)
    ensures Sse.ToBits(Sse.MatchEmpty(reg)) == FromLanes(EmptyLanes(reg))
  {
    GroupMaskIsPacked(Sse.MatchEmpty(reg), EmptyLanes(reg));
  }

  /**
   * SSE `matchFull` is the packed form of the contract's full lanes when
   * every byte of the group is a control byte the table writes.
   */
  lemma SseMatchFullRefines(reg: Sse.Register)
    requires forall i :: 0 <= i < Sse.GroupSize ==> Ctrl.IsControl(reg[i])
    ensures Sse.ToBits(Sse.MatchFull(reg)) == FromLanes(FullLanes(reg))
  {
    forall i | 0 <= i < Sse.GroupSize
      ensures Bit(Sse.MatchFull(reg), i) <==> FullLanes(reg)[i]
    {
      Ctrl.FullRulesAgree(reg[i]);
    }
    GroupMaskIsPacked(Sse.MatchFull(reg), FullLanes(reg));
  }

  /** SSE `any` on the packed form of a 16-lane mask is the contract's `AnyLane`. */
  lemma SseAnyRefines(lanes: seq<bool>)
    requires |lanes| == Sse.GroupSize
    ensures FromLanes(lanes) < Uint32Limit
    ensures Sse.Any(FromLanes(lanes)) == AnyLane(lanes)
  {
    Pow2Widths();
    var m := FromLanes(lanes);
    forall i | 0 <= i < 32
      ensures Bit(m, i) <==> i < |lanes| && lanes[i]
    {
      BitOfFromLanes(lanes, i);
    }
  }

  /**
   * SSE `firstTrue` on the packed form of a 16-lane mask answers as the
   * contract demands: in particular the index is below 16.
   */
  lemma SseFirstTrueRefines(lanes: seq<bool>)
    requires |lanes| == Sse.GroupSize
    ensures FromLanes(lanes) < Uint32Limit
    ensures IsFirstTrue(lanes, Sse.FirstTrue(FromLanes(lanes)))
  {
    Pow2Widths();
    var m := FromLanes(lanes);
    forall i | 0 <= i < 32
      ensures Bit(m, i) <==> i < |lanes| && lanes[i]
    {
      BitOfFromLanes(lanes, i);
    }
    SseAnyRefines(lanes);
  }

  /** EVE's three comparisons compute exactly the contract's lane masks. */
  lemma EveMatchesRefine(native: Eve.NativeSize, reg: seq<bv8>, v: bv8)
    requires Eve.IsGroup(native, reg)
    ensures Eve.Match(native, reg, v) == MatchLanes(reg, v)
    ensures Eve.MatchEmpty(native, reg) == EmptyLanes(reg)
    ensures Eve.MatchFull(native, reg) == FullLanes(reg)
  {
  }

  /** On a 16-lane platform both backends give one bitmask for `match`. */
  lemma MatchAgrees(native: Eve.NativeSize, reg: Sse.Register, v: bv8)
    requires Eve.GroupSize(native) == Sse.GroupSize
    ensures Eve.ToBits(native, Eve.Match(native, reg, v)) == Sse.ToBits(Sse.Match(reg, v))
  {
    EveMatchesRefine(native, reg, v);
    SseMatchRefines(reg, v);
  }

  /** On a 16-lane platform both backends give one bitmask for `matchEmpty`. */
  lemma MatchEmptyAgrees(native: Eve.NativeSize, reg: Sse.Register)
    requires Eve.GroupSize(native) == Sse.GroupSize
    ensures Eve.ToBits(native, Eve.MatchEmpty(native, reg)) == Sse.ToBits(Sse.MatchEmpty(reg))
  {
    EveMatchesRefine(native, reg, Ctrl.Empty);
    SseMatchEmptyRefines(reg);
  }

  /**
   * On a 16-lane platform and a group of control bytes, SSE's "top bit
   * clear" and EVE's "not Empty, Deleted or Sentinel" give one bitmask.
   */
  lemma MatchFullAgrees(native: Eve.NativeSize, reg: Sse.Register)
    requires Eve.GroupSize(native) == Sse.GroupSize
    requires forall i :: 0 <= i < Sse.GroupSize ==> Ctrl.IsControl(reg[i])
    ensures Eve.ToBits(native, Eve.MatchFull(native, reg)) == Sse.ToBits(Sse.MatchFull(reg))
  {
    EveMatchesRefine(native, reg, Ctrl.Empty);
    SseMatchFullRefines(reg);
  }

  /**
   * Off the control-byte vocabulary the two `matchFull` rules part: a
   * group of 0x81 bytes is all full for EVE and all non-full for SSE.
   */
  lemma MatchFullDiffersOffVocabulary()
    ensures Eve.GroupSize(16) == Sse.GroupSize
    ensures Bit(Eve.ToBits(16, Eve.MatchFull(16, Sse.Set1(0x81))), 0)
    ensures !Bit(Sse.ToBits(Sse.MatchFull(Sse.Set1(0x81))), 0)
    ensures Eve.ToBits(16, Eve.MatchFull(16, Sse.Set1(0x81)))
            != Sse.ToBits(Sse.MatchFull(Sse.Set1(0x81)))
  {
  }

  /** For the same 16 lanes, both backends agree on `any`. */
  lemma AnyAgrees(native: Eve.NativeSize, lanes: seq<bool>)
    requires Eve.GroupSize(native) == Sse.GroupSize && |lanes| == Sse.GroupSize
    ensures FromLanes(lanes) < Uint32Limit
    ensures Eve.Any(native, lanes) == Sse.Any(FromLanes(lanes))
  {
    SseAnyRefines(lanes);
  }

  /** For the same 16 lanes, both backends agree on `firstTrue`. */
  lemma FirstTrueAgrees(native: Eve.NativeSize, lanes: seq<bool>)
    requires Eve.GroupSize(native) == Sse.GroupSize && |lanes| == Sse.GroupSize
    ensures FromLanes(lanes) < Uint32Limit
    ensures Eve.FirstTrue(native, lanes) == Sse.FirstTrue(FromLanes(lanes))
  {
    SseFirstTrueRefines(lanes);
    FirstTrueUnique(lanes, Eve.FirstTrue(native, lanes), Sse.FirstTrue(FromLanes(lanes)));
  }

  /**
   * The question a probe asks of a group: is some lane equal to `v`, and
   * which is the first? On a 16-lane platform both backends answer alike.
   */
  lemma MatchScanAgrees(native: Eve.NativeSize, reg: Sse.Register, v: bv8)
    requires Eve.GroupSize(native) == Sse.GroupSize
    ensures Eve.Any(native, Eve.Match(native, reg, v)) == Sse.Any(Sse.Match(reg, v))
    ensures Eve.FirstTrue(native, Eve.Match(native, reg, v)) == Sse.FirstTrue(Sse.Match(reg, v))
  {
    var lanes := MatchLanes(reg, v);
    EveMatchesRefine(native, reg, v);
    SseMatchRefines(reg, v);
    AnyAgrees(native, lanes);
    FirstTrueAgrees(native, lanes);
  }
}
