/**
 * The lane-level contract that every backend implements. A group is a run of
 * control bytes; a lane mask says, for each byte of the group, whether it
 * satisfies a condition. Each backend encodes lane masks its own way and is
 * proved to agree with the functions here.
 */
module GroupContract {
  import Ctrl

  /** `std::optional` */
  datatype Option<T> = None | Some(value: T)

  /** The lanes of `g` that hold the byte `v`. */
  function MatchLanes(g: seq<bv8>, v: bv8): seq<bool>
  {
    seq(|g|, i requires 0 <= i < |g| => g[i] == v)
  }

  /** The lanes of `g` that are Empty. */
  function EmptyLanes(g: seq<bv8>): seq<bool>
  {
    MatchLanes(g, Ctrl.Empty)
  }

  /** The lanes of `g` that hold a live element: not Empty, not Deleted, not Sentinel. */
  function FullLanes(g: seq<bv8>): seq<bool>
  {
    seq(|g|, i requires 0 <= i < |g| => Ctrl.IsFull(g[i]))
  }

  /** Some lane of the mask is true. */
  predicate AnyLane(lanes: seq<bool>)
  {
    exists i :: 0 <= i < |lanes| && lanes[i]
  }

  /**
   * `r` is the answer `firstTrue` owes for `lanes`: nothing when no lane is
   * true, otherwise the index of the lowest true lane.
   */
  ghost predicate IsFirstTrue(lanes: seq<bool>, r: Option<int>)
  {
    && (r.None? <==> !AnyLane(lanes))
    && (r.Some? ==>
          && 0 <= r.value < |lanes|
          && lanes[r.value]
          && forall j :: 0 <= j < r.value ==> !lanes[j])
  }

  /** Two lane masks of one group with no lane true in both. */
  predicate Disjoint(a: seq<bool>, b: seq<bool>)
  {
    |a| == |b| && forall i :: 0 <= i < |a| ==> !(a[i] && b[i])
  }

  /** The first-true answer is determined by the mask. */
  lemma FirstTrueUnique(lanes: seq<bool>, r1: Option<int>, r2: Option<int>)
    requires IsFirstTrue(lanes, r1) && IsFirstTrue(lanes, r2)
    ensures r1 == r2
  {
  }

  /** No lane is both full and empty. */
  lemma FullEmptyDisjoint(g: seq<bv8>)
    ensures Disjoint(FullLanes(g), EmptyLanes(g))
  {
  }
}
