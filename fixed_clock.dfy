/**
 * FixedVectorClock<N> of djit-plus-vc/fixed.hpp: one logical time per
 * thread, for exactly N threads.  The source keeps it in a std::array, a
 * value type that is copied whenever it is stored, so a clock is a value
 * here: a sequence of N naturals.
 */
module FixedClock {
  import opened Times

  type Clock = seq<nat>

  /** The value-initialised clock `FixedVectorClock<N>{}`. */
  function Zero(n: nat): (c: Clock)
    ensures |c| == n
    ensures forall i :: 0 <= i < n ==> c[i] == 0
  {
    seq(n, _ => 0)
  }

  /** `lhs <= rhs`: every component of lhs is at most the matching one of rhs. */
  predicate Leq(lhs: Clock, rhs: Clock)
    requires |lhs| == |rhs|
  {
    forall i :: 0 <= i < |lhs| ==> lhs[i] <= rhs[i]
  }

  /**
   * `lhs | rhs`: the least clock above both operands (pointwise maximum).
   */
  function Merge(lhs: Clock, rhs: Clock): (r: Clock)
    requires |lhs| == |rhs|
    ensures |r| == |lhs|
    ensures Leq(lhs, r) && Leq(rhs, r)
    ensures forall i :: 0 <= i < |r| ==> r[i] == lhs[i] || r[i] == rhs[i]
  {
    seq(|lhs|, i requires 0 <= i < |lhs| => Max(lhs[i], rhs[i]))
  }

  /** `lhs |= rhs`: overwrites each component of lhs with the larger of the two. */
  method MergeInto(lhs: Clock, rhs: Clock) returns (merged: Clock)
    requires |lhs| == |rhs|
    ensures merged == Merge(lhs, rhs)
  {
    merged := lhs;
    var i := 0;
    while i < |lhs|
      invariant 0 <= i <= |lhs| == |merged|
      invariant forall j :: 0 <= j < i ==> merged[j] == Max(lhs[j], rhs[j])
      invariant forall j :: i <= j < |lhs| ==> merged[j] == lhs[j]
    {
      merged := merged[i := Max(merged[i], rhs[i])];
      i := i + 1;
    }
  }

  /** `lhs <= rhs`, scanning the components and stopping at the first that is larger. */
  method LessEq(lhs: Clock, rhs: Clock) returns (b: bool)
    requires |lhs| == |rhs|
    ensures b <==> forall i :: 0 <= i < |lhs| ==> lhs[i] <= rhs[i]
  {
    var i := 0;
    while i < |lhs|
      invariant 0 <= i <= |lhs|
      invariant forall j :: 0 <= j < i ==> lhs[j] <= rhs[j]
    {
      if lhs[i] > rhs[i] {
        return false;
      }
      i := i + 1;
    }
    return true;
  }

  /** `lhs > rhs`, defined as the negation of `<=`: some component of lhs exceeds rhs's. */
  method Greater(lhs: Clock, rhs: Clock) returns (b: bool)
    requires |lhs| == |rhs|
    ensures b <==> exists i :: 0 <= i < |lhs| && lhs[i] > rhs[i]
  {
    var le := LessEq(lhs, rhs);
    b := !le;
  }

  /** Merge is the least upper bound: any clock above both operands is above their merge. */
  lemma MergeLeast(a: Clock, b: Clock, c: Clock)
    requires |a| == |b| == |c|
    requires Leq(a, c) && Leq(b, c)
    ensures Leq(Merge(a, b), c)
  {
  }

  lemma MergeCommutative(a: Clock, b: Clock)
    requires |a| == |b|
    ensures Merge(a, b) == Merge(b, a)
  {
  }

  lemma MergeAssociative(a: Clock, b: Clock, c: Clock)
    requires |a| == |b| == |c|
    ensures Merge(Merge(a, b), c) == Merge(a, Merge(b, c))
  {
  }

  lemma MergeIdempotent(a: Clock)
    ensures Merge(a, a) == a
  {
  }

  lemma LeqReflexive(a: Clock)
    ensures Leq(a, a)
  {
  }

  lemma LeqTransitive(a: Clock, b: Clock, c: Clock)
    requires |a| == |b| == |c|
    requires Leq(a, b) && Leq(b, c)
    ensures Leq(a, c)
  {
  }

  lemma LeqAntisymmetric(a: Clock, b: Clock)
    requires |a| == |b|
    requires Leq(a, b) && Leq(b, a)
    ensures a == b
  {
  }

  /** Merging b into a leaves a unchanged exactly when b is below a. */
  lemma MergeAbsorbs(a: Clock, b: Clock)
    requires |a| == |b|
    ensures Leq(b, a) <==> Merge(a, b) == a
  {
  }
}
