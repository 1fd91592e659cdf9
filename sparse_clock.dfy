/**
 * VC<T> of pintools/VectorClock/VectorClock.cpp: a sparse vector clock, a
 * std::map from thread id to time.  A thread absent from the map is meant
 * to be at time 0.  Clocks are copied when stored, so a clock is a value.
 */
module SparseClock {
  import opened Times

  type Tid = nat
  type VC = map<Tid, nat>


  /** The time the clock gives tid, 0 for an absent tid. */
  function Get(c: VC, tid: Tid): nat
  {
    if tid in c then c[tid] else 0
  }

  /** `lhs <= rhs` as intended: every time in lhs is at most rhs's, absent meaning 0. */
  predicate Leq(lhs: VC, rhs: VC)
  {
    forall tid :: tid in lhs ==> lhs[tid] <= Get(rhs, tid)
  }

  /** Every time stored in the clock is positive. */
  predicate Positive(c: VC)
  {
    forall tid :: tid in c ==> c[tid] > 0
  }

  /** The least clock above both operands, keyed by the union of their thread ids. */
  function Merge(lhs: VC, rhs: VC): (r: VC)
    ensures r.Keys == lhs.Keys + rhs.Keys
    ensures Leq(lhs, r) && Leq(rhs, r)
    ensures forall tid :: tid in r ==> r[tid] == Get(lhs, tid) || r[tid] == Get(rhs, tid)
  {
    map tid | tid in lhs.Keys + rhs.Keys :: Max(Get(lhs, tid), Get(rhs, tid))
  }

  /**
   * `lhs |= rhs`: for each tid of rhs, `clocks_[tid]` (inserting 0 when
   * absent) is raised to rhs's time if that is larger; tids only in lhs
   * keep their times.
   */
  method MergeInto(lhs: VC, rhs: VC) returns (merged: VC)
    ensures merged == Merge(lhs, rhs)
  {
    merged := lhs;
    var todo := rhs.Keys;
    while todo != {}
      invariant todo <= rhs.Keys
      invariant merged.Keys == lhs.Keys + (rhs.Keys - todo)
      invariant forall tid :: tid in merged ==>
                  merged[tid] == if tid in todo then lhs[tid] else Max(Get(lhs, tid), Get(rhs, tid))
      decreases todo
    {
      var tid :| tid in todo;
      var cur := Get(merged, tid);
      merged := merged[tid := cur];
      if cur < rhs[tid] {
        merged := merged[tid := rhs[tid]];
      }
      todo := todo - {tid};
    }
  }

  /**
   * `lhs <= rhs` with an absent tid of rhs read as 0.  The source scans
   * lhs in ascending tid order; the verdict does not depend on the order.
   */
  method LessEq(lhs: VC, rhs: VC) returns (b: bool)
    ensures b == Leq(lhs, rhs)
  {
    var todo := lhs.Keys;
    while todo != {}
      invariant todo <= lhs.Keys
      invariant forall tid :: tid in lhs && tid !in todo ==> lhs[tid] <= Get(rhs, tid)
      decreases todo
    {
      var tid :| tid in todo;
      var v := lhs[tid];
      if tid !in rhs && v > 0 {
        return false;
      } else if v > Get(rhs, tid) {
        return false;
      }
      todo := todo - {tid};
    }
    return true;
  }

  /** `lhs > rhs`: the negation of `<=`, some time of lhs exceeds rhs's. */
  method Greater(lhs: VC, rhs: VC) returns (b: bool)
    ensures b <==> exists tid :: tid in lhs && lhs[tid] > Get(rhs, tid)
  {
    var le := LessEq(lhs, rhs);
    b := !le;
  }

  lemma LeqReflexive(a: VC)
    ensures Leq(a, a)
  {
  }

  lemma LeqTransitive(a: VC, b: VC, c: VC)
    requires Leq(a, b) && Leq(b, c)
    ensures Leq(a, c)
  {
    forall tid | tid in a
      ensures a[tid] <= Get(c, tid)
    {
      if tid !in b {
        assert a[tid] <= 0;
      }
    }
  }

  /** Mutually below each other, two clocks give every thread the same time. */
  lemma LeqAntisymmetric(a: VC, b: VC, tid: Tid)
    requires Leq(a, b) && Leq(b, a)
    ensures Get(a, tid) == Get(b, tid)
  {
  }

  lemma MergeLeast(a: VC, b: VC, c: VC)
    requires Leq(a, c) && Leq(b, c)
    ensures Leq(Merge(a, b), c)
  {
  }

  lemma MergeCommutative(a: VC, b: VC)
    ensures Merge(a, b) == Merge(b, a)
  {
  }

  lemma MergeAssociative(a: VC, b: VC, c: VC)
    ensures Merge(Merge(a, b), c) == Merge(a, Merge(b, c))
  {
  }

  lemma MergeIdempotent(a: VC)
    ensures Merge(a, a) == a
  {
  }

  /** The clock that knows of no thread is the identity of the merge. */
  lemma MergeEmpty(a: VC)
    ensures Merge(a, map[]) == a && Merge(map[], a) == a
  {
  }

  /** Merging positive clocks yields a positive clock. */
  lemma MergePositive(a: VC, b: VC)
    requires Positive(a) && Positive(b)
    ensures Positive(Merge(a, b))
  {
  }

  // The comparison exactly as written.  In the source, when a tid of lhs
  // is absent from rhs and its time in lhs is 0, the first test fails and
  // the second dereferences rhs's end() iterator: behaviour is undefined.

  datatype Verdict = Holds | Fails | Undefined

  /** The least element of a non-empty set of thread ids. */
  ghost function Least(s: set<Tid>): (m: Tid)
    requires s != {}
    ensures m in s && forall tid :: tid in s ==> m <= tid
    decreases s
  {
    var x :| x in s;
    if s - {x} == {} then
      assert forall tid :: tid in s ==> tid == x by {
        forall tid | tid in s ensures tid == x {
          assert tid !in s - {x};
        }
      }
      x
    else
      var m := Least(s - {x});
      assert forall tid :: tid in s ==> tid == x || tid in s - {x};
      if x < m then x else m
  }

  /** The loop of `VC::operator<=` over the tids of lhs still to visit, in ascending order. */
  ghost function LeqAsWrittenFrom(lhs: VC, rhs: VC, todo: set<Tid>): (r: Verdict)
    requires todo <= lhs.Keys
    ensures r == Undefined ==> exists tid :: tid in todo && tid !in rhs && lhs[tid] == 0
    decreases todo
  {
    if todo == {} then Holds
    else
      var tid := Least(todo);
      if tid !in rhs && lhs[tid] > 0 then Fails
      else if tid !in rhs then Undefined
      else if lhs[tid] > rhs[tid] then Fails
      else LeqAsWrittenFrom(lhs, rhs, todo - {tid})
  }

  /**
   * `lhs <= rhs` as written: the verdict is Undefined only where a tid of
   * lhs is stored with time 0 and is missing from rhs.
   */
  ghost function LeqAsWritten(lhs: VC, rhs: VC): (r: Verdict)
    ensures r == Undefined ==> exists tid :: tid in lhs && tid !in rhs && lhs[tid] == 0
  {
    LeqAsWrittenFrom(lhs, rhs, lhs.Keys)
  }

  /** Whenever the loop as written is defined, it agrees with the intended order. */
  lemma {:induction false} LeqAsWrittenFromAgrees(lhs: VC, rhs: VC, todo: set<Tid>)
    requires todo <= lhs.Keys
    ensures LeqAsWrittenFrom(lhs, rhs, todo) == Holds ==>
              forall tid :: tid in todo ==> lhs[tid] <= Get(rhs, tid)
    ensures LeqAsWrittenFrom(lhs, rhs, todo) == Fails ==>
              exists tid :: tid in todo && lhs[tid] > Get(rhs, tid)
    decreases todo
  {
    if todo != {} {
      var tid := Least(todo);
      if tid in rhs && lhs[tid] <= rhs[tid] {
        LeqAsWrittenFromAgrees(lhs, rhs, todo - {tid});
      }
    }
  }

  lemma LeqAsWrittenAgrees(lhs: VC, rhs: VC)
    ensures LeqAsWritten(lhs, rhs) == Holds ==> Leq(lhs, rhs)
    ensures LeqAsWritten(lhs, rhs) == Fails ==> !Leq(lhs, rhs)
  {
    LeqAsWrittenFromAgrees(lhs, rhs, lhs.Keys);
  }

  /** The loop as written is defined on every clock whose stored times are all positive. */
  lemma {:induction false} LeqAsWrittenFromDefined(lhs: VC, rhs: VC, todo: set<Tid>)
    requires todo <= lhs.Keys && Positive(lhs)
    ensures LeqAsWrittenFrom(lhs, rhs, todo) != Undefined
    decreases todo
  {
    if todo != {} {
      var tid := Least(todo);
      if tid in rhs && lhs[tid] <= rhs[tid] {
        LeqAsWrittenFromDefined(lhs, rhs, todo - {tid});
      }
    }
  }

  lemma LeqAsWrittenDefinedOnPositive(lhs: VC, rhs: VC)
    requires Positive(lhs)
    ensures LeqAsWritten(lhs, rhs) != Undefined
    ensures LeqAsWritten(lhs, rhs) == Holds <==> Leq(lhs, rhs)
  {
    LeqAsWrittenFromDefined(lhs, rhs, lhs.Keys);
    LeqAsWrittenAgrees(lhs, rhs);
  }

  /**
   * The input that reaches the dereference of end(): a tid stored with
   * time 0 in lhs and absent from rhs.  The intended order holds there.
   */
  lemma LeqAsWrittenDereferencesEnd()
    ensures LeqAsWritten(map[1 := 0], map[]) == Undefined
    ensures Leq(map[1 := 0], map[])
  {
    var lhs: VC := map[1 := 0];
    assert lhs.Keys == {1};
    assert Least({1}) == 1;
    assert LeqAsWrittenFrom(lhs, map[], {} ) == Holds;
  }
}
