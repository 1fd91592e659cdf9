/**
 * Analyzer<NThread> of djit-plus-vc/fixed.hpp: a DJIT+ happens-before
 * race detector for a fixed number of threads, driven by a scripted stream
 * of Read, Write, Acquire and Release events.  The violation handlers of the
 * source become the boolean each access returns.
 */
module FixedAnalyzer {
  import opened FixedClock
  import opened Wrappers

  datatype Variable = Variable(name: string)
  datatype Lock = Lock(name: string)

  /** Clock of thread i in a new analyzer: its own component is 1, every other 0. */
  function InitialClock(n: nat, i: nat): (c: Clock)
    requires i < n
    ensures |c| == n && c[i] == 1
    ensures forall j :: 0 <= j < n && j != i ==> c[j] == 0
  {
    Zero(n)[i := 1]
  }

  /**
   * `m[k]` on a std::map whose absent entries are value-initialised:
   * the stored clock, or the all-zero clock that the lookup inserts.
   */
  function Lookup<K>(m: map<K, Clock>, k: K, n: nat): (c: Clock)
    requires forall k' :: k' in m ==> |m[k']| == n
    ensures |c| == n
    ensures k in m ==> c == m[k]
    ensures k !in m ==> c == Zero(n)
  {
    if k in m then m[k] else Zero(n)
  }

  /** No thread clock component is lower in `after` than in `before`. */
  ghost predicate ThreadsGrew(before: seq<Clock>, after: seq<Clock>)
  {
    && |before| == |after|
    && (forall t :: 0 <= t < |before| ==> |before[t]| == |after[t]|)
    && (forall t :: 0 <= t < |before| ==> Leq(before[t], after[t]))
  }

  /** The diagonal of a square table of clocks: each thread's own component. */
  function Diagonal(clocks: seq<Clock>): (own: Clock)
    requires forall t :: 0 <= t < |clocks| ==> |clocks[t]| == |clocks|
    ensures |own| == |clocks|
    ensures forall t :: 0 <= t < |clocks| ==> own[t] == clocks[t][t]
  {
    seq(|clocks|, t requires 0 <= t < |clocks| => clocks[t][t])
  }

  /** Stamping a clock with one component of a bound keeps it below that bound. */
  lemma StampBelow(c: Clock, bound: Clock, t: nat)
    requires |c| == |bound| && t < |c| && Leq(c, bound)
    ensures Leq(c[t := bound[t]], bound)
  {
  }

  /** The all-zero clock is below every clock. */
  lemma ZeroBelow(bound: Clock)
    ensures Leq(Zero(|bound|), bound)
  {
  }

  class Analyzer {
    /** NThread */
    const n: nat
    /** thread_vc_: one clock per thread */
    const threadVC: array<Clock>
    /** read_vc_, write_vc_: per variable, the time of each thread's last read and write */
    var readVC: map<Variable, Clock>
    var writeVC: map<Variable, Clock>
    /** lock_vc_: per lock, the clock of its last release */
    var lockVC: map<Lock, Clock>
    /** variables_, locks_: every name passed to Register, in order */
    var variables: seq<Variable>
    var locks: seq<Lock>

    /** Every clock has N components. */
    ghost predicate Shaped()
      reads this, threadVC
    {
      && threadVC.Length == n
      && (forall t :: 0 <= t < n ==> |threadVC[t]| == n)
      && (forall x :: x in readVC ==> |readVC[x]| == n)
      && (forall x :: x in writeVC ==> |writeVC[x]| == n)
      && (forall m :: m in lockVC ==> |lockVC[m]| == n)
    }

    /** The own time of every thread: component t of thread t's clock. */
    ghost function Own(): (own: Clock)
      reads this, threadVC
      requires Shaped()
      ensures |own| == n
    {
      Diagonal(threadVC[..])
    }

    /**
     * The object invariant.  Beyond the shapes, DJIT+ keeps every stored
     * clock at or below the vector of the threads' own times, since each
     * component for thread i was copied, directly or through merges, from
     * thread i's own time, which never decreases.
     */
    ghost predicate Valid()
      reads this, threadVC
    {
      && Shaped()
      && var own := Own();
      && (forall t :: 0 <= t < n ==> own[t] >= 1)
      && (forall t :: 0 <= t < n ==> Leq(threadVC[t], own))
      && (forall x :: x in readVC ==> Leq(readVC[x], own))
      && (forall x :: x in writeVC ==> Leq(writeVC[x], own))
      && (forall m :: m in lockVC ==> Leq(lockVC[m], own))
    }

    /** `Analyzer()`: thread t starts at time 1 and knows nothing of the others. */
    constructor (nThread: nat)
      ensures Valid() && n == nThread && fresh(threadVC)
      ensures forall t :: 0 <= t < n ==> threadVC[t] == InitialClock(n, t)
      ensures readVC == map[] && writeVC == map[] && lockVC == map[]
      ensures variables == [] && locks == []
    {
      n := nThread;
      var clocks := new Clock[nThread](_ => Zero(nThread));
      var i := 0;
      while i < nThread
        invariant 0 <= i <= nThread
        invariant forall t :: 0 <= t < i ==> clocks[t] == InitialClock(nThread, t)
        invariant forall t :: i <= t < nThread ==> clocks[t] == Zero(nThread)
      {
        clocks[i] := clocks[i][i := 1];
        i := i + 1;
      }
      threadVC := clocks;
      readVC, writeVC, lockVC := map[], map[], map[];
      variables, locks := [], [];
    }

    /**
     * `Read(t, x)`: records t's own time as its last read of x, then
     * reports a read violation iff the last writes to x are not all
     * ordered before t's current clock.  The recording happens whether or
     * not a violation is reported.  The check looks up write_vc_[x], which
     * inserts a zero clock for a variable that was never registered.
     */
    method Read(t: nat, x: Variable) returns (violated: bool)
      requires Valid() && t < n
      modifies this
      ensures Valid()
      ensures readVC == old(readVC)[x := Lookup(old(readVC), x, n)[t := threadVC[t][t]]]
      ensures writeVC == old(writeVC)[x := Lookup(old(writeVC), x, n)]
      ensures lockVC == old(lockVC) && variables == old(variables) && locks == old(locks)
      ensures violated <==> !Leq(writeVC[x], threadVC[t])
      ensures violated <==> exists i :: 0 <= i < n && i != t && writeVC[x][i] > threadVC[t][i]
    {
      var r := Lookup(readVC, x, n);
      readVC := readVC[x := r[t := threadVC[t][t]]];
      var w := Lookup(writeVC, x, n);
      writeVC := writeVC[x := w];
      violated := Greater(w, threadVC[t]);
      assert Own() == old(Own());
    }

    /**
     * `Write(t, x)`: records t's own time as its last write of x, then
     * reports a write violation iff the last writes or the last reads of x
     * are not all ordered before t's current clock.  The check runs after
     * the recording, so the component just written never triggers it.
     * read_vc_[x] is only looked up (and so only inserted) when the write
     * test passes, as `||` short-circuits.
     */
    method Write(t: nat, x: Variable) returns (violated: bool)
      requires Valid() && t < n
      modifies this
      ensures Valid()
      ensures writeVC == old(writeVC)[x := Lookup(old(writeVC), x, n)[t := threadVC[t][t]]]
      ensures readVC == if Leq(writeVC[x], threadVC[t])
                        then old(readVC)[x := Lookup(old(readVC), x, n)]
                        else old(readVC)
      ensures lockVC == old(lockVC) && variables == old(variables) && locks == old(locks)
      ensures violated <==> !Leq(writeVC[x], threadVC[t]) || !Leq(Lookup(old(readVC), x, n), threadVC[t])
      ensures violated <==> (exists i :: 0 <= i < n && i != t &&
                               (writeVC[x][i] > threadVC[t][i] || Lookup(old(readVC), x, n)[i] > threadVC[t][i]))
    {
      ZeroBelow(Own());
      var w := Lookup(writeVC, x, n);
      StampBelow(w, Own(), t);
      w := w[t := threadVC[t][t]];
      writeVC := writeVC[x := w];
      violated := Greater(w, threadVC[t]);
      if !violated {
        var r := Lookup(readVC, x, n);
        readVC := readVC[x := r];
        violated := Greater(r, threadVC[t]);
      }
      assert Own() == old(Own());
    }

    /**
     * `Acquire(t, m)`: t learns everything the last releaser of m knew
     * (pointwise maximum); the lock clock itself is left as it was.
     */
    method Acquire(t: nat, m: Lock)
      requires Valid() && t < n
      modifies this, threadVC
      ensures Valid()
      ensures lockVC == old(lockVC)[m := Lookup(old(lockVC), m, n)]
      ensures threadVC[t] == Merge(old(threadVC[t]), lockVC[m])
      ensures forall u :: 0 <= u < n && u != t ==> threadVC[u] == old(threadVC[u])
      ensures readVC == old(readVC) && writeVC == old(writeVC)
      ensures variables == old(variables) && locks == old(locks)
      ensures ThreadsGrew(old(threadVC[..]), threadVC[..])
    {
      var l := Lookup(lockVC, m, n);
      lockVC := lockVC[m := l];
      var merged := MergeInto(threadVC[t], l);
      assert merged[t] == threadVC[t][t];
      threadVC[t] := merged;
      assert Own() == old(Own());
    }

    /**
     * `Release(t, m)`: t's own time advances by one, then m keeps a copy
     * of t's new clock for the next acquirer.
     */
    method Release(t: nat, m: Lock)
      requires Valid() && t < n
      modifies this, threadVC
      ensures Valid()
      ensures threadVC[t] == old(threadVC[t])[t := old(threadVC[t][t]) + 1]
      ensures forall u :: 0 <= u < n && u != t ==> threadVC[u] == old(threadVC[u])
      ensures lockVC == old(lockVC)[m := threadVC[t]]
      ensures readVC == old(readVC) && writeVC == old(writeVC)
      ensures variables == old(variables) && locks == old(locks)
      ensures ThreadsGrew(old(threadVC[..]), threadVC[..])
    {
      threadVC[t] := threadVC[t][t := threadVC[t][t] + 1];
      lockVC := lockVC[m := threadVC[t]];
    }

    /**
     * `Register(x)`: appends x to the variable list every time, but
     * `emplace` creates the all-zero read and write clocks only when x has
     * none yet; existing clocks are left untouched.
     */
    method RegisterVariable(x: Variable)
      requires Valid()
      modifies this
      ensures Valid()
      ensures variables == old(variables) + [x]
      ensures readVC == if x in old(readVC) then old(readVC) else old(readVC)[x := Zero(n)]
      ensures writeVC == if x in old(writeVC) then old(writeVC) else old(writeVC)[x := Zero(n)]
      ensures lockVC == old(lockVC) && locks == old(locks)
    {
      ZeroBelow(Own());
      variables := variables + [x];
      if x !in readVC {
        readVC := readVC[x := Zero(n)];
      }
      if x !in writeVC {
        writeVC := writeVC[x := Zero(n)];
      }
    }

    /** `Register(m)`: as for variables, with the lock clock. */
    method RegisterLock(m: Lock)
      requires Valid()
      modifies this
      ensures Valid()
      ensures locks == old(locks) + [m]
      ensures lockVC == if m in old(lockVC) then old(lockVC) else old(lockVC)[m := Zero(n)]
      ensures readVC == old(readVC) && writeVC == old(writeVC) && variables == old(variables)
    {
      locks := locks + [m];
      if m !in lockVC {
        lockVC := lockVC[m := Zero(n)];
      }
    }

    /** `GetThreadVC(t)`: `std::array::at` fails for an index outside the N threads. */
    function GetThreadVC(t: int): (r: Option<Clock>)
      reads this, threadVC
      requires Valid()
      ensures r.Some? <==> 0 <= t < n
      ensures r.Some? ==> r.value == threadVC[t]
      ensures r.Some? ==> |r.value| == n && r.value[t] >= 1
    {
      if 0 <= t < threadVC.Length then Some(threadVC[t]) else None
    }

    /** `GetReadVC(x)`: `std::map::at` fails for a variable with no clock. */
    function GetReadVC(x: Variable): (r: Option<Clock>)
      reads this, threadVC
      requires Valid()
      ensures r.Some? <==> x in readVC
      ensures r.Some? ==> r.value == readVC[x] && |r.value| == n
    {
      if x in readVC then Some(readVC[x]) else None
    }

    function GetWriteVC(x: Variable): (r: Option<Clock>)
      reads this, threadVC
      requires Valid()
      ensures r.Some? <==> x in writeVC
      ensures r.Some? ==> r.value == writeVC[x] && |r.value| == n
    {
      if x in writeVC then Some(writeVC[x]) else None
    }

    function GetLockVC(m: Lock): (r: Option<Clock>)
      reads this, threadVC
      requires Valid()
      ensures r.Some? <==> m in lockVC
      ensures r.Some? ==> r.value == lockVC[m] && |r.value| == n
    {
      if m in lockVC then Some(lockVC[m]) else None
    }

    function GetVariables(): seq<Variable>
      reads this
    {
      variables
    }

    function GetLocks(): seq<Lock>
      reads this
    {
      locks
    }
  }
}

/**
 * The two traces that djit-plus-vc/main.cpp replays on a two-thread
 * analyzer, with the violations each access reports.
 */
module FixedTraces {
  import opened FixedClock
  import opened FixedAnalyzer

  const X := Variable("x")
  const M := Lock("m")

  /** The two thread clocks and the clocks of x and m, in a run on two threads. */
  ghost predicate At(a: Analyzer, t0: Clock, t1: Clock, r: Clock, w: Clock, l: Clock)
    reads a, a.threadVC
  {
    && a.Valid() && a.n == 2
    && a.threadVC[0] == t0 && a.threadVC[1] == t1
    && X in a.readVC && a.readVC[X] == r
    && X in a.writeVC && a.writeVC[X] == w
    && M in a.lockVC && a.lockVC[M] == l
  }

  /** Two threads, x and m registered: every clock of x and m is zero. */
  method Registered() returns (a: Analyzer)
    ensures fresh(a) && fresh(a.threadVC)
    ensures At(a, [1, 0], [0, 1], [0, 0], [0, 0], [0, 0])
  {
    a := new Analyzer(2);
    a.RegisterVariable(X);
    a.RegisterLock(M);
    assert InitialClock(2, 0) == [1, 0] && InitialClock(2, 1) == [0, 1];
    assert Zero(2) == [0, 0];
  }

  /** Thread 0 acquires m, which no one has released: its clock stays [1, 0]. */
  method Thread0Acquires(a: Analyzer)
    requires At(a, [1, 0], [0, 1], [0, 0], [0, 0], [0, 0])
    modifies a, a.threadVC
    ensures At(a, [1, 0], [0, 1], [0, 0], [0, 0], [0, 0])
  {
    assert Merge([1, 0], [0, 0]) == [1, 0];
    a.Acquire(0, M);
  }

  /** Thread 0 reads x, which no one has written: not reported. */
  method Thread0Reads(a: Analyzer) returns (rd: bool)
    requires At(a, [1, 0], [0, 1], [0, 0], [0, 0], [0, 0])
    modifies a
    ensures At(a, [1, 0], [0, 1], [1, 0], [0, 0], [0, 0]) && !rd
  {
    rd := a.Read(0, X);
  }

  /** Thread 0 writes x after its own read: not reported. */
  method Thread0Writes(a: Analyzer) returns (wr: bool)
    requires At(a, [1, 0], [0, 1], [1, 0], [0, 0], [0, 0])
    modifies a
    ensures At(a, [1, 0], [0, 1], [1, 0], [1, 0], [0, 0]) && !wr
  {
    wr := a.Write(0, X);
    assert a.writeVC[X] == [1, 0];
  }

  /** Thread 0 releases m: its time advances to 2 and m keeps [2, 0]. */
  method Thread0Releases(a: Analyzer)
    requires At(a, [1, 0], [0, 1], [1, 0], [1, 0], [0, 0])
    modifies a, a.threadVC
    ensures At(a, [2, 0], [0, 1], [1, 0], [1, 0], [2, 0])
  {
    a.Release(0, M);
    assert a.threadVC[0] == [2, 0];
  }

  /** Thread 1 acquires m and so learns thread 0's time 2. */
  method Thread1Acquires(a: Analyzer)
    requires At(a, [2, 0], [0, 1], [1, 0], [1, 0], [2, 0])
    modifies a, a.threadVC
    ensures At(a, [2, 0], [2, 1], [1, 0], [1, 0], [2, 0])
  {
    assert Merge([0, 1], [2, 0]) == [2, 1];
    a.Acquire(1, M);
  }

  /** Thread 1 reads x: thread 0's write at time 1 is ordered before it. */
  method Thread1Reads(a: Analyzer) returns (rd: bool)
    requires At(a, [2, 0], [2, 1], [1, 0], [1, 0], [2, 0])
    modifies a
    ensures At(a, [2, 0], [2, 1], [1, 1], [1, 0], [2, 0]) && !rd
  {
    rd := a.Read(1, X);
    assert a.readVC[X] == [1, 1];
  }

  /** Thread 1 writes x: both earlier accesses of thread 0 are ordered before it. */
  method Thread1Writes(a: Analyzer) returns (wr: bool)
    requires At(a, [2, 0], [2, 1], [1, 1], [1, 0], [2, 0])
    modifies a
    ensures At(a, [2, 0], [2, 1], [1, 1], [1, 1], [2, 0]) && !wr
  {
    wr := a.Write(1, X);
    assert a.writeVC[X] == [1, 1];
  }

  /** Thread 1 releases m. */
  method Thread1Releases(a: Analyzer)
    requires At(a, [2, 0], [2, 1], [1, 1], [1, 1], [2, 0])
    modifies a, a.threadVC
    ensures At(a, [2, 0], [2, 2], [1, 1], [1, 1], [2, 2])
  {
    a.Release(1, M);
    assert a.threadVC[1] == [2, 2];
  }

  /**
   * With PROTECT_BY_LOCK: acq0 rd0 wr0 rel0 acq1 rd1 wr1 rel1.  Thread 1's
   * acquire merges in thread 0's release, so no access is reported.
   * The result lists the verdicts of rd0, wr0, rd1, wr1.
   */
  method LockProtectedTrace() returns (reports: seq<bool>)
    ensures reports == [false, false, false, false]
  {
    var a := Registered();
    Thread0Acquires(a);
    var rd0 := Thread0Reads(a);
    var wr0 := Thread0Writes(a);
    Thread0Releases(a);
    Thread1Acquires(a);
    var rd1 := Thread1Reads(a);
    var wr1 := Thread1Writes(a);
    Thread1Releases(a);
    reports := [rd0, wr0, rd1, wr1];
  }

  /** Unprotected, thread 1 reads x after thread 0 did: reads are not checked against reads. */
  method Thread1ReadsToo(a: Analyzer) returns (rd: bool)
    requires At(a, [1, 0], [0, 1], [1, 0], [0, 0], [0, 0])
    modifies a
    ensures At(a, [1, 0], [0, 1], [1, 1], [0, 0], [0, 0]) && !rd
  {
    rd := a.Read(1, X);
    assert a.readVC[X] == [1, 1];
  }

  /** Unprotected, thread 0 writes x: thread 1's read at time 1 is not ordered before it. */
  method Thread0WritesRacing(a: Analyzer) returns (wr: bool)
    requires At(a, [1, 0], [0, 1], [1, 1], [0, 0], [0, 0])
    modifies a
    ensures At(a, [1, 0], [0, 1], [1, 1], [1, 0], [0, 0]) && wr
  {
    wr := a.Write(0, X);
    assert a.writeVC[X] == [1, 0];
  }

  /** Unprotected, thread 1 writes x: thread 0's write at time 1 is not ordered before it. */
  method Thread1WritesRacing(a: Analyzer) returns (wr: bool)
    requires At(a, [1, 0], [0, 1], [1, 1], [1, 0], [0, 0])
    modifies a
    ensures At(a, [1, 0], [0, 1], [1, 1], [1, 1], [0, 0]) && wr
  {
    wr := a.Write(1, X);
    assert a.writeVC[X] == [1, 1];
  }

  /**
   * Without the lock: rd0 rd1 wr0 wr1.  Reads are never checked against
   * reads, so neither read is reported; each write meets the other
   * thread's unordered access, so both writes are.
   */
  method UnprotectedTrace() returns (reports: seq<bool>)
    ensures reports == [false, false, true, true]
  {
    var a := Registered();
    var rd0 := Thread0Reads(a);
    var rd1 := Thread1ReadsToo(a);
    var wr0 := Thread0WritesRacing(a);
    var wr1 := Thread1WritesRacing(a);
    reports := [rd0, rd1, wr0, wr1];
  }
}
