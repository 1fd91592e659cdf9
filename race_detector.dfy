/**
 * The race detector of pintools/VectorClock/VectorClock.cpp.  The source
 * keeps its state in globals (thread_vc, read_vc, write_vc, lock_vc,
 * thread_to_id and Fork's static last_id); here they are the fields of one
 * Detector object, so that each analysis session is an instance.  The
 * model applies events one at a time; the source's two locks do not fully
 * serialise the routines.
 */
module RaceDetector {
  import opened SparseClock

  /** ADDRINT: the address of a watched variable or mutex. */
  type Addr = nat
  /** The address of a std::thread object, which identifies a forked thread. */
  type Handle = nat

  /** The clock of a thread seen for the first time: its own time is 1, all others 0. */
  function NewThreadClock(tid: Tid): (c: VC)
    ensures c.Keys == {tid} && c[tid] == 1
  {
    map[tid := 1 as nat]
  }

  /**
   * `thread_vc[tid]` (ThreadVCMap::operator[]): a thread seen for the first
   * time gets the clock {tid: 1}; a known thread's clock is left as it is.
   */
  function WithThread(threads: map<Tid, VC>, tid: Tid): (r: map<Tid, VC>)
    ensures r.Keys == threads.Keys + {tid}
    ensures tid !in threads ==> r[tid] == NewThreadClock(tid)
    ensures forall u :: u in threads ==> r[u] == threads[u]
  {
    if tid in threads then threads else threads[tid := NewThreadClock(tid)]
  }

  /** `clocks[addr]` read through std::map: the stored clock, or the empty clock it inserts. */
  function Entry(clocks: map<Addr, VC>, addr: Addr): (c: VC)
    ensures addr in clocks ==> c == clocks[addr]
    ensures addr !in clocks ==> c == map[]
  {
    if addr in clocks then clocks[addr] else map[]
  }

  /** The map after `clocks[addr]` has been evaluated: an absent entry is now empty. */
  function Touch(clocks: map<Addr, VC>, addr: Addr): (r: map<Addr, VC>)
    ensures r.Keys == clocks.Keys + {addr}
    ensures forall a :: a in clocks ==> r[a] == clocks[a]
    ensures addr !in clocks ==> r[addr] == map[]
  {
    clocks[addr := Entry(clocks, addr)]
  }

  /** Every clock of the table stores positive times only. */
  ghost predicate AllPositive<K>(clocks: map<K, VC>)
  {
    forall k :: k in clocks ==> Positive(clocks[k])
  }

  /**
   * Every thread's clock holds an entry for the thread itself, and no
   * stored time is 0: every time is copied, directly or through merges,
   * from a thread's own time, which starts at 1 and only grows.
   */
  ghost predicate ThreadsConsistent(threads: map<Tid, VC>)
  {
    && (forall u :: u in threads ==> u in threads[u])
    && AllPositive(threads)
  }

  /** The invariant of the detector state: the thread clocks are consistent and every other stored time is positive. */
  ghost predicate Consistent(threads: map<Tid, VC>, readClocks: map<Addr, VC>,
                             writeClocks: map<Addr, VC>, lockClocks: map<Addr, VC>)
  {
    && ThreadsConsistent(threads)
    && AllPositive(readClocks)
    && AllPositive(writeClocks)
    && AllPositive(lockClocks)
  }

  lemma WithThreadConsistent(threads: map<Tid, VC>, tid: Tid)
    requires ThreadsConsistent(threads)
    ensures ThreadsConsistent(WithThread(threads, tid))
  {
  }

  /** Storing a positive clock that holds its thread's own entry keeps the thread clocks consistent. */
  lemma StoreConsistent(threads: map<Tid, VC>, tid: Tid, c: VC)
    requires ThreadsConsistent(threads)
    requires tid in c && Positive(c)
    ensures ThreadsConsistent(threads[tid := c])
  {
  }

  /** `++c[tid]` on a VC: operator[] reads an absent tid as a fresh 0 entry. */
  function Increment(c: VC, tid: Tid): (r: VC)
    ensures r.Keys == c.Keys + {tid}
    ensures r[tid] == Get(c, tid) + 1
    ensures forall u :: u in c && u != tid ==> r[u] == c[u]
  {
    c[tid := Get(c, tid) + 1]
  }

  /** `++c[tid]` never lowers a time. */
  lemma IncrementGrows(c: VC, tid: Tid)
    ensures Leq(c, Increment(c, tid))
  {
  }

  /** `thread_to_id[h]` read through std::map: an unknown handle maps to thread 0. */
  function HandleId(ids: map<Handle, Tid>, h: Handle): (id: Tid)
    ensures h in ids ==> id == ids[h]
    ensures h !in ids ==> id == 0
  {
    if h in ids then ids[h] else 0
  }

  /** A thread clock that absorbs a positive clock keeps the thread clocks consistent. */
  lemma AbsorbConsistent(threads: map<Tid, VC>, tid: Tid, other: VC)
    requires ThreadsConsistent(threads) && Positive(other)
    ensures var before := WithThread(threads, tid);
            ThreadsConsistent(before[tid := Merge(before[tid], other)])
  {
    WithThreadConsistent(threads, tid);
    var before := WithThread(threads, tid);
    MergePositive(before[tid], other);
    StoreConsistent(before, tid, Merge(before[tid], other));
  }

  /**
   * The thread clocks after `Fork` on thread `parent` names its child
   * `child`: both clocks are looked up (and so created when new), the
   * child's absorbs the parent's, then the parent's own time advances.
   */
  function ForkClocks(threads: map<Tid, VC>, parent: Tid, child: Tid): (r: map<Tid, VC>)
    ensures r.Keys == threads.Keys + {parent, child}
  {
    var before := WithThread(WithThread(threads, parent), child);
    var merged := before[child := Merge(before[child], before[parent])];
    merged[parent := Increment(merged[parent], parent)]
  }

  /**
   * After a fork the child's clock is at or above the parent's clock
   * from before the fork, the parent's own time is one higher, and every
   * other thread's clock is unchanged.
   */
  lemma ForkOrders(threads: map<Tid, VC>, parent: Tid, child: Tid)
    ensures var after := ForkClocks(threads, parent, child);
            var p := WithThread(threads, parent)[parent];
            && after.Keys == threads.Keys + {parent, child}
            && Leq(p, after[child])
            && Get(after[parent], parent) == Get(p, parent) + 1
            && forall u :: u in threads && u != parent && u != child ==> after[u] == threads[u]
  {
    var before := WithThread(WithThread(threads, parent), child);
    var p := before[parent];
    var merged := before[child := Merge(before[child], p)];
    if child == parent {
      IncrementGrows(merged[parent], parent);
      LeqTransitive(p, merged[parent], Increment(merged[parent], parent));
    }
  }

  lemma ForkConsistent(threads: map<Tid, VC>, parent: Tid, child: Tid)
    requires ThreadsConsistent(threads)
    ensures ThreadsConsistent(ForkClocks(threads, parent, child))
  {
    WithThreadConsistent(threads, parent);
    WithThreadConsistent(WithThread(threads, parent), child);
    var before := WithThread(WithThread(threads, parent), child);
    var m := Merge(before[child], before[parent]);
    MergePositive(before[child], before[parent]);
    StoreConsistent(before, child, m);
    var merged := before[child := m];
    var t := parent;
    StoreConsistent(merged, t, Increment(merged[t], t));
  }

  /**
   * The thread clocks after `Join` on thread `parent` of the thread `child`:
   * both clocks are looked up, the parent's absorbs the child's, then the
   * child's own time advances.
   */
  function JoinClocks(threads: map<Tid, VC>, parent: Tid, child: Tid): (r: map<Tid, VC>)
    ensures r.Keys == threads.Keys + {parent, child}
  {
    var before := WithThread(WithThread(threads, child), parent);
    var merged := before[parent := Merge(before[parent], before[child])];
    merged[child := Increment(merged[child], child)]
  }

  /**
   * After a join the parent's clock is at or above the child's clock from
   * before the join, the child's own time is one higher, and every other
   * thread's clock is unchanged.
   */
  lemma JoinOrders(threads: map<Tid, VC>, parent: Tid, child: Tid)
    ensures var after := JoinClocks(threads, parent, child);
            var c := WithThread(threads, child)[child];
            && after.Keys == threads.Keys + {parent, child}
            && Leq(c, after[parent])
            && Get(after[child], child) == Get(c, child) + 1
            && forall u :: u in threads && u != parent && u != child ==> after[u] == threads[u]
  {
    var before := WithThread(WithThread(threads, child), parent);
    var c := before[child];
    var merged := before[parent := Merge(before[parent], c)];
    if child == parent {
      IncrementGrows(merged[child], child);
      LeqTransitive(c, merged[child], Increment(merged[child], child));
    }
  }

  lemma JoinConsistent(threads: map<Tid, VC>, parent: Tid, child: Tid)
    requires ThreadsConsistent(threads)
    ensures ThreadsConsistent(JoinClocks(threads, parent, child))
  {
    WithThreadConsistent(threads, child);
    WithThreadConsistent(WithThread(threads, child), parent);
    var before := WithThread(WithThread(threads, child), parent);
    var m := Merge(before[parent], before[child]);
    MergePositive(before[parent], before[child]);
    StoreConsistent(before, parent, m);
    var merged := before[parent := m];
    var t := child;
    StoreConsistent(merged, t, Increment(merged[t], t));
  }

  /**
   * Every clock the detector stores compares the same way under the
   * as-written `VC::operator<=` and under `Leq`: stored times are never 0,
   * so the loop of that operator never dereferences the end iterator.
   */
  lemma StoredClocksCompareSafely(threads: map<Tid, VC>, readClocks: map<Addr, VC>,
                                  writeClocks: map<Addr, VC>, lockClocks: map<Addr, VC>,
                                  addr: Addr, rhs: VC)
    requires Consistent(threads, readClocks, writeClocks, lockClocks)
    ensures addr in readClocks ==> LeqAsWritten(readClocks[addr], rhs) != Undefined
    ensures addr in writeClocks ==> LeqAsWritten(writeClocks[addr], rhs) != Undefined
    ensures addr in lockClocks ==> LeqAsWritten(lockClocks[addr], rhs) != Undefined
  {
    if addr in readClocks {
      LeqAsWrittenDefinedOnPositive(readClocks[addr], rhs);
    }
    if addr in writeClocks {
      LeqAsWrittenDefinedOnPositive(writeClocks[addr], rhs);
    }
    if addr in lockClocks {
      LeqAsWrittenDefinedOnPositive(lockClocks[addr], rhs);
    }
  }

  /** `VC<int>{}`: the clock that knows of no thread. */
  const Empty: VC := map[]

  /** The thread-clock update of `Acquire`, with the merge done by the `|=` loop. */
  method AbsorbThreads(threads: map<Tid, VC>, tid: Tid, other: VC) returns (after: map<Tid, VC>)
    ensures var before := WithThread(threads, tid);
            after == before[tid := Merge(before[tid], other)]
  {
    after := WithThread(threads, tid);
    var merged := MergeInto(after[tid], other);
    after := after[tid := merged];
  }

  /** The thread-clock update of `Fork`, with the merge done by the `|=` loop. */
  method ForkThreads(threads: map<Tid, VC>, parent: Tid, child: Tid) returns (after: map<Tid, VC>)
    ensures after == ForkClocks(threads, parent, child)
  {
    after := WithThread(WithThread(threads, parent), child);
    var merged := MergeInto(after[child], after[parent]);
    after := after[child := merged];
    after := after[parent := Increment(after[parent], parent)];
  }

  /** The thread-clock update of `Join`, with the merge done by the `|=` loop. */
  method JoinThreads(threads: map<Tid, VC>, parent: Tid, child: Tid) returns (after: map<Tid, VC>)
    ensures after == JoinClocks(threads, parent, child)
  {
    after := WithThread(WithThread(threads, child), parent);
    var merged := MergeInto(after[parent], after[child]);
    after := after[parent := merged];
    after := after[child := Increment(after[child], child)];
  }

  /** STT_OBJECT: the ELF symbol type of a data object. */
  const ObjectType: nat := 1

  /** An ELF64 symbol, reduced to the two fields the detector reads: st_info and st_value. */
  datatype Symbol = Symbol(info: nat, value: Addr)

  /** ELF64_ST_TYPE: the low four bits of st_info. */
  function SymbolType(sym: Symbol): (t: nat)
    ensures t < 16
    ensures sym.info == 16 * (sym.info / 16) + t
  {
    sym.info % 16
  }

  /** The addresses of the data objects among the symbols whose names are in `names`. */
  function ObjectAddrs(syms: map<string, Symbol>, names: set<string>): set<Addr>
  {
    set name | name in syms && name in names && SymbolType(syms[name]) == ObjectType :: syms[name].value
  }

  /** The table after each of `addrs` has been assigned a fresh empty clock. */
  function Reset(clocks: map<Addr, VC>, addrs: set<Addr>): (r: map<Addr, VC>)
    ensures r.Keys == clocks.Keys + addrs
    ensures forall a :: a in addrs ==> r[a] == Empty
    ensures forall a :: a in clocks && a !in addrs ==> r[a] == clocks[a]
  {
    map a | a in clocks.Keys + addrs :: if a in addrs then Empty else clocks[a]
  }

  /** Resetting one more address after a set of them is resetting the larger set. */
  lemma ResetOneMore(clocks: map<Addr, VC>, addrs: set<Addr>, a: Addr)
    ensures Reset(clocks, addrs)[a := Empty] == Reset(clocks, addrs + {a})
  {
  }

  /**
   * Taking one more name off the list still to visit adds that symbol's
   * address when it is a watched data object, and nothing otherwise.
   */
  lemma ObjectAddrsStep(syms: map<string, Symbol>, watch: set<string>, todo: set<string>, name: string)
    requires name in todo && name in syms
    ensures ObjectAddrs(syms, watch - (todo - {name})) ==
              if name in watch && SymbolType(syms[name]) == ObjectType
              then ObjectAddrs(syms, watch - todo) + {syms[name].value}
              else ObjectAddrs(syms, watch - todo)
  {
    assert watch - (todo - {name}) == (watch - todo) + (watch * {name});
  }

  /** Reset tables hold only positive times, as the reset clocks are empty. */
  lemma ResetPositive(clocks: map<Addr, VC>, addrs: set<Addr>)
    requires AllPositive(clocks)
    ensures AllPositive(Reset(clocks, addrs))
  {
  }

  /**
   * The symbol loop of `LoadSymbolAddrFromTargetBinary` on the three
   * tables it fills: every data object named in `watchVars` gets empty read
   * and write clocks; every other data object named in `watchLocks` gets an
   * empty lock clock.  Each assignment is of the empty clock, so the order
   * of the symbols does not matter.
   */
  method LoadTables(syms: map<string, Symbol>, watchVars: set<string>, watchLocks: set<string>,
                    r0: map<Addr, VC>, w0: map<Addr, VC>, l0: map<Addr, VC>)
    returns (r: map<Addr, VC>, w: map<Addr, VC>, l: map<Addr, VC>)
    ensures r == Reset(r0, ObjectAddrs(syms, watchVars))
    ensures w == Reset(w0, ObjectAddrs(syms, watchVars))
    ensures l == Reset(l0, ObjectAddrs(syms, watchLocks - watchVars))
  {
    var todo := syms.Keys;
    r, w, l := r0, w0, l0;
    ghost var varAddrs: set<Addr> := {};
    ghost var lockAddrs: set<Addr> := {};
    while todo != {}
      invariant todo <= syms.Keys
      invariant varAddrs == ObjectAddrs(syms, watchVars - todo)
      invariant lockAddrs == ObjectAddrs(syms, watchLocks - watchVars - todo)
      invariant r == Reset(r0, varAddrs)
      invariant w == Reset(w0, varAddrs)
      invariant l == Reset(l0, lockAddrs)
      decreases todo
    {
      var name :| name in todo;
      ObjectAddrsStep(syms, watchVars, todo, name);
      ObjectAddrsStep(syms, watchLocks - watchVars, todo, name);
      var sym := syms[name];
      var isObject := SymbolType(sym) == ObjectType;
      if isObject && name in watchVars {
        ResetOneMore(r0, varAddrs, sym.value);
        ResetOneMore(w0, varAddrs, sym.value);
        r, w := r[sym.value := Empty], w[sym.value := Empty];
        varAddrs := varAddrs + {sym.value};
      } else if isObject && name in watchLocks {
        ResetOneMore(l0, lockAddrs, sym.value);
        l := l[sym.value := Empty];
        lockAddrs := lockAddrs + {sym.value};
      }
      todo := todo - {name};
    }
    assert watchVars - todo == watchVars;
    assert watchLocks - watchVars - todo == watchLocks - watchVars;
  }

  class Detector {
    var threadVC: map<Tid, VC>
    var readVC: map<Addr, VC>
    var writeVC: map<Addr, VC>
    var lockVC: map<Addr, VC>
    var threadToId: map<Handle, Tid>
    var lastId: Tid

    ghost predicate Valid()
      reads this
    {
      Consistent(threadVC, readVC, writeVC, lockVC)
    }

    constructor ()
      ensures Valid()
      ensures threadVC == map[] && readVC == map[] && writeVC == map[] && lockVC == map[]
      ensures threadToId == map[] && lastId == 0
    {
      threadVC, readVC, writeVC, lockVC := map[], map[], map[], map[];
      threadToId, lastId := map[], 0;
    }

    /** `thread_vc[tid]`: creates {tid: 1} for an unseen thread, else returns its clock. */
    method ThreadClock(tid: Tid) returns (c: VC)
      requires Valid()
      modifies this
      ensures Valid()
      ensures threadVC == WithThread(old(threadVC), tid) && c == threadVC[tid]
      ensures tid in old(threadVC) ==> c == old(threadVC)[tid]
      ensures tid !in old(threadVC) ==> c == NewThreadClock(tid)
      ensures readVC == old(readVC) && writeVC == old(writeVC) && lockVC == old(lockVC)
      ensures threadToId == old(threadToId) && lastId == old(lastId)
    {
      if tid !in threadVC {
        threadVC := threadVC[tid := NewThreadClock(tid)];
      }
      c := threadVC[tid];
    }

    /** `Read`: records tid's own time as its last read of addr. */
    method Read(tid: Tid, addr: Addr)
      requires Valid()
      modifies this
      ensures Valid()
      ensures threadVC == WithThread(old(threadVC), tid)
      ensures readVC == old(readVC)[addr := Entry(old(readVC), addr)[tid := threadVC[tid][tid]]]
      ensures writeVC == old(writeVC) && lockVC == old(lockVC)
      ensures threadToId == old(threadToId) && lastId == old(lastId)
    {
      var c := ThreadClock(tid);
      readVC := readVC[addr := Entry(readVC, addr)[tid := c[tid]]];
    }

    /** `Write`: records tid's own time as its last write of addr. */
    method Write(tid: Tid, addr: Addr)
      requires Valid()
      modifies this
      ensures Valid()
      ensures threadVC == WithThread(old(threadVC), tid)
      ensures writeVC == old(writeVC)[addr := Entry(old(writeVC), addr)[tid := threadVC[tid][tid]]]
      ensures readVC == old(readVC) && lockVC == old(lockVC)
      ensures threadToId == old(threadToId) && lastId == old(lastId)
    {
      var c := ThreadClock(tid);
      writeVC := writeVC[addr := Entry(writeVC, addr)[tid := c[tid]]];
    }

    /**
     * `NoRaceForWrite`: the last reads and the last writes of addr are all
     * ordered before tid's clock.  Each std::map lookup inserts what it
     * misses, and `&&` skips the write lookup when the read test fails.
     */
    method NoRaceForWrite(tid: Tid, addr: Addr) returns (noRace: bool)
      requires Valid()
      modifies this
      ensures Valid()
      ensures threadVC == WithThread(old(threadVC), tid)
      ensures readVC == Touch(old(readVC), addr)
      ensures writeVC == if Leq(readVC[addr], threadVC[tid]) then Touch(old(writeVC), addr) else old(writeVC)
      ensures noRace <==> Leq(readVC[addr], threadVC[tid]) && Leq(Entry(old(writeVC), addr), threadVC[tid])
      ensures lockVC == old(lockVC) && threadToId == old(threadToId) && lastId == old(lastId)
    {
      var r := Entry(readVC, addr);
      readVC := readVC[addr := r];
      var c := ThreadClock(tid);
      noRace := LessEq(r, c);
      if noRace {
        var w := Entry(writeVC, addr);
        writeVC := writeVC[addr := w];
        c := ThreadClock(tid);
        noRace := LessEq(w, c);
      }
    }

    /** `NoRaceForRead`: the last writes of addr are all ordered before tid's clock. */
    method NoRaceForRead(tid: Tid, addr: Addr) returns (noRace: bool)
      requires Valid()
      modifies this
      ensures Valid()
      ensures threadVC == WithThread(old(threadVC), tid)
      ensures writeVC == Touch(old(writeVC), addr)
      ensures noRace <==> Leq(writeVC[addr], threadVC[tid])
      ensures readVC == old(readVC) && lockVC == old(lockVC)
      ensures threadToId == old(threadToId) && lastId == old(lastId)
    {
      var w := Entry(writeVC, addr);
      writeVC := writeVC[addr := w];
      var c := ThreadClock(tid);
      noRace := LessEq(w, c);
    }

    /** `Aquire`: tid learns everything the last releaser of the lock knew. */
    method Acquire(tid: Tid, lock: Addr)
      requires Valid()
      modifies this
      ensures Valid()
      ensures lockVC == Touch(old(lockVC), lock)
      ensures var before := WithThread(old(threadVC), tid);
              threadVC == before[tid := Merge(before[tid], lockVC[lock])]
      ensures readVC == old(readVC) && writeVC == old(writeVC)
      ensures threadToId == old(threadToId) && lastId == old(lastId)
    {
      var l := Entry(lockVC, lock);
      AbsorbConsistent(threadVC, tid, l);
      var threads := AbsorbThreads(threadVC, tid, l);
      threadVC, lockVC := threads, lockVC[lock := l];
    }

    /**
     * `Release`: the lock keeps a copy of tid's clock taken BEFORE tid's
     * own time advances by one, so the stored own time is one behind.
     */
    method Release(tid: Tid, lock: Addr)
      requires Valid()
      modifies this
      ensures Valid()
      ensures var before := WithThread(old(threadVC), tid);
              && lockVC == old(lockVC)[lock := before[tid]]
              && threadVC == before[tid := Increment(before[tid], tid)]
      ensures Get(lockVC[lock], tid) + 1 == Get(threadVC[tid], tid)
      ensures readVC == old(readVC) && writeVC == old(writeVC)
      ensures threadToId == old(threadToId) && lastId == old(lastId)
    {
      var threads := WithThread(threadVC, tid);
      var c := threads[tid];
      threadVC, lockVC := threads[tid := Increment(c, tid)], lockVC[lock := c];
    }

    /**
     * `Fork`: the child gets the next id, recorded for its handle; the
     * child's clock absorbs the parent's, then the parent's own time
     * advances by one.
     */
    method Fork(tid: Tid, threadObj: Handle)
      requires Valid()
      modifies this
      ensures Valid()
      ensures lastId == old(lastId) + 1
      ensures threadToId == old(threadToId)[threadObj := lastId]
      ensures threadVC == ForkClocks(old(threadVC), tid, lastId)
      ensures readVC == old(readVC) && writeVC == old(writeVC) && lockVC == old(lockVC)
    {
      var id: Tid := lastId + 1;
      ForkConsistent(threadVC, tid, id);
      var threads := ForkThreads(threadVC, tid, id);
      threadVC, threadToId, lastId := threads, threadToId[threadObj := id], id;
    }

    /**
     * `Join`: the parent's clock absorbs the child's, then the child's own
     * time advances by one.  An unknown handle resolves to thread 0, and
     * the lookup records that.
     */
    method Join(tid: Tid, threadObj: Handle)
      requires Valid()
      modifies this
      ensures Valid()
      ensures threadToId == old(threadToId)[threadObj := HandleId(old(threadToId), threadObj)]
      ensures threadVC == JoinClocks(old(threadVC), tid, HandleId(old(threadToId), threadObj))
      ensures readVC == old(readVC) && writeVC == old(writeVC) && lockVC == old(lockVC)
      ensures lastId == old(lastId)
    {
      var id := HandleId(threadToId, threadObj);
      JoinConsistent(threadVC, tid, id);
      var threads := JoinThreads(threadVC, tid, id);
      threadVC, threadToId := threads, threadToId[threadObj := id];
    }

    /**
     * The race check of `CheckOverflow`: an address without a read clock
     * is not watched and nothing changes; a watched write is stamped and
     * tested with NoRaceForWrite, a watched read is stamped and tested with
     * NoRaceForRead, and `race` reports a failed test.
     */
    method CheckAccess(tid: Tid, addr: Addr, isWrite: bool) returns (race: bool)
      requires Valid()
      modifies this
      ensures Valid()
      ensures addr !in old(readVC) ==> !race && threadVC == old(threadVC) && readVC == old(readVC) && writeVC == old(writeVC)
      ensures addr in old(readVC) ==> threadVC == WithThread(old(threadVC), tid)
      ensures addr in old(readVC) && isWrite ==>
                && readVC == old(readVC)
                && writeVC == old(writeVC)[addr := Entry(old(writeVC), addr)[tid := threadVC[tid][tid]]]
                && (race <==> !Leq(readVC[addr], threadVC[tid]) || !Leq(writeVC[addr], threadVC[tid]))
      ensures addr in old(readVC) && !isWrite ==>
                && readVC == old(readVC)[addr := Entry(old(readVC), addr)[tid := threadVC[tid][tid]]]
                && writeVC == Touch(old(writeVC), addr)
                && (race <==> !Leq(writeVC[addr], threadVC[tid]))
      ensures lockVC == old(lockVC) && threadToId == old(threadToId) && lastId == old(lastId)
    {
      if addr !in readVC {
        return false;
      }
      var noRace;
      if isWrite {
        Write(tid, addr);
        noRace := NoRaceForWrite(tid, addr);
      } else {
        Read(tid, addr);
        noRace := NoRaceForRead(tid, addr);
      }
      race := !noRace;
    }

    /** `MutexLockWrapper`: after the lock is taken, a watched mutex is acquired. */
    method OnMutexLock(tid: Tid, lock: Addr)
      requires Valid()
      modifies this
      ensures Valid()
      ensures lock !in old(lockVC) ==> threadVC == old(threadVC)
      ensures lock in old(lockVC) ==>
                var before := WithThread(old(threadVC), tid);
                threadVC == before[tid := Merge(before[tid], old(lockVC)[lock])]
      ensures lockVC == old(lockVC) && readVC == old(readVC) && writeVC == old(writeVC)
      ensures threadToId == old(threadToId) && lastId == old(lastId)
    {
      if lock in lockVC {
        Acquire(tid, lock);
      }
    }

    /** `MutexUnlockWrapper`: before the lock is given up, a watched mutex is released. */
    method OnMutexUnlock(tid: Tid, lock: Addr)
      requires Valid()
      modifies this
      ensures Valid()
      ensures lock !in old(lockVC) ==> threadVC == old(threadVC) && lockVC == old(lockVC)
      ensures lock in old(lockVC) ==>
                var before := WithThread(old(threadVC), tid);
                && lockVC == old(lockVC)[lock := before[tid]]
                && threadVC == before[tid := Increment(before[tid], tid)]
      ensures readVC == old(readVC) && writeVC == old(writeVC)
      ensures threadToId == old(threadToId) && lastId == old(lastId)
    {
      if lock in lockVC {
        Release(tid, lock);
      }
    }

    /**
     * The symbol loop of `LoadSymbolAddrFromTargetBinary`: every data
     * object named in `watchVars` gets empty read and write clocks; every
     * other data object named in `watchLocks` gets an empty lock clock.
     */
    method LoadSymbols(syms: map<string, Symbol>, watchVars: set<string>, watchLocks: set<string>)
      requires Valid()
      modifies this
      ensures Valid()
      ensures readVC == Reset(old(readVC), ObjectAddrs(syms, watchVars))
      ensures writeVC == Reset(old(writeVC), ObjectAddrs(syms, watchVars))
      ensures lockVC == Reset(old(lockVC), ObjectAddrs(syms, watchLocks - watchVars))
      ensures threadVC == old(threadVC) && threadToId == old(threadToId) && lastId == old(lastId)
    {
      var r, w, l := LoadTables(syms, watchVars, watchLocks, readVC, writeVC, lockVC);
      ResetPositive(readVC, ObjectAddrs(syms, watchVars));
      ResetPositive(writeVC, ObjectAddrs(syms, watchVars));
      ResetPositive(lockVC, ObjectAddrs(syms, watchLocks - watchVars));
      readVC, writeVC, lockVC := r, w, l;
    }
  }
}

/**
 * Event sequences as the instrumented program produces them, run through a
 * detector that watches the variable `x` at address 100 and the mutex `m`
 * at address 200.  Thread 0 is the main thread; the std::thread object of
 * the child lives at address 7.
 */
module RaceTraces {
  import opened SparseClock
  import opened RaceDetector

  const X: Addr := 100
  const M: Addr := 200
  const ChildObj: Handle := 7

  /** The first fork of the main thread: the child starts from the main thread's clock. */
  lemma FirstFork()
    ensures ForkClocks(map[], 0, 1) == map[0 := map[0 := 2], 1 := map[0 := 1, 1 := 1]]
  {
    var before := WithThread(WithThread(map[], 0), 1);
    assert before == map[0 := map[0 := 1], 1 := map[1 := 1]];
    var r := Merge(map[1 := 1], map[0 := 1]);
    assert r.Keys == {0, 1};
    assert r == map[0 := 1, 1 := 1];
    assert Increment(map[0 := 1], 0) == map[0 := 2];
  }

  /** The main thread's clock after the first fork absorbs the child's as it was at the fork. */
  lemma MainLearnsChild()
    ensures Merge(map[0 := 2], map[0 := 1, 1 := 1]) == map[0 := 2, 1 := 1]
  {
    var r := Merge(map[0 := 2], map[0 := 1, 1 := 1]);
    assert r.Keys == {0, 1};
  }

  /** After the first fork both threads already have clocks, so the join creates none. */
  lemma BothThreadsKnown()
    ensures var threads := map[0 := map[0 := 2], 1 := map[0 := 1, 1 := 1]];
            WithThread(WithThread(threads, 1), 0) == threads
  {
  }

  /** The child's own time advances when it is joined. */
  lemma ChildAdvances()
    ensures Increment(map[0 := 1, 1 := 1], 1) == map[0 := 1, 1 := 2]
  {
    assert Increment(map[0 := 1, 1 := 1], 1) == map[0 := 1, 1 := 1][1 := 2];
  }

  /** The main thread joins the child after the first fork. */
  lemma JoinAfterFirstFork()
    ensures JoinClocks(map[0 := map[0 := 2], 1 := map[0 := 1, 1 := 1]], 0, 1)
            == map[0 := map[0 := 2, 1 := 1], 1 := map[0 := 1, 1 := 2]]
  {
    BothThreadsKnown();
    MainLearnsChild();
    ChildAdvances();
  }

  /** st_info of a global data object: binding STB_GLOBAL (1) above type STT_OBJECT (1). */
  const GlobalObject: nat := 0x11

  /** st_info of a global function: binding STB_GLOBAL above type STT_FUNC (2). */
  const GlobalFunction: nat := 0x12

  /** A detector after the symbols of the target have been loaded. */
  method Watching() returns (d: Detector)
    ensures fresh(d) && d.Valid()
    ensures d.threadVC == map[] && d.lockVC == map[M := Empty]
    ensures d.readVC == map[X := Empty] && d.writeVC == map[X := Empty]
    ensures d.threadToId == map[] && d.lastId == 0
  {
    d := new Detector();
    var syms := map["x" := Symbol(GlobalObject, X), "m" := Symbol(GlobalObject, M), "main" := Symbol(GlobalFunction, 300)];
    d.LoadSymbols(syms, {"x"}, {"m"});
    assert SymbolType(syms["x"]) == ObjectType && SymbolType(syms["m"]) == ObjectType;
    assert SymbolType(syms["main"]) == 2;
    assert {"m"} - {"x"} == {"m"};
    assert ObjectAddrs(syms, {"x"}) == {X};
    assert ObjectAddrs(syms, {"m"}) == {M};
  }

  /** The main thread has forked its first child, which got id 1. */
  method Forked() returns (d: Detector)
    ensures fresh(d) && d.Valid()
    ensures d.threadVC == map[0 := map[0 := 2], 1 := map[0 := 1, 1 := 1]]
    ensures d.readVC == map[X := Empty] && d.writeVC == map[X := Empty]
    ensures d.lockVC == map[M := Empty]
    ensures d.threadToId == map[ChildObj := 1]
  {
    d := Watching();
    FirstFork();
    d.Fork(0, ChildObj);
  }

  /** In the state right after the first fork, the child writes `x`; no race. */
  method ChildWrites(d: Detector) returns (childWrite: bool)
    requires d.Valid()
    requires d.threadVC == map[0 := map[0 := 2], 1 := map[0 := 1, 1 := 1]]
    requires d.readVC == map[X := Empty] && d.writeVC == map[X := Empty]
    modifies d
    ensures d.Valid() && !childWrite
    ensures d.threadVC == old(d.threadVC)
    ensures d.readVC == map[X := Empty] && d.writeVC == map[X := map[1 := 1]]
    ensures d.lockVC == old(d.lockVC) && d.threadToId == old(d.threadToId) && d.lastId == old(d.lastId)
  {
    childWrite := d.CheckAccess(1, X, true);
    assert Empty[1 := 1] == map[1 := 1];
  }

  /**
   * The child writes `x`, the main thread joins it and then reads `x`:
   * the join orders the write before the read, so neither is a race.
   */
  method ForkJoinTrace() returns (races: seq<bool>)
    ensures races == [false, false]
  {
    var d := Forked();
    var childWrite := ChildWrites(d);
    JoinAfterFirstFork();
    d.Join(0, ChildObj);
    assert d.threadVC[0] == map[0 := 2, 1 := 1];
    var mainRead := d.CheckAccess(0, X, false);
    races := [childWrite, mainRead];
  }

  /** Without the join, the main thread's read of `x` races with the child's write. */
  method MissingJoinTrace() returns (races: seq<bool>)
    ensures races == [false, true]
  {
    var d := Forked();
    var childWrite := ChildWrites(d);
    var mainRead := d.CheckAccess(0, X, false);
    assert Get(d.writeVC[X], 1) == 1 && Get(d.threadVC[0], 1) == 0;
    races := [childWrite, mainRead];
  }

  /** The child, just forked, locks `m`, which nobody has released yet. */
  method ChildLocks() returns (d: Detector)
    ensures fresh(d) && d.Valid()
    ensures d.threadVC == map[0 := map[0 := 2], 1 := map[0 := 1, 1 := 1]]
    ensures d.readVC == map[X := Empty] && d.writeVC == map[X := Empty]
    ensures d.lockVC == map[M := Empty]
  {
    d := Forked();
    MergeEmpty(map[0 := 1, 1 := 1]);
    d.OnMutexLock(1, M);
  }

  /** The child, just forked, writes `x` between locking and unlocking `m`; no race. */
  method ChildWritesLocked() returns (d: Detector, childWrite: bool)
    ensures fresh(d) && d.Valid() && !childWrite
    ensures d.threadVC == map[0 := map[0 := 2], 1 := map[0 := 1, 1 := 2]]
    ensures d.readVC == map[X := Empty] && d.writeVC == map[X := map[1 := 1]]
    ensures d.lockVC == map[M := map[0 := 1, 1 := 1]]
  {
    d := ChildLocks();
    childWrite := ChildWrites(d);
    assert Increment(map[0 := 1, 1 := 1], 1) == map[0 := 1, 1 := 2];
    d.OnMutexUnlock(1, M);
  }

  /**
   * Both threads touch `x` only while holding `m`: the child's unlock and
   * the main thread's lock order the write before the read.
   */
  method LockedTrace() returns (races: seq<bool>)
    ensures races == [false, false]
  {
    var d, childWrite := ChildWritesLocked();
    MainLearnsChild();
    d.OnMutexLock(0, M);
    var mainRead := d.CheckAccess(0, X, false);
    d.OnMutexUnlock(0, M);
    races := [childWrite, mainRead];
  }
}
