/**
 * The heap-bounds checker of pintools/Overflow/Overflow.cpp: every block
 * that malloc returns once main has started is recorded, and a memory
 * access is out of bounds when no recorded block covers its address.
 */
module Overflow {

  /** A block returned by malloc: its start address and the size asked for. */
  datatype HeapObject = HeapObject(addr: nat, size: nat)

  /** The block covers the byte at memAddr: `addr <= memAddr < addr + size`. */
  predicate Covers(obj: HeapObject, memAddr: nat)
  {
    obj.addr <= memAddr < obj.addr + obj.size
  }

  /** Some recorded block covers memAddr. */
  predicate InBounds(objs: seq<HeapObject>, memAddr: nat)
  {
    exists i :: 0 <= i < |objs| && Covers(objs[i], memAddr)
  }

  /** With no block recorded, every access is out of bounds. */
  lemma NothingRecordedNothingInBounds(memAddr: nat)
    ensures !InBounds([], memAddr)
  {
  }

  /** The upper end is exclusive, and a block of size 0 covers no byte. */
  lemma UpperBoundExclusive(obj: HeapObject, memAddr: nat)
    ensures !Covers(obj, obj.addr + obj.size)
    ensures obj.size == 0 ==> !Covers(obj, memAddr)
    ensures memAddr < obj.addr ==> !Covers(obj, memAddr)
  {
  }

  /** Recording one more block adds exactly the bytes that block covers. */
  lemma {:induction false} InBoundsAppend(objs: seq<HeapObject>, obj: HeapObject, memAddr: nat)
    ensures InBounds(objs + [obj], memAddr) <==> InBounds(objs, memAddr) || Covers(obj, memAddr)
  {
    var s := objs + [obj];
    if InBounds(s, memAddr) {
      var i :| 0 <= i < |s| && Covers(s[i], memAddr);
      if i < |objs| {
        assert s[i] == objs[i];
      } else {
        assert s[i] == obj;
      }
    }
    if InBounds(objs, memAddr) {
      var i :| 0 <= i < |objs| && Covers(objs[i], memAddr);
      assert s[i] == objs[i];
    }
    if Covers(obj, memAddr) {
      assert s[|objs|] == obj;
    }
  }

  /** InBounds asks whether some recorded block, wherever it sits, covers the address. */
  lemma InBoundsMembers(objs: seq<HeapObject>, memAddr: nat)
    ensures InBounds(objs, memAddr) <==> exists obj :: obj in multiset(objs) && Covers(obj, memAddr)
  {
    if InBounds(objs, memAddr) {
      var i :| 0 <= i < |objs| && Covers(objs[i], memAddr);
      assert objs[i] in multiset(objs);
    }
    if exists obj :: obj in multiset(objs) && Covers(obj, memAddr) {
      var obj :| obj in multiset(objs) && Covers(obj, memAddr);
      assert obj in objs;
      var i :| 0 <= i < |objs| && objs[i] == obj;
    }
  }

  /** The verdict does not depend on the order in which the blocks were recorded. */
  lemma InBoundsOrderFree(objs: seq<HeapObject>, reordered: seq<HeapObject>, memAddr: nat)
    requires multiset(objs) == multiset(reordered)
    ensures InBounds(objs, memAddr) <==> InBounds(reordered, memAddr)
  {
    InBoundsMembers(objs, memAddr);
    InBoundsMembers(reordered, memAddr);
  }

  /** The recorded heap blocks (`heap_objs`) and whether main has started (`main_started`). */
  class HeapTracker {
    var heapObjs: seq<HeapObject>
    var mainStarted: bool

    constructor ()
      ensures heapObjs == [] && !mainStarted
    {
      heapObjs := [];
      mainStarted := false;
    }

    /**
     * The bounds test of `CheckOverflow`: scans the blocks in order and
     * stops at the first that covers the address.  It changes nothing.
     */
    method CheckOverflow(memAddr: nat) returns (outOfBound: bool)
      ensures outOfBound <==> !InBounds(heapObjs, memAddr)
    {
      outOfBound := true;
      var i := 0;
      while i < |heapObjs|
        invariant 0 <= i <= |heapObjs|
        invariant forall j :: 0 <= j < i ==> !Covers(heapObjs[j], memAddr)
      {
        if heapObjs[i].addr <= memAddr && memAddr < heapObjs[i].addr + heapObjs[i].size {
          outOfBound := false;
          break;
        }
        i := i + 1;
      }
    }

    /** `OnMainStarted`: from now on, allocations are recorded. */
    method OnMainStarted()
      modifies this
      ensures mainStarted && heapObjs == old(heapObjs)
    {
      mainStarted := true;
    }

    /**
     * The bookkeeping of `JitMalloc` once malloc has returned `ret`: the
     * block is appended only after main has started, and the blocks
     * already recorded are kept as they are.
     */
    method JitMalloc(ret: nat, size: nat)
      modifies this
      ensures old(mainStarted) ==> heapObjs == old(heapObjs) + [HeapObject(ret, size)]
      ensures !old(mainStarted) ==> heapObjs == old(heapObjs)
      ensures mainStarted == old(mainStarted)
    {
      if mainStarted {
        heapObjs := heapObjs + [HeapObject(ret, size)];
      }
    }
  }

  /**
   * A block allocated before main is ignored; a 16-byte block allocated
   * after it covers its own 16 bytes and not the byte just past its end.
   */
  method OverflowTrace() returns (outOfBounds: seq<bool>)
    ensures outOfBounds == [true, false, true]
  {
    var tracker := new HeapTracker();
    tracker.JitMalloc(0x1000, 16);
    tracker.OnMainStarted();
    tracker.JitMalloc(0x2000, 16);
    var beforeMain := tracker.CheckOverflow(0x1000);
    var lastByte := tracker.CheckOverflow(0x200f);
    assert Covers(tracker.heapObjs[0], 0x200f);
    var pastEnd := tracker.CheckOverflow(0x2010);
    outOfBounds := [beforeMain, lastByte, pastEnd];
  }
}
