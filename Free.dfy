/** free() and InsertFreeList() as they update the allocator's globals in
    place: the used list, the free list and the break point.  The lock
    around the body makes each call one atomic step here. */
module Free {
  import opened FreeList

  /** gUsedList, gFreeList and pgBreakPoint, with the header size. */
  class Heap {
    const h: HeaderSize
    var used: seq<Area>
    var free: seq<Area>
    var breakPoint: nat

    function State(): HeapState
      reads this
    {
      HeapState(used, free, breakPoint)
    }

    predicate Valid()
      reads this
    {
      FreeList.Valid(State(), h)
    }

    /** An empty heap whose break point is at `base`. */
    constructor(h: HeaderSize, base: nat)
      ensures this.h == h && State() == HeapState([], [], base)
      ensures Valid()
    {
      this.h := h;
      used := [];
      free := [];
      breakPoint := base;
    }

    /** free(ptr): nothing for the null pointer; otherwise the area whose
        payload is `ptr` leaves the used list and either gives its bytes
        back by lowering the break point (when it is the top-most area) or
        goes onto the free list. */
    method Free(ptr: nat)
      requires Valid() && Freeable(State(), h, ptr)
      modifies this
      ensures State() == Release(old(State()), h, ptr)
      ensures Valid()
    {
      ghost var s := State();
      ReleaseValid(s, h, ptr);
      if ptr == 0 {
        return;
      }
      var k := IndexOf(used, ptr - h);
      var area := used[k];
      used := used[..k] + used[k + 1..];
      if breakPoint == ptr + area.size {
        breakPoint := breakPoint - (h + area.size);
      } else {
        InsertFreeList(area);
      }
    }

    /** Puts a released area onto the free list in address order, merging
        it with the next and then the previous area where they touch. */
    method InsertFreeList(area: Area)
      modifies this
      ensures free == InsertFree(old(free), area, h)
      ensures used == old(used) && breakPoint == old(breakPoint)
    {
      ghost var list := free;
      // The do-while walk: the next area is free[i] (none once i == |free|)
      // and the previous one free[i - 1] (none at the head).
      var i := 0;
      while i < |free| && !((i == 0 || free[i - 1].addr < area.addr) && area.addr < free[i].addr)
        invariant free == list && i <= |free|
        invariant forall j | 0 <= j < i :: !Stops(free, area, j)
      {
        i := i + 1;
      }
      assert i == InsertPosition(list, area) by {
        var p := InsertPosition(list, area);
        assert i < |list| ==> Stops(list, area, i);
        assert !(i < p) && !(p < i);
      }
      var merged := area;
      if i < |free| {
        if Payload(merged, h) + merged.size == free[i].addr {
          merged := merged.(size := merged.size + h + free[i].size);
          free := free[..i] + free[i + 1..];
        }
      }
      assert free[..i] == list[..i];
      if i > 0 {
        if Payload(free[i - 1], h) + free[i - 1].size == merged.addr {
          free := free[i - 1 := free[i - 1].(size := free[i - 1].size + h + merged.size)];
          return;
        }
        free := free[..i] + [merged] + free[i..];
      } else {
        free := [merged] + free;
      }
    }
  }
}
