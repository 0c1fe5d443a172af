/** The bookkeeping behind the C library's free(): the heap is the region
    below the break point, carved into areas, each a header of `h` bytes
    followed by its payload.  Areas in use sit on the used list; released
    areas sit on the free list, which is kept in ascending address order
    with neighbours merged eagerly.  This module states what free() does to
    the lists and the break point as functions on values, and proves the
    free list's invariants about them. */
module FreeList {

  /** sizeof(mallocArea_t): the header holds the list links and the size,
      so it is not empty; its exact value is not part of this model. */
  type HeaderSize = h: nat | 0 < h witness 1

  /** A mallocArea_t: the address of its header and its payload size. */
  datatype Area = Area(addr: nat, size: nat)

  /** The payload address handed out to the caller: just past the header. */
  function Payload(a: Area, h: HeaderSize): nat {
    a.addr + h
  }

  /** One past the last byte of the area. */
  function End(a: Area, h: HeaderSize): nat {
    a.addr + h + a.size
  }

  /** Byte `x` belongs to the area, header included. */
  predicate Within(a: Area, h: HeaderSize, x: int) {
    a.addr <= x < End(a, h)
  }

  predicate Disjoint(a: Area, b: Area, h: HeaderSize) {
    End(a, h) <= b.addr || End(b, h) <= a.addr
  }

  /** The area `y` starts exactly where `x` ends. */
  predicate Touches(x: Area, y: Area, h: HeaderSize) {
    End(x, h) == y.addr
  }

  /** Two touching areas merged into the first: its size grows by the
      second's header and payload. */
  function Join(x: Area, y: Area, h: HeaderSize): (j: Area)
    requires Touches(x, y, h)
    ensures j.addr == x.addr && End(j, h) == End(y, h)
    ensures forall p :: Within(j, h, p) <==> Within(x, h, p) || Within(y, h, p)
  {
    Area(x.addr, x.size + h + y.size)
  }

  // ---------------------------------------------------------------------
  // The free list
  // ---------------------------------------------------------------------

  /** Ascending addresses with a gap between any two areas: sorted, no
      overlap and no two areas physically adjacent. */
  predicate Ordered(list: seq<Area>, h: HeaderSize) {
    forall i, j | 0 <= i < j < |list| :: End(list[i], h) < list[j].addr
  }

  /** Ordered is the same as each area ending strictly before the next one
      starts. */
  lemma {:induction false} OrderedByNeighbours(list: seq<Area>, h: HeaderSize)
    ensures Ordered(list, h) <==> forall i | 0 <= i < |list| - 1 :: End(list[i], h) < list[i + 1].addr
  {
    if |list| > 1 && forall i | 0 <= i < |list| - 1 :: End(list[i], h) < list[i + 1].addr {
      var tail := list[1..];
      assert forall i | 0 <= i < |tail| - 1 :: End(tail[i], h) < tail[i + 1].addr by {
        forall i | 0 <= i < |tail| - 1 ensures End(tail[i], h) < tail[i + 1].addr {
          assert tail[i] == list[i + 1] && tail[i + 1] == list[i + 2];
        }
      }
      OrderedByNeighbours(tail, h);
      forall i, j | 0 <= i < j < |list| ensures End(list[i], h) < list[j].addr {
        if i > 0 {
          assert list[i] == tail[i - 1] && list[j] == tail[j - 1];
        } else if j > 1 {
          assert list[1] == tail[0] && list[j] == tail[j - 1];
        }
      }
    }
  }

  /** The area overlaps no area of the list. */
  predicate Fits(list: seq<Area>, a: Area, h: HeaderSize) {
    forall j | 0 <= j < |list| :: Disjoint(list[j], a, h)
  }

  /** Bytes the areas take up, headers included. */
  function Covered(list: seq<Area>, h: HeaderSize): nat {
    if list == [] then 0 else Covered(list[..|list| - 1], h) + h + list[|list| - 1].size
  }

  lemma {:induction false} CoveredAppend(x: seq<Area>, y: seq<Area>, h: HeaderSize)
    ensures Covered(x + y, h) == Covered(x, h) + Covered(y, h)
    decreases |y|
  {
    if y == [] {
      assert x + y == x;
    } else {
      var y' := y[..|y| - 1];
      assert (x + y)[..|x + y| - 1] == x + y';
      CoveredAppend(x, y', h);
    }
  }

  /** Byte `x` belongs to some area of the list. */
  predicate Covers(list: seq<Area>, h: HeaderSize, x: int) {
    exists j | 0 <= j < |list| :: Within(list[j], h, x)
  }

  lemma CoversAppend(u: seq<Area>, v: seq<Area>, h: HeaderSize)
    ensures forall x :: Covers(u + v, h, x) <==> Covers(u, h, x) || Covers(v, h, x)
  {
    forall x ensures Covers(u + v, h, x) <==> Covers(u, h, x) || Covers(v, h, x) {
      if Covers(u + v, h, x) {
        var j :| 0 <= j < |u + v| && Within((u + v)[j], h, x);
        if j >= |u| {
          assert (u + v)[j] == v[j - |u|];
        } else {
          assert (u + v)[j] == u[j];
        }
      }
      if Covers(u, h, x) {
        var j :| 0 <= j < |u| && Within(u[j], h, x);
        assert (u + v)[j] == u[j];
      }
      if Covers(v, h, x) {
        var j :| 0 <= j < |v| && Within(v[j], h, x);
        assert (u + v)[|u| + j] == v[j];
      }
    }
  }

  lemma CoversOne(a: Area, h: HeaderSize)
    ensures forall x :: Covers([a], h, x) <==> Within(a, h, x)
  {
    assert [a][0] == a;
  }

  // ---------------------------------------------------------------------
  // InsertFreeList
  // ---------------------------------------------------------------------

  /** The search loop of InsertFreeList stops with `list[i]` as the next
      area when the area lies strictly between the area before it (the
      null pointer at the head) and `list[i]`. */
  predicate Stops(list: seq<Area>, a: Area, i: nat)
    requires i < |list|
  {
    (i == 0 || list[i - 1].addr < a.addr) && a.addr < list[i].addr
  }

  function SearchFrom(list: seq<Area>, a: Area, k: nat): (i: nat)
    requires k <= |list|
    ensures k <= i <= |list|
    ensures i < |list| ==> Stops(list, a, i)
    ensures forall j | k <= j < i :: !Stops(list, a, j)
    decreases |list| - k
  {
    if k == |list| then k
    else if Stops(list, a, k) then k
    else SearchFrom(list, a, k + 1)
  }

  /** Where the search loop stops: the first stopping place, or the end of
      the list (the previous area is then the last one). */
  function InsertPosition(list: seq<Area>, a: Area): (i: nat)
    ensures i <= |list|
    ensures i < |list| ==> Stops(list, a, i)
    ensures forall j | 0 <= j < i :: !Stops(list, a, j)
  {
    SearchFrom(list, a, 0)
  }

  /** The free list after InsertFreeList(a): the next area is merged into
      `a` when `a` ends where it starts; then `a` is merged into the
      previous area when that ends where `a` starts, and otherwise linked
      in between the two. */
  function InsertFree(list: seq<Area>, a: Area, h: HeaderSize): (r: seq<Area>)
    ensures |list| - 1 <= |r| <= |list| + 1
  {
    var i := InsertPosition(list, a);
    var mergeNext := i < |list| && Touches(a, list[i], h);
    var area := if mergeNext then Join(a, list[i], h) else a;
    var rest := if mergeNext then list[i + 1..] else list[i..];
    if i > 0 && Touches(list[i - 1], a, h) then
      list[..i - 1] + [Join(list[i - 1], area, h)] + rest
    else
      list[..i] + [area] + rest
  }

  /** On an ordered list that `a` does not overlap, the search stops just
      past the areas below `a`. */
  lemma InsertPositionSplits(list: seq<Area>, a: Area, h: HeaderSize)
    requires Ordered(list, h) && Fits(list, a, h)
    ensures var i := InsertPosition(list, a);
            && (forall j | 0 <= j < i :: End(list[j], h) <= a.addr)
            && (forall j | i <= j < |list| :: End(a, h) <= list[j].addr)
  {
    var i := InsertPosition(list, a);
    BelowPosition(list, a, h, i);
    forall j | i <= j < |list| ensures End(a, h) <= list[j].addr {
      assert Stops(list, a, i);
      assert list[i].addr <= list[j].addr;
      assert Disjoint(list[j], a, h);
    }
  }

  lemma {:induction false} BelowPosition(list: seq<Area>, a: Area, h: HeaderSize, k: nat)
    requires Ordered(list, h) && Fits(list, a, h) && k <= InsertPosition(list, a)
    ensures forall j | 0 <= j < k :: End(list[j], h) <= a.addr
  {
    if k > 0 {
      BelowPosition(list, a, h, k - 1);
      assert !Stops(list, a, k - 1);
      assert Disjoint(list[k - 1], a, h);
    }
  }

  /** Splicing an area between two ordered runs that it separates keeps the
      list ordered. */
  lemma OrderedSplice(pre: seq<Area>, m: Area, post: seq<Area>, h: HeaderSize)
    requires Ordered(pre, h) && Ordered(post, h)
    requires forall j | 0 <= j < |pre| :: End(pre[j], h) < m.addr
    requires forall j | 0 <= j < |post| :: End(m, h) < post[j].addr
    ensures Ordered(pre + [m] + post, h)
  {
    var r := pre + [m] + post;
    forall i, j | 0 <= i < j < |r| ensures End(r[i], h) < r[j].addr {
      if j < |pre| {
        assert r[i] == pre[i] && r[j] == pre[j];
      } else if j == |pre| {
        assert r[i] == pre[i];
      } else if i > |pre| {
        assert r[i] == post[i - |pre| - 1] && r[j] == post[j - |pre| - 1];
      } else if i == |pre| {
        assert r[j] == post[j - |pre| - 1];
      } else {
        assert r[i] == pre[i] && r[j] == post[j - |pre| - 1];
        assert End(pre[i], h) < m.addr <= End(m, h);
      }
    }
  }

  /** The free list stays sorted with no two areas adjacent: the merges
      close exactly the gaps `a` would leave at zero. */
  lemma InsertFreeOrdered(list: seq<Area>, a: Area, h: HeaderSize)
    requires Ordered(list, h) && Fits(list, a, h)
    ensures Ordered(InsertFree(list, a, h), h)
  {
    var i := InsertPosition(list, a);
    InsertPositionSplits(list, a, h);
    var mergeNext := i < |list| && Touches(a, list[i], h);
    var area := if mergeNext then Join(a, list[i], h) else a;
    var rest := if mergeNext then list[i + 1..] else list[i..];
    AboveInsert(list, a, h, i, mergeNext, area, rest);
    assert area.addr == a.addr;
    if i > 0 && Touches(list[i - 1], a, h) {
      OrderedMergedBelow(list, h, i, area, rest);
    } else {
      OrderedAlone(list, a, h, i, area, rest);
    }
  }

  /** Merging into the area just below the insert position keeps the list
      ordered. */
  lemma OrderedMergedBelow(list: seq<Area>, h: HeaderSize, i: nat, area: Area, rest: seq<Area>)
    requires Ordered(list, h) && 0 < i <= |list| && Touches(list[i - 1], area, h)
    requires Ordered(rest, h) && forall j | 0 <= j < |rest| :: End(area, h) < rest[j].addr
    ensures Ordered(list[..i - 1] + [Join(list[i - 1], area, h)] + rest, h)
  {
    BelowPrevious(list, h, i - 1);
    OrderedSpliceJoined(list[..i - 1], list[i - 1], area, rest, h);
  }

  /** Linking the area in after the areas below it, with no merge into the
      one just below, keeps the list ordered. */
  lemma OrderedAlone(list: seq<Area>, a: Area, h: HeaderSize, i: nat, area: Area, rest: seq<Area>)
    requires Ordered(list, h) && i <= |list| && area.addr == a.addr
    requires forall j | 0 <= j < i :: End(list[j], h) <= a.addr
    requires !(i > 0 && Touches(list[i - 1], a, h))
    requires Ordered(rest, h) && forall j | 0 <= j < |rest| :: End(area, h) < rest[j].addr
    ensures Ordered(list[..i] + [area] + rest, h)
  {
    BelowInsert(list, a, h, i);
    OrderedSplice(list[..i], area, rest, h);
  }

  /** Merging into the previous area keeps the list ordered: the merged
      area starts where the previous one did and ends where `area` does. */
  lemma OrderedSpliceJoined(pre: seq<Area>, p: Area, area: Area, post: seq<Area>, h: HeaderSize)
    requires Ordered(pre, h) && Ordered(post, h) && Touches(p, area, h)
    requires forall j | 0 <= j < |pre| :: End(pre[j], h) < p.addr
    requires forall j | 0 <= j < |post| :: End(area, h) < post[j].addr
    ensures Ordered(pre + [Join(p, area, h)] + post, h)
  {
    OrderedSplice(pre, Join(p, area, h), post, h);
  }

  /** What follows the inserted area lies strictly above it. */
  lemma AboveInsert(list: seq<Area>, a: Area, h: HeaderSize, i: nat, mergeNext: bool, area: Area, rest: seq<Area>)
    requires Ordered(list, h) && i <= |list|
    requires forall j | i <= j < |list| :: End(a, h) <= list[j].addr
    requires mergeNext == (i < |list| && Touches(a, list[i], h))
    requires area == if mergeNext then Join(a, list[i], h) else a
    requires rest == if mergeNext then list[i + 1..] else list[i..]
    ensures Ordered(rest, h)
    ensures forall j | 0 <= j < |rest| :: End(area, h) < rest[j].addr
  {
    forall j | 0 <= j < |rest| ensures End(area, h) < rest[j].addr {
      if mergeNext {
        assert rest[j] == list[i + 1 + j];
      } else {
        assert rest[j] == list[i + j] && End(a, h) <= list[i + j].addr;
        if j > 0 {
          assert End(a, h) <= list[i].addr <= End(list[i], h) < list[i + j].addr;
        }
      }
    }
  }

  /** The areas before list[k] lie strictly below it. */
  lemma BelowPrevious(list: seq<Area>, h: HeaderSize, k: nat)
    requires Ordered(list, h) && k < |list|
    ensures Ordered(list[..k], h)
    ensures forall j | 0 <= j < k :: End(list[..k][j], h) < list[k].addr
  {
  }

  /** Without a merge into the previous area, the areas before the insert
      position lie strictly below `a`. */
  lemma BelowInsert(list: seq<Area>, a: Area, h: HeaderSize, i: nat)
    requires Ordered(list, h) && i <= |list|
    requires forall j | 0 <= j < i :: End(list[j], h) <= a.addr
    requires !(i > 0 && Touches(list[i - 1], a, h))
    ensures Ordered(list[..i], h)
    ensures forall j | 0 <= j < i :: End(list[..i][j], h) < a.addr
  {
    forall j | 0 <= j < i ensures End(list[..i][j], h) < a.addr {
      if j < i - 1 {
        assert End(list[j], h) < list[i - 1].addr <= End(list[i - 1], h);
      }
    }
  }

  /** The list takes up exactly the freed area's bytes more, headers
      included, whatever merges happen. */
  lemma InsertFreeCovered(list: seq<Area>, a: Area, h: HeaderSize)
    ensures Covered(InsertFree(list, a, h), h) == Covered(list, h) + h + a.size
  {
    var i := InsertPosition(list, a);
    var mergeNext := i < |list| && Touches(a, list[i], h);
    var area := if mergeNext then Join(a, list[i], h) else a;
    var rest := if mergeNext then list[i + 1..] else list[i..];
    var mid := if mergeNext then [list[i]] else [];
    SplitAround(list, i, mergeNext, mid, rest);
    CoveredOne(a, h);
    if mergeNext {
      CoveredOne(list[i], h);
      CoveredOne(area, h);
    }
    assert Covered([area], h) == Covered(mid, h) + h + a.size;
    if i > 0 && Touches(list[i - 1], a, h) {
      var p := list[i - 1];
      CutBefore(list, i, mid, rest);
      CoveredOne(p, h);
      CoveredOne(Join(p, area, h), h);
      CoveredAppend([p], mid, h);
      CoveredReplace(list[..i - 1], [p] + mid, rest, Join(p, area, h), h);
    } else {
      CoveredReplace(list[..i], mid, rest, area, h);
    }
  }

  lemma CoveredOne(a: Area, h: HeaderSize)
    ensures Covered([a], h) == h + a.size
  {
    assert [a][..0] == [];
  }

  /** Replacing a run of areas by one area changes the total by the
      difference. */
  lemma CoveredReplace(pre: seq<Area>, run: seq<Area>, post: seq<Area>, m: Area, h: HeaderSize)
    ensures Covered(pre + [m] + post, h) + Covered(run, h) == Covered(pre + run + post, h) + Covered([m], h)
  {
    CoveredAppend(pre + [m], post, h);
    CoveredAppend(pre, [m], h);
    CoveredAppend(pre + run, post, h);
    CoveredAppend(pre, run, h);
  }

  /** The list covers exactly the bytes it covered plus the freed area's:
      merging moves no byte. */
  lemma InsertFreeBytes(list: seq<Area>, a: Area, h: HeaderSize)
    ensures forall x :: Covers(InsertFree(list, a, h), h, x) <==> Covers(list, h, x) || Within(a, h, x)
  {
    var i := InsertPosition(list, a);
    var mergeNext := i < |list| && Touches(a, list[i], h);
    var area := if mergeNext then Join(a, list[i], h) else a;
    var rest := if mergeNext then list[i + 1..] else list[i..];
    var mid := if mergeNext then [list[i]] else [];
    SplitAround(list, i, mergeNext, mid, rest);
    CoversOne(a, h);
    CoversOne(area, h);
    if mergeNext {
      CoversOne(list[i], h);
    }
    assert forall x :: Covers([area], h, x) <==> Covers(mid, h, x) || Within(a, h, x);
    if i > 0 && Touches(list[i - 1], a, h) {
      var p := list[i - 1];
      CutBefore(list, i, mid, rest);
      CoversOne(p, h);
      CoversOne(Join(p, area, h), h);
      CoversAppend([p], mid, h);
      CoversReplace(list[..i - 1], [p] + mid, rest, Join(p, area, h), h);
    } else {
      CoversReplace(list[..i], mid, rest, area, h);
    }
  }

  /** The list cut around the insert position: what lies before it, the
      next area when it is merged, and the rest. */
  lemma SplitAround(list: seq<Area>, i: nat, mergeNext: bool, mid: seq<Area>, rest: seq<Area>)
    requires i <= |list| && (mergeNext ==> i < |list|)
    requires mid == (if mergeNext then [list[i]] else [])
    requires rest == (if mergeNext then list[i + 1..] else list[i..])
    ensures list == list[..i] + mid + rest
  {
    var tail := list[i..];
    assert tail == mid + rest by {
      if mergeNext {
        assert tail == [list[i]] + list[i + 1..];
      } else {
        assert mid + rest == rest;
      }
    }
    assert list == list[..i] + tail;
    assert list[..i] + (mid + rest) == list[..i] + mid + rest;
  }

  /** Cutting one position earlier moves the last area before the cut into
      the middle run. */
  lemma CutBefore(list: seq<Area>, i: nat, mid: seq<Area>, rest: seq<Area>)
    requires 0 < i <= |list| && list == list[..i] + mid + rest
    ensures list == list[..i - 1] + ([list[i - 1]] + mid) + rest
  {
    var x, y := list[..i - 1], [list[i - 1]];
    assert list[..i] == x + y;
    assert (x + y) + mid == x + (y + mid);
  }

  /** Replacing a run of areas by one area changes the bytes covered by
      the run's bytes for the area's. */
  lemma CoversReplace(pre: seq<Area>, run: seq<Area>, post: seq<Area>, m: Area, h: HeaderSize)
    ensures forall x :: Covers(pre + [m] + post, h, x) <==> Covers(pre, h, x) || Covers([m], h, x) || Covers(post, h, x)
    ensures forall x :: Covers(pre + run + post, h, x) <==> Covers(pre, h, x) || Covers(run, h, x) || Covers(post, h, x)
  {
    CoversAppend(pre + [m], post, h);
    CoversAppend(pre, [m], h);
    CoversAppend(pre + run, post, h);
    CoversAppend(pre, run, h);
  }

  /** With no free neighbour touching it, the area is linked in as it is,
      after every area below it and before every area above it. */
  lemma InsertFreeAlone(list: seq<Area>, a: Area, h: HeaderSize)
    requires Ordered(list, h) && Fits(list, a, h)
    requires forall j | 0 <= j < |list| :: !Touches(list[j], a, h) && !Touches(a, list[j], h)
    ensures var i := InsertPosition(list, a);
            && InsertFree(list, a, h) == list[..i] + [a] + list[i..]
            && (forall j | 0 <= j < i :: list[j].addr < a.addr)
            && (forall j | i <= j < |list| :: a.addr < list[j].addr)
  {
    InsertPositionSplits(list, a, h);
  }

  // ---------------------------------------------------------------------
  // Bytes and overlap
  // ---------------------------------------------------------------------

  /** Two areas are disjoint exactly when no byte belongs to both. */
  lemma DisjointBytes(x: Area, y: Area, h: HeaderSize)
    ensures Disjoint(x, y, h) <==> forall p :: !(Within(x, h, p) && Within(y, h, p))
  {
    if !Disjoint(x, y, h) {
      var p := if x.addr < y.addr then y.addr else x.addr;
      assert Within(x, h, p) && Within(y, h, p);
    }
  }

  /** An area fits beside a list exactly when no byte of it is covered by
      the list. */
  lemma FitsBytes(list: seq<Area>, b: Area, h: HeaderSize)
    ensures Fits(list, b, h) <==> forall p :: !(Covers(list, h, p) && Within(b, h, p))
  {
    forall j | 0 <= j < |list| {
      DisjointBytes(list[j], b, h);
    }
  }

  /** Every area of the list ends at or below `top`. */
  predicate Below(list: seq<Area>, h: HeaderSize, top: nat) {
    forall j | 0 <= j < |list| :: End(list[j], h) <= top
  }

  /** A list lies below `top` exactly when each byte it covers does. */
  lemma BelowBytes(list: seq<Area>, h: HeaderSize, top: nat)
    ensures Below(list, h, top) <==> forall p :: Covers(list, h, p) ==> p < top
  {
    if forall p :: Covers(list, h, p) ==> p < top {
      forall j | 0 <= j < |list| ensures End(list[j], h) <= top {
        assert Within(list[j], h, End(list[j], h) - 1);
        assert Covers(list, h, End(list[j], h) - 1);
      }
    }
  }

  /** Inserting a freed area that overlaps nothing: the list still
      overlaps no other area that overlaps neither, and still lies below
      a bound both lie below. */
  lemma InsertFreeKeepsApart(list: seq<Area>, a: Area, b: Area, h: HeaderSize, top: nat)
    ensures Fits(list, b, h) && Disjoint(a, b, h) ==> Fits(InsertFree(list, a, h), b, h)
    ensures Below(list, h, top) && End(a, h) <= top ==> Below(InsertFree(list, a, h), h, top)
  {
    var r := InsertFree(list, a, h);
    InsertFreeBytes(list, a, h);
    FitsBytes(list, b, h);
    FitsBytes(r, b, h);
    DisjointBytes(a, b, h);
    BelowBytes(list, h, top);
    BelowBytes(r, h, top);
  }

  // ---------------------------------------------------------------------
  // free()
  // ---------------------------------------------------------------------

  /** The allocator's state: the used list, the free list and the break
      point. */
  datatype HeapState = HeapState(used: seq<Area>, free: seq<Area>, breakPoint: nat)

  /** The first area of the list whose header is at `addr`, or |list|. */
  function IndexOf(list: seq<Area>, addr: nat): (k: nat)
    ensures k <= |list|
    ensures k < |list| ==> list[k].addr == addr
    ensures forall j | 0 <= j < k :: list[j].addr != addr
  {
    if list == [] then 0
    else if list[0].addr == addr then 0
    else 1 + IndexOf(list[1..], addr)
  }

  /** free() takes the null pointer or the payload of an area in use. */
  predicate Freeable(s: HeapState, h: HeaderSize, ptr: nat) {
    ptr == 0 || (h <= ptr && IndexOf(s.used, ptr - h) < |s.used|)
  }

  /** The state after free(ptr): nothing for the null pointer; otherwise
      the area leaves the used list, and the break point drops below it
      when it is the top-most area, else it goes onto the free list. */
  function Release(s: HeapState, h: HeaderSize, ptr: nat): HeapState
    requires Freeable(s, h, ptr)
  {
    if ptr == 0 then s
    else
      var k := IndexOf(s.used, ptr - h);
      var a := s.used[k];
      var used := s.used[..k] + s.used[k + 1..];
      if s.breakPoint == ptr + a.size then HeapState(used, s.free, s.breakPoint - (h + a.size))
      else HeapState(used, InsertFree(s.free, a, h), s.breakPoint)
  }

  /** The heap's invariant: the free list is ordered, no two areas overlap
      and every area lies below the break point. */
  predicate Valid(s: HeapState, h: HeaderSize) {
    && Ordered(s.free, h)
    && (forall i, j | 0 <= i < j < |s.used| :: Disjoint(s.used[i], s.used[j], h))
    && (forall i | 0 <= i < |s.used| :: Fits(s.free, s.used[i], h))
    && Below(s.used, h, s.breakPoint)
    && Below(s.free, h, s.breakPoint)
  }

  /** free() keeps the heap valid. */
  lemma ReleaseValid(s: HeapState, h: HeaderSize, ptr: nat)
    requires Valid(s, h) && Freeable(s, h, ptr)
    ensures Valid(Release(s, h, ptr), h)
  {
    if ptr != 0 {
      var k := IndexOf(s.used, ptr - h);
      var a := s.used[k];
      var used := s.used[..k] + s.used[k + 1..];
      var r := Release(s, h, ptr);
      assert r.used == used;
      RemovePairwise(s.used, k, h);
      forall i | 0 <= i < |used| ensures Disjoint(used[i], a, h) && exists j :: 0 <= j < |s.used| && used[i] == s.used[j] && j != k {
        if i < k {
          assert used[i] == s.used[i];
        } else {
          assert used[i] == s.used[i + 1];
        }
      }
      if s.breakPoint == ptr + a.size {
        assert r.breakPoint == a.addr;
        forall i | 0 <= i < |used| ensures End(used[i], h) <= a.addr {
          assert Disjoint(used[i], a, h);
        }
        forall j | 0 <= j < |s.free| ensures End(s.free[j], h) <= a.addr {
          assert Disjoint(s.free[j], a, h);
        }
      } else {
        assert Fits(s.free, a, h);
        InsertFreeOrdered(s.free, a, h);
        InsertFreeKeepsApart(s.free, a, a, h, s.breakPoint);
        forall i | 0 <= i < |used| ensures Fits(r.free, used[i], h) {
          InsertFreeKeepsApart(s.free, a, used[i], h, s.breakPoint);
        }
      }
    }
  }

  /** The used areas other than the k-th stay pairwise disjoint. */
  lemma RemovePairwise(list: seq<Area>, k: nat, h: HeaderSize)
    requires k < |list|
    requires forall i, j | 0 <= i < j < |list| :: Disjoint(list[i], list[j], h)
    ensures var rest := list[..k] + list[k + 1..];
            forall i, j | 0 <= i < j < |rest| :: Disjoint(rest[i], rest[j], h)
  {
    var rest := list[..k] + list[k + 1..];
    forall i, j | 0 <= i < j < |rest| ensures Disjoint(rest[i], rest[j], h) {
      var i' := if i < k then i else i + 1;
      var j' := if j < k then j else j + 1;
      assert rest[i] == list[i'] && rest[j] == list[j'];
    }
  }

  /** No byte is lost: what leaves the used list is either on the free
      list or above the new break point. */
  lemma ReleaseAccounts(s: HeapState, h: HeaderSize, ptr: nat)
    requires Freeable(s, h, ptr)
    ensures var r := Release(s, h, ptr);
            && r.breakPoint <= s.breakPoint
            && Covered(r.used, h) + Covered(r.free, h) + (s.breakPoint - r.breakPoint)
               == Covered(s.used, h) + Covered(s.free, h)
  {
    if ptr != 0 {
      var k := IndexOf(s.used, ptr - h);
      var a := s.used[k];
      assert s.used == s.used[..k] + [a] + s.used[k + 1..];
      CoveredAppend(s.used[..k] + [a], s.used[k + 1..], h);
      CoveredAppend(s.used[..k], [a], h);
      CoveredAppend(s.used[..k], s.used[k + 1..], h);
      CoveredOne(a, h);
      if s.breakPoint != ptr + a.size {
        InsertFreeCovered(s.free, a, h);
      }
    }
  }

  /** Freeing the only area, which is the top-most one, gives the heap
      back: the break point returns to the base and both lists are
      empty. */
  lemma ReleaseOnlyArea(h: HeaderSize, base: nat)
    ensures var s := HeapState([Area(base, 16)], [], base + h + 16);
            Freeable(s, h, base + h) && Release(s, h, base + h) == HeapState([], [], base)
  {
  }

  /** Two areas A below B: freeing A puts it on the free list and keeps the
      break point; freeing B next lowers the break point to B's header and
      leaves A on the free list, ending exactly at the new break point. */
  lemma ReleaseLowerThenTop(h: HeaderSize, base: nat)
    ensures var a, b := Area(base, 16), Area(base + h + 16, 16);
            var s := HeapState([a, b], [], base + 2 * h + 32);
            && Freeable(s, h, base + h)
            && Release(s, h, base + h) == HeapState([b], [a], base + 2 * h + 32)
            && Freeable(Release(s, h, base + h), h, base + 2 * h + 16)
            && Release(Release(s, h, base + h), h, base + 2 * h + 16) == HeapState([], [a], base + h + 16)
            && End(a, h) == base + h + 16
  {
    var a, b := Area(base, 16), Area(base + h + 16, 16);
    var s := HeapState([a, b], [], base + 2 * h + 32);
    assert IndexOf(s.used, base) == 0;
    assert InsertFree([], a, h) == [a];
    var s1 := HeapState([b], [a], base + 2 * h + 32);
    assert [a, b][1..] == [b];
    assert IndexOf(s1.used, base + h + 16) == 0;
    assert [b][1..] == [];
  }
}
