/**
What the first-fit allocator of kernel/src/allocator/linked_list.rs does to the heap,
as functions on values, and what every run of it guarantees.

A heap is the list of free regions in list order, the live blocks, and the front
padding that was cut off by alignment and never returned. The in-memory linked list
that carries the free regions is in LinkedListAllocator.dfy.
*/
module LinkedListHeap {
  import opened Layouts
  import opened Sequences

  /** `size_of::<ListNode>()` and `align_of::<ListNode>()`. */
  const NODE_SIZE: nat := 16
  const NODE_ALIGN: nat := 8

  datatype Region = Region(addr: nat, size: nat) {
    function End(): nat { addr + size }
    predicate Contains(b: nat) { addr <= b < addr + size }
  }

  /** A live allocation: the pointer handed out, the bytes it occupies, and the layout it was
      asked for. */
  datatype Block = Block(addr: nat, size: nat, layout: Layout) {
    function Extent(): Region { Region(addr, size) }
  }

  datatype Heap = Heap(start: nat, end: nat, free: seq<Region>, live: seq<Block>, leaks: seq<Region>)

  /** How a call to `alloc` ends. */
  datatype Outcome = Panicked | Null | At(addr: nat)

  // ----- layouts -----------------------------------------------------------------------

  datatype Need = Need(size: nat, align: nat)

  /** `size_align`: `None` is the panic of `expect("adjusting alignment failed")`. */
  function SizeAlign(layout: Layout): (r: Option<Need>)
    requires layout.Valid()
    ensures r.None? <==> layout.size + Max(layout.align, NODE_ALIGN) > ISIZE_LIMIT
    ensures r.Some? ==>
              && layout.size <= r.value.size < USIZE_LIMIT && NODE_SIZE <= r.value.size
              && r.value.size % NODE_ALIGN == 0
              && IsPowerOfTwo(r.value.align) && r.value.align == Max(layout.align, NODE_ALIGN)
              && r.value.align % NODE_ALIGN == 0 && r.value.align % layout.align == 0
  {
    var align := Max(layout.align, NODE_ALIGN);
    assert IsPowerOfTwo(NODE_ALIGN);
    if layout.size + align > ISIZE_LIMIT then None
    else
      var padded := AlignUp(layout.size, align);
      PowerOfTwoDivides(NODE_ALIGN, align);
      PowerOfTwoDivides(layout.align, align);
      DividesTrans(padded, align, NODE_ALIGN);
      Some(Need(Max(padded, NODE_SIZE), align))
  }

  function Extents(live: seq<Block>): (r: seq<Region>)
    ensures |r| == |live| && forall i :: 0 <= i < |live| ==> r[i] == live[i].Extent()
  {
    seq(|live|, i requires 0 <= i < |live| => live[i].Extent())
  }

  // ----- first fit ---------------------------------------------------------------------

  datatype Fit = Overflow | Unfit | FitsAt(start: nat)

  /** `alloc_from_region`; `Overflow` is the arithmetic panic inside `align_up`. */
  function FitIn(r: Region, need: Need): (f: Fit)
    requires need.align > 0
    ensures f.FitsAt? ==>
              && r.addr <= f.start < USIZE_LIMIT && f.start % need.align == 0
              && f.start + need.size <= r.End()
              && (f.start + need.size == r.End() || f.start + need.size + NODE_SIZE <= r.End())
  {
    var start := AlignUp(r.addr, need.align);
    if start >= USIZE_LIMIT then Overflow
    else
      var end := start + need.size;
      if end >= USIZE_LIMIT || end > r.End() then Unfit
      else if 0 < r.End() - end < NODE_SIZE then Unfit
      else FitsAt(start)
  }

  /** A region is suitable exactly when the least aligned address in it leaves room for the
      block and leaves over either nothing or enough for a list node. */
  lemma SuitableExact(r: Region, need: Need, s: nat)
    requires need.align > 0
    ensures FitIn(r, need) == FitsAt(s) <==>
              && s % need.align == 0 && r.addr <= s < r.addr + need.align && s + need.size < USIZE_LIMIT
              && (s + need.size == r.End() || s + need.size + NODE_SIZE <= r.End())
  {
    if s % need.align == 0 && r.addr <= s < r.addr + need.align {
      AlignUpUnique(r.addr, need.align, s);
    }
  }

  datatype Scan = NoFit | ScanOverflow | Found(index: nat, start: nat)

  function ScanFree(free: seq<Region>, need: Need): (s: Scan)
    requires need.align > 0
    ensures s.Found? ==> s.index < |free| && FitIn(free[s.index], need) == FitsAt(s.start)
  {
    if free == [] then NoFit
    else
      match FitIn(free[0], need)
      case Overflow => ScanOverflow
      case FitsAt(start) => Found(0, start)
      case Unfit =>
        match ScanFree(free[1..], need)
        case Found(i, start) => Found(i + 1, start)
        case other => other
  }

  ghost predicate NoneFits(free: seq<Region>, need: Need)
    requires need.align > 0
  {
    forall k :: 0 <= k < |free| ==> FitIn(free[k], need).Unfit?
  }

  /** First fit, exactly: the scan fails when no region is suitable, and otherwise stops at
      the first region in list order that is not unsuitable. */
  lemma {:induction false} FirstFitExact(free: seq<Region>, need: Need)
    requires need.align > 0
    ensures ScanFree(free, need).NoFit? <==> NoneFits(free, need)
    ensures ScanFree(free, need).Found? ==> NoneFits(free[..ScanFree(free, need).index], need)
    ensures ScanFree(free, need).ScanOverflow? <==>
              exists i: nat :: i < |free| && FitIn(free[i], need).Overflow? && NoneFits(free[..i], need)
    decreases |free|, 1
  {
    if free != [] {
      if FitIn(free[0], need).Overflow? {
        assert NoneFits(free[..0], need);
      } else if FitIn(free[0], need).Unfit? {
        FirstFitTail(free, need);
      }
    }
  }

  lemma FirstFitTail(free: seq<Region>, need: Need)
    requires need.align > 0 && free != [] && FitIn(free[0], need).Unfit?
    ensures ScanFree(free, need).NoFit? <==> NoneFits(free, need)
    ensures ScanFree(free, need).Found? ==> NoneFits(free[..ScanFree(free, need).index], need)
    ensures ScanFree(free, need).ScanOverflow? <==>
              exists i: nat :: i < |free| && FitIn(free[i], need).Overflow? && NoneFits(free[..i], need)
    decreases |free|, 0
  {
    var tail := free[1..];
    FirstFitExact(tail, need);
    assert free == [free[0]] + tail;
    forall i: nat | i <= |tail| ensures NoneFits(free[..i + 1], need) <==> NoneFits(tail[..i], need) {
      assert free[..i + 1] == [free[0]] + tail[..i];
      NoneFitsCons(free[0], tail[..i], need);
    }
    NoneFitsCons(free[0], tail, need);
    match ScanFree(tail, need)
    case Found(i, _) =>
      assert NoneFits(free[..i + 1], need);
    case ScanOverflow =>
      var i: nat :| i < |tail| && FitIn(tail[i], need).Overflow? && NoneFits(tail[..i], need);
      assert free[i + 1] == tail[i] && NoneFits(free[..i + 1], need);
    case NoFit =>
  }

  lemma NoneFitsCons(r: Region, rs: seq<Region>, need: Need)
    requires need.align > 0 && FitIn(r, need).Unfit?
    ensures NoneFits([r] + rs, need) <==> NoneFits(rs, need)
  {
    if NoneFits([r] + rs, need) {
      forall k | 0 <= k < |rs| ensures FitIn(rs[k], need).Unfit? {
        assert ([r] + rs)[k + 1] == rs[k];
      }
    }
  }

  // ----- operations --------------------------------------------------------------------

  function NonEmpty(r: Region): seq<Region> {
    if r.size > 0 then [r] else []
  }

  function Init(start: nat, size: nat): Heap {
    Heap(start, start + size, [Region(start, size)], [], [])
  }

  /** Carve `need` out of the `i`-th free region, at `start`. */
  function Carve(h: Heap, i: nat, start: nat, layout: Layout, need: Need): Heap
    requires i < |h.free| && h.free[i].addr <= start && start + need.size <= h.free[i].End()
  {
    var r := h.free[i];
    var end := start + need.size;
    h.(free := NonEmpty(Region(end, r.End() - end)) + Without(h.free, i),
       live := h.live + [Block(start, need.size, layout)],
       leaks := h.leaks + NonEmpty(Region(r.addr, start - r.addr)))
  }

  function Alloc(h: Heap, layout: Layout): (Heap, Outcome)
    requires layout.Valid()
  {
    match SizeAlign(layout)
    case None => (h, Panicked)
    case Some(need) =>
      match ScanFree(h.free, need)
      case NoFit => (h, Null)
      case ScanOverflow => (h, Panicked)
      case Found(i, start) => (Carve(h, i, start, layout, need), At(start))
  }

  function Dealloc(h: Heap, b: Block): Heap
    requires b in h.live
  {
    h.(free := [b.Extent()] + h.free, live := Without(h.live, IndexOf(h.live, b)))
  }

  datatype Op = AllocOp(layout: Layout) | DeallocOp(block: Block)

  /** One call. A `dealloc` of a block that is not live, or an impossible layout, is no legal
      call and leaves the heap alone. */
  function Step(h: Heap, op: Op): Heap {
    match op
    case AllocOp(layout) => if layout.Valid() then Alloc(h, layout).0 else h
    case DeallocOp(b) => if b in h.live then Dealloc(h, b) else h
  }

  function Exec(h: Heap, ops: seq<Op>): Heap
    decreases |ops|
  {
    if ops == [] then h else Exec(Step(h, ops[0]), ops[1..])
  }

  // ----- who owns a byte ---------------------------------------------------------------

  /** How many of the regions contain byte `b`. */
  function Cover(rs: seq<Region>, b: nat): nat {
    if rs == [] then 0 else (if rs[0].Contains(b) then 1 else 0) + Cover(rs[1..], b)
  }

  function Total(rs: seq<Region>): nat {
    if rs == [] then 0 else rs[0].size + Total(rs[1..])
  }

  lemma {:induction false} CoverConcat(a: seq<Region>, c: seq<Region>, b: nat)
    ensures Cover(a + c, b) == Cover(a, b) + Cover(c, b)
    ensures Total(a + c) == Total(a) + Total(c)
  {
    if a == [] {
      assert a + c == c;
    } else {
      assert (a + c)[1..] == a[1..] + c;
      CoverConcat(a[1..], c, b);
    }
  }

  lemma CoverWithout(rs: seq<Region>, i: nat, b: nat)
    requires i < |rs|
    ensures Cover(rs, b) == Cover(Without(rs, i), b) + (if rs[i].Contains(b) then 1 else 0)
    ensures Total(rs) == Total(Without(rs, i)) + rs[i].size
  {
    assert rs == rs[..i] + ([rs[i]] + rs[i + 1..]);
    CoverConcat(rs[..i], [rs[i]] + rs[i + 1..], b);
    CoverConcat(rs[..i], rs[i + 1..], b);
  }

  lemma {:induction false} CoverAt(rs: seq<Region>, i: nat, b: nat)
    requires i < |rs| && rs[i].Contains(b)
    ensures Cover(rs, b) >= 1
  {
    CoverWithout(rs, i, b);
  }

  lemma CoverTwice(rs: seq<Region>, i: nat, j: nat, b: nat)
    requires i < j < |rs| && rs[i].Contains(b) && rs[j].Contains(b)
    ensures Cover(rs, b) >= 2
  {
    CoverWithout(rs, j, b);
    CoverAt(Without(rs, j), i, b);
  }

  ghost function Owners(h: Heap, b: nat): nat
  {
    Cover(h.free, b) + Cover(Extents(h.live), b) + Cover(h.leaks, b)
  }

  // ----- invariant ---------------------------------------------------------------------

  /** Every byte of the heap belongs to exactly one free region, live block or leak, and no
      byte outside the heap belongs to any. */
  ghost predicate Tiled(h: Heap)
  {
    forall b: nat :: Owners(h, b) == if h.start <= b < h.end then 1 else 0
  }

  predicate FreeOk(r: Region) {
    0 < r.addr && r.addr % NODE_ALIGN == 0 && r.size >= NODE_SIZE && r.End() < USIZE_LIMIT
  }

  predicate LiveOk(b: Block) {
    && 0 < b.addr && b.Extent().End() < USIZE_LIMIT
    && b.layout.Valid() && SizeAlign(b.layout).Some?
    && b.size == SizeAlign(b.layout).value.size
    && b.addr % SizeAlign(b.layout).value.align == 0
  }

  ghost predicate Inv(h: Heap) {
    && h.start <= h.end < USIZE_LIMIT
    && (forall i {:trigger FreeOk(h.free[i])} :: 0 <= i < |h.free| ==> FreeOk(h.free[i]))
    && (forall i {:trigger LiveOk(h.live[i])} :: 0 <= i < |h.live| ==> LiveOk(h.live[i]))
    && (forall i :: 0 <= i < |h.leaks| ==> h.leaks[i].size > 0)
    && Tiled(h)
    && Total(h.free) + Total(Extents(h.live)) + Total(h.leaks) == h.end - h.start
  }

  lemma InitInv(start: nat, size: nat)
    requires 0 < start && start % NODE_ALIGN == 0 && NODE_SIZE <= size && start + size < USIZE_LIMIT
    ensures Inv(Init(start, size))
  {
    var h := Init(start, size);
    assert Extents(h.live) == [];
    forall b: nat ensures Owners(h, b) == if h.start <= b < h.end then 1 else 0 {
      assert Cover([Region(start, size)], b) == if Region(start, size).Contains(b) then 1 else 0;
    }
  }

  lemma ExtentsConcat(a: seq<Block>, c: seq<Block>)
    ensures Extents(a + c) == Extents(a) + Extents(c)
  {
  }

  lemma ExtentsWithout(live: seq<Block>, i: nat)
    requires i < |live|
    ensures Extents(Without(live, i)) == Without(Extents(live), i)
  {
  }

  /** The aligned extent of a carved block is again a legal live block. */
  lemma CarveAligned(h: Heap, i: nat, start: nat, layout: Layout, need: Need)
    requires Inv(h) && layout.Valid() && SizeAlign(layout) == Some(need)
    requires i < |h.free| && FitIn(h.free[i], need) == FitsAt(start)
    ensures LiveOk(Block(start, need.size, layout))
    ensures (start + need.size) % NODE_ALIGN == 0
  {
    assert FreeOk(h.free[i]);
    DividesTrans(start, need.align, NODE_ALIGN);
    DividesSum(start, need.size, NODE_ALIGN);
  }

  lemma CoverOne(r: Region, b: nat)
    ensures Cover([r], b) == (if r.Contains(b) then 1 else 0) && Total([r]) == r.size
    ensures Cover(NonEmpty(r), b) == (if r.Contains(b) then 1 else 0) && Total(NonEmpty(r)) == r.size
  {
    assert Cover([], b) == 0 && Total([]) == 0;
  }

  /** Carving redistributes the bytes of one free region and touches no other byte. */
  lemma CarveOwners(h: Heap, i: nat, start: nat, layout: Layout, need: Need, b: nat)
    requires i < |h.free| && h.free[i].addr <= start && start + need.size <= h.free[i].End()
    ensures var h' := Carve(h, i, start, layout, need);
            && Owners(h', b) == Owners(h, b)
            && Total(h'.free) + Total(Extents(h'.live)) + Total(h'.leaks)
               == Total(h.free) + Total(Extents(h.live)) + Total(h.leaks)
  {
    var r := h.free[i];
    var body := Region(start, need.size);
    var excess := Region(start + need.size, r.End() - (start + need.size));
    var gap := Region(r.addr, start - r.addr);
    ExtentsConcat(h.live, [Block(start, need.size, layout)]);
    assert Extents([Block(start, need.size, layout)]) == [body];
    CoverWithout(h.free, i, b);
    CoverConcat(NonEmpty(excess), Without(h.free, i), b);
    CoverConcat(Extents(h.live), [body], b);
    CoverConcat(h.leaks, NonEmpty(gap), b);
    CoverOne(body, b);
    CoverOne(excess, b);
    CoverOne(gap, b);
  }

  lemma CarvePartsOk(h: Heap, i: nat, start: nat, layout: Layout, need: Need)
    requires Inv(h) && layout.Valid() && SizeAlign(layout) == Some(need)
    requires i < |h.free| && FitIn(h.free[i], need) == FitsAt(start)
    ensures var h' := Carve(h, i, start, layout, need);
            && (forall j {:trigger FreeOk(h'.free[j])} :: 0 <= j < |h'.free| ==> FreeOk(h'.free[j]))
            && (forall j {:trigger LiveOk(h'.live[j])} :: 0 <= j < |h'.live| ==> LiveOk(h'.live[j]))
            && (forall j :: 0 <= j < |h'.leaks| ==> h'.leaks[j].size > 0)
  {
    CarveAligned(h, i, start, layout, need);
    var h' := Carve(h, i, start, layout, need);
    var r := h.free[i];
    assert FreeOk(r);
    var excess := Region(start + need.size, r.End() - (start + need.size));
    var head := NonEmpty(excess);
    forall j | 0 <= j < |h'.free| ensures FreeOk(h'.free[j]) {
      if j < |head| {
        assert h'.free[j] == excess;
      } else {
        var j' := j - |head|;
        assert h'.free[j] == h.free[if j' < i then j' else j' + 1];
      }
    }
  }

  lemma CarveInv(h: Heap, i: nat, start: nat, layout: Layout, need: Need)
    requires Inv(h) && layout.Valid() && SizeAlign(layout) == Some(need)
    requires i < |h.free| && FitIn(h.free[i], need) == FitsAt(start)
    ensures Inv(Carve(h, i, start, layout, need))
  {
    var h' := Carve(h, i, start, layout, need);
    assert Tiled(h') by {
      forall b: nat ensures Owners(h', b) == if h'.start <= b < h'.end then 1 else 0 {
        CarveOwners(h, i, start, layout, need, b);
        assert Owners(h, b) == if h.start <= b < h.end then 1 else 0;
      }
    }
    CarveOwners(h, i, start, layout, need, 0);
    CarvePartsOk(h, i, start, layout, need);
  }

  lemma DeallocInv(h: Heap, b: Block)
    requires Inv(h) && b in h.live
    ensures Inv(Dealloc(h, b))
  {
    var i := IndexOf(h.live, b);
    assert LiveOk(h.live[i]);
    var h' := Dealloc(h, b);
    DividesTrans(b.addr, SizeAlign(b.layout).value.align, NODE_ALIGN);
    ExtentsWithout(h.live, i);
    forall x: nat
      ensures Owners(h', x) == Owners(h, x)
      ensures Total(h'.free) + Total(Extents(h'.live)) == Total(h.free) + Total(Extents(h.live))
    {
      CoverWithout(Extents(h.live), i, x);
      CoverConcat([b.Extent()], h.free, x);
    }
    assert Owners(h', 0) == Owners(h, 0);
    forall x: nat ensures Owners(h', x) == if h'.start <= x < h'.end then 1 else 0 {
      assert Owners(h', x) == Owners(h, x);
    }
  }

  lemma StepInv(h: Heap, op: Op)
    requires Inv(h)
    ensures Inv(Step(h, op)) && Step(h, op).start == h.start && Step(h, op).end == h.end
  {
    match op
    case AllocOp(layout) =>
      if layout.Valid() && SizeAlign(layout).Some? {
        var need := SizeAlign(layout).value;
        match ScanFree(h.free, need)
        case Found(i, start) => CarveInv(h, i, start, layout, need);
        case _ =>
      }
    case DeallocOp(b) =>
      if b in h.live { DeallocInv(h, b); }
  }
}
