/**
Guarantees of the first-fit heap over every run of `alloc` and matching `dealloc`.
*/
module LinkedListRuns {
  import opened Layouts
  import opened Sequences
  import opened LinkedListHeap

  predicate Apart(r: Region, s: Region) {
    r.End() <= s.addr || s.End() <= r.addr
  }

  ghost predicate AllApart(rs: seq<Region>) {
    forall i, j :: 0 <= i < j < |rs| ==> Apart(rs[i], rs[j])
  }

  ghost predicate Inside(h: Heap, rs: seq<Region>) {
    forall i :: 0 <= i < |rs| ==> h.start <= rs[i].addr && rs[i].End() <= h.end
  }

  ghost function Parts(h: Heap): seq<Region>
  {
    h.free + Extents(h.live) + h.leaks
  }

  lemma PartsCover(h: Heap, b: nat)
    ensures Cover(Parts(h), b) == Owners(h, b)
    ensures Total(Parts(h)) == Total(h.free) + Total(Extents(h.live)) + Total(h.leaks)
  {
    CoverConcat(h.free + Extents(h.live), h.leaks, b);
    CoverConcat(h.free, Extents(h.live), b);
  }

  /** Free regions, live blocks and leaks are pairwise disjoint, lie inside the heap, and
      their sizes add up to the heap size. */
  lemma Separation(h: Heap)
    requires Inv(h)
    ensures AllApart(Parts(h)) && Inside(h, Parts(h)) && Total(Parts(h)) == h.end - h.start
  {
    var ps := Parts(h);
    PartsCover(h, 0);
    forall i | 0 <= i < |ps| ensures h.start <= ps[i].addr && ps[i].End() <= h.end {
      PartInside(h, i);
    }
    forall i, j | 0 <= i < j < |ps| ensures Apart(ps[i], ps[j]) {
      PartsApart(h, i, j);
    }
  }

  lemma PartInside(h: Heap, i: nat)
    requires Inv(h) && i < |Parts(h)|
    ensures h.start <= Parts(h)[i].addr && Parts(h)[i].End() <= h.end
  {
    var r := Parts(h)[i];
    PartNonEmpty(h, i);
    CoverAt(Parts(h), i, r.addr);
    CoverAt(Parts(h), i, r.End() - 1);
    PartsCover(h, r.addr);
    PartsCover(h, r.End() - 1);
    assert Owners(h, r.addr) >= 1 && Owners(h, r.End() - 1) >= 1;
  }

  lemma PartsApart(h: Heap, i: nat, j: nat)
    requires Inv(h) && i < j < |Parts(h)|
    ensures Apart(Parts(h)[i], Parts(h)[j])
  {
    var r, s := Parts(h)[i], Parts(h)[j];
    var b := Max(r.addr, s.addr);
    PartNonEmpty(h, i);
    PartNonEmpty(h, j);
    PartsCover(h, b);
    assert Owners(h, b) <= 1;
    if r.Contains(b) && s.Contains(b) {
      CoverTwice(Parts(h), i, j, b);
    }
  }

  lemma PartNonEmpty(h: Heap, i: nat)
    requires Inv(h) && i < |Parts(h)|
    ensures Parts(h)[i].size > 0
  {
    var n, m := |h.free|, |h.live|;
    if i < n {
      assert FreeOk(h.free[i]);
    } else if i < n + m {
      assert LiveOk(h.live[i - n]);
    }
  }

  lemma {:induction false} ExecInv(h: Heap, ops: seq<Op>)
    requires Inv(h)
    ensures Inv(Exec(h, ops)) && Exec(h, ops).start == h.start && Exec(h, ops).end == h.end
    decreases |ops|
  {
    if ops != [] {
      StepInv(h, ops[0]);
      ExecInv(Step(h, ops[0]), ops[1..]);
    }
  }

  /** Heap safety over whole runs: from any 8-aligned heap of at least one node, whatever is
      allocated and freed, the heap stays tiled by disjoint parts inside its bounds. */
  lemma RunSafety(start: nat, size: nat, ops: seq<Op>)
    requires 0 < start && start % NODE_ALIGN == 0 && NODE_SIZE <= size && start + size < USIZE_LIMIT
    ensures var h := Exec(Init(start, size), ops);
            && Inv(h) && h.start == start && h.end == start + size
            && AllApart(Parts(h)) && Inside(h, Parts(h))
            && Total(h.free) + Total(Extents(h.live)) + Total(h.leaks) == size
  {
    InitInv(start, size);
    ExecInv(Init(start, size), ops);
    var h := Exec(Init(start, size), ops);
    Separation(h);
    PartsCover(h, 0);
  }

  /** What the caller gets: an aligned, non-null block of the requested size, inside the heap
      and disjoint from every block that was live, all of which stay live. */
  lemma AllocSound(h: Heap, layout: Layout)
    requires Inv(h) && layout.Valid() && Alloc(h, layout).1.At?
    ensures var (h', r) := Alloc(h, layout);
            && r.addr != 0 && r.addr % layout.align == 0
            && h.start <= r.addr && r.addr + layout.size <= h.end
            && h'.live == h.live + [Block(r.addr, SizeAlign(layout).value.size, layout)]
            && layout.size <= SizeAlign(layout).value.size
            && forall i :: 0 <= i < |h.live| ==>
                 Apart(h.live[i].Extent(), Region(r.addr, SizeAlign(layout).value.size))
  {
    var (h', r) := Alloc(h, layout);
    var m := |h.live|;
    StepInv(h, AllocOp(layout));
    LiveApart(h', m);
    assert forall i :: 0 <= i < m ==> h'.live[i] == h.live[i];
    var need := SizeAlign(layout).value;
    assert LiveOk(h'.live[m]);
    DividesTrans(r.addr, need.align, layout.align);
  }

  lemma LiveApart(h: Heap, j: nat)
    requires Inv(h) && j < |h.live|
    ensures h.start <= h.live[j].addr && h.live[j].Extent().End() <= h.end
    ensures forall i :: 0 <= i < j ==> Apart(h.live[i].Extent(), h.live[j].Extent())
  {
    var n := |h.free|;
    PartInside(h, n + j);
    assert Parts(h)[n + j] == h.live[j].Extent();
    forall i | 0 <= i < j ensures Apart(h.live[i].Extent(), h.live[j].Extent()) {
      PartsApart(h, n + i, n + j);
      assert Parts(h)[n + i] == h.live[i].Extent();
    }
  }

  /** Exactly when `alloc` returns null or panics. */
  lemma FailureExact(h: Heap, layout: Layout)
    requires Inv(h) && layout.Valid()
    ensures Alloc(h, layout).1.Panicked? <==>
              || layout.size + Max(layout.align, NODE_ALIGN) > ISIZE_LIMIT
              || exists i: nat :: i < |h.free| && h.free[i].addr > USIZE_LIMIT - Max(layout.align, NODE_ALIGN)
                                  && NoneFits(h.free[..i], SizeAlign(layout).value)
    ensures Alloc(h, layout).1.Null? <==> SizeAlign(layout).Some? && NoneFits(h.free, SizeAlign(layout).value)
  {
    if SizeAlign(layout).Some? {
      var need := SizeAlign(layout).value;
      FirstFitExact(h.free, need);
      forall i: nat | i < |h.free|
        ensures FitIn(h.free[i], need).Overflow? <==> h.free[i].addr > USIZE_LIMIT - need.align
      {
        AlignUpOverflow(h.free[i].addr, need.align);
      }
    }
  }

  /** A heap in the lower half of the address space, such as the kernel's, never overflows: the
      only panic left is a layout too large to be padded. */
  lemma LowHeapPanicsOnlyOnSize(h: Heap, layout: Layout)
    requires Inv(h) && layout.Valid() && h.end <= ISIZE_LIMIT
    ensures Alloc(h, layout).1.Panicked? <==> layout.size + Max(layout.align, NODE_ALIGN) > ISIZE_LIMIT
  {
    FailureExact(h, layout);
    Separation(h);
    forall i: nat | i < |h.free| ensures h.free[i].addr <= ISIZE_LIMIT {
      assert Parts(h)[i] == h.free[i];
    }
  }

  /** Overflow does happen on a heap that reaches into the last bytes of the address space. */
  lemma HighHeapOverflows()
    ensures var h := Init(USIZE_LIMIT - 0x2008, 0x1000);
            Inv(h) && Alloc(h, Layout(16, 0x4000)).1.Panicked?
  {
    InitInv(USIZE_LIMIT - 0x2008, 0x1000);
    assert IsPowerOfTwo(0x100) && IsPowerOfTwo(0x4000);
    var h := Init(USIZE_LIMIT - 0x2008, 0x1000);
    assert NoneFits(h.free[..0], SizeAlign(Layout(16, 0x4000)).value);
    FailureExact(h, Layout(16, 0x4000));
  }

  // ----- leaks -------------------------------------------------------------------------

  /** An allocation leaks exactly the gap in front of the block; a `dealloc` leaks nothing. */
  lemma LeakExact(h: Heap, op: Op)
    requires Inv(h)
    ensures var h' := Step(h, op);
            Total(h'.leaks) - Total(h.leaks) ==
              if op.AllocOp? && op.layout.Valid() && Alloc(h, op.layout).1.At? then
                var r := h.free[ScanFree(h.free, SizeAlign(op.layout).value).index];
                Alloc(h, op.layout).1.addr - r.addr
              else 0
  {
    if op.AllocOp? && op.layout.Valid() && Alloc(h, op.layout).1.At? {
      var need := SizeAlign(op.layout).value;
      var Found(i, start) := ScanFree(h.free, need);
      var gap := Region(h.free[i].addr, start - h.free[i].addr);
      CoverConcat(h.leaks, NonEmpty(gap), 0);
      CoverOne(gap, 0);
    }
  }

  predicate SmallAlign(op: Op) {
    op.AllocOp? ==> op.layout.align <= NODE_ALIGN
  }

  lemma {:induction false} NoLeakFrom(h: Heap, ops: seq<Op>)
    requires Inv(h) && h.leaks == []
    requires forall i :: 0 <= i < |ops| ==> SmallAlign(ops[i])
    ensures Exec(h, ops).leaks == []
    decreases |ops|
  {
    if ops != [] {
      var op := ops[0];
      assert SmallAlign(op);
      if op.AllocOp? && op.layout.Valid() && Alloc(h, op.layout).1.At? {
        var need := SizeAlign(op.layout).value;
        var i := ScanFree(h.free, need).index;
        assert FreeOk(h.free[i]);
        AlignUpUnique(h.free[i].addr, NODE_ALIGN, h.free[i].addr);
      }
      StepInv(h, op);
      NoLeakFrom(Step(h, op), ops[1..]);
    }
  }

  /** If no request is aligned beyond a list node, nothing is ever lost: free bytes and live
      bytes always add up to the heap. */
  lemma NoLeak(start: nat, size: nat, ops: seq<Op>)
    requires 0 < start && start % NODE_ALIGN == 0 && NODE_SIZE <= size && start + size < USIZE_LIMIT
    requires forall i :: 0 <= i < |ops| ==> SmallAlign(ops[i])
    ensures var h := Exec(Init(start, size), ops);
            h.leaks == [] && Total(h.free) + Total(Extents(h.live)) == size
  {
    InitInv(start, size);
    NoLeakFrom(Init(start, size), ops);
    RunSafety(start, size, ops);
  }

  // ----- fragmentation -----------------------------------------------------------------

  /** No free region and no live block has `n` bytes. */
  ghost predicate AllBelow(h: Heap, n: nat)
  {
    && (forall i :: 0 <= i < |h.free| ==> h.free[i].size < n)
    && (forall i :: 0 <= i < |h.live| ==> h.live[i].size < n)
  }

  lemma AllBelowCarve(h: Heap, i: nat, start: nat, layout: Layout, need: Need, n: nat)
    requires AllBelow(h, n)
    requires i < |h.free| && h.free[i].addr <= start && start + need.size <= h.free[i].End()
    ensures AllBelow(Carve(h, i, start, layout, need), n)
  {
    var h' := Carve(h, i, start, layout, need);
    var excess := Region(start + need.size, h.free[i].End() - (start + need.size));
    assert h.free[i].size < n;
    forall j | 0 <= j < |h'.free| ensures h'.free[j].size < n {
      var j' := j - |NonEmpty(excess)|;
      if 0 <= j' { assert h'.free[j] == h.free[if j' < i then j' else j' + 1]; }
    }
    forall j | 0 <= j < |h'.live| ensures h'.live[j].size < n {
      if j < |h.live| { assert h'.live[j] == h.live[j]; }
    }
  }

  lemma AllBelowDealloc(h: Heap, b: Block, n: nat)
    requires AllBelow(h, n) && b in h.live
    ensures AllBelow(Dealloc(h, b), n)
  {
    var h', i := Dealloc(h, b), IndexOf(h.live, b);
    forall j | 0 <= j < |h'.live| ensures h'.live[j].size < n {
      assert h'.live[j] == h.live[if j < i then j else j + 1];
    }
    assert h.live[i].size < n;
  }

  lemma AllBelowStep(h: Heap, op: Op, n: nat)
    requires AllBelow(h, n)
    ensures AllBelow(Step(h, op), n)
  {
    match op
    case AllocOp(layout) =>
      if layout.Valid() && Alloc(h, layout).1.At? {
        var need := SizeAlign(layout).value;
        var Found(i, start) := ScanFree(h.free, need);
        AllBelowCarve(h, i, start, layout, need, n);
      }
    case DeallocOp(b) =>
      if b in h.live { AllBelowDealloc(h, b, n); }
  }

  /** Regions are split but never merged, so fragmentation is permanent: once every free region
      and live block is smaller than `n`, no later request for `n` bytes can succeed, not even
      after everything has been freed. */
  lemma {:induction false} FragmentationIsPermanent(h: Heap, ops: seq<Op>, layout: Layout, n: nat)
    requires Inv(h) && AllBelow(h, n) && layout.Valid() && n <= layout.size
    ensures !Alloc(Exec(h, ops), layout).1.At?
    decreases |ops|
  {
    if ops != [] {
      AllBelowStep(h, ops[0], n);
      StepInv(h, ops[0]);
      FragmentationIsPermanent(Step(h, ops[0]), ops[1..], layout, n);
    }
  }
}
