/**
The boot-info frame allocator of kernel/src/memory.rs, and the heap mapping of
kernel/src/allocator.rs that draws from it both the heap's frames and the page-table frames.
*/
module FrameAllocator {
  import opened Layouts
  import opened AcpiMapping

  datatype MemoryRegion = MemoryRegion(start: nat, end: nat, usable: bool)

  /** `(start..end).step_by(4096)`. */
  function StepBy(start: nat, end: nat): seq<nat>
    decreases if start < end then end - start else 0
  {
    if start >= end then [] else [start] + StepBy(start + PAGE, end)
  }

  /** `PhysFrame::containing_address`, by start address. */
  function Containing(addr: nat): nat { addr - addr % PAGE }

  function FramesOf(r: MemoryRegion): (fs: seq<nat>)
    ensures |fs| == |StepBy(r.start, r.end)|
    ensures forall i :: 0 <= i < |fs| ==> fs[i] == Containing(StepBy(r.start, r.end)[i])
  {
    var addrs := StepBy(r.start, r.end);
    seq(|addrs|, i requires 0 <= i < |addrs| => Containing(addrs[i]))
  }

  /** `usable_frames`: filter, map, flat_map, map. */
  function UsableFrames(rs: seq<MemoryRegion>): seq<nat> {
    if rs == [] then []
    else (if rs[0].usable then FramesOf(rs[0]) else []) + UsableFrames(rs[1..])
  }

  // ----- one region --------------------------------------------------------------------

  lemma {:induction false} StepByAt(start: nat, end: nat, i: nat)
    requires i < |StepBy(start, end)|
    ensures StepBy(start, end)[i] == start + i * PAGE < end
    decreases i
  {
    if i > 0 {
      StepByAt(start + PAGE, end, i - 1);
      assert StepBy(start, end)[i] == StepBy(start + PAGE, end)[i - 1];
    }
  }

  lemma {:induction false} StepByLength(start: nat, end: nat)
    ensures |StepBy(start, end)| == if start < end then (end - start + PAGE - 1) / PAGE else 0
    decreases if start < end then end - start else 0
  {
    if start < end { StepByLength(start + PAGE, end); }
  }

  predicate Aligned(r: MemoryRegion) {
    r.start % PAGE == 0 && r.end % PAGE == 0
  }

  predicate Inside(r: MemoryRegion, frame: nat) {
    r.start <= frame && frame + PAGE <= r.end
  }

  /** Frames of an aligned region start at every page boundary in it. */
  lemma FrameAt(r: MemoryRegion, i: nat)
    requires Aligned(r) && i < |FramesOf(r)|
    ensures FramesOf(r)[i] == r.start + i * PAGE && Inside(r, FramesOf(r)[i]) && FramesOf(r)[i] % PAGE == 0
  {
    StepByAt(r.start, r.end, i);
    PageInside(r, i);
  }

  lemma PageInside(r: MemoryRegion, i: nat)
    requires Aligned(r) && r.start + i * PAGE < r.end
    ensures (r.start + i * PAGE) % PAGE == 0 && r.start + i * PAGE + PAGE <= r.end
  {
    var q, e := r.start / PAGE, r.end / PAGE;
    assert r.start == q * PAGE && r.end == e * PAGE;
    assert r.start + i * PAGE == (q + i) * PAGE;
    MultipleMod(q + i, PAGE);
  }

  lemma FrameFor(r: MemoryRegion, f: nat)
    requires Aligned(r) && f % PAGE == 0 && r.start <= f < r.end
    ensures f in FramesOf(r)
  {
    var i := (f - r.start) / PAGE;
    StepByLength(r.start, r.end);
    assert f == r.start + i * PAGE;
    FrameAt(r, i);
  }

  /** The frames of a non-empty region lie in it exactly if the region is page-aligned. */
  lemma FramesInsideExact(r: MemoryRegion)
    requires r.start < r.end
    ensures (forall i :: 0 <= i < |FramesOf(r)| ==> Inside(r, FramesOf(r)[i])) <==> Aligned(r)
  {
    StepByLength(r.start, r.end);
    var last := |FramesOf(r)| - 1;
    StepByAt(r.start, r.end, 0);
    StepByAt(r.start, r.end, last);
    assert Inside(r, FramesOf(r)[0]) && Inside(r, FramesOf(r)[last]) ==> Aligned(r);
    if Aligned(r) {
      forall i | 0 <= i < |FramesOf(r)| ensures Inside(r, FramesOf(r)[i]) { FrameAt(r, i); }
    }
  }

  // ----- the memory map ----------------------------------------------------------------

  predicate Disjoint(r: MemoryRegion, s: MemoryRegion) {
    r.end <= s.start || s.end <= r.start
  }

  /** Usable regions are page-aligned and do not overlap. */
  ghost predicate GoodMap(rs: seq<MemoryRegion>) {
    && (forall i :: 0 <= i < |rs| && rs[i].usable ==> Aligned(rs[i]))
    && (forall i, j :: 0 <= i < j < |rs| && rs[i].usable && rs[j].usable ==> Disjoint(rs[i], rs[j]))
  }

  ghost predicate InUsable(rs: seq<MemoryRegion>, f: nat) {
    exists i :: 0 <= i < |rs| && rs[i].usable && Inside(rs[i], f)
  }

  lemma TailGood(rs: seq<MemoryRegion>)
    requires GoodMap(rs) && rs != []
    ensures GoodMap(rs[1..])
  {
    assert forall i :: 0 <= i < |rs[1..]| ==> rs[1..][i] == rs[i + 1];
  }

  /** The list holds exactly the page-aligned frames that lie in usable regions. */
  lemma {:induction false} FramesExact(rs: seq<MemoryRegion>, f: nat)
    requires GoodMap(rs)
    ensures f in UsableFrames(rs) <==> f % PAGE == 0 && InUsable(rs, f)
  {
    if rs != [] {
      var rest := rs[1..];
      TailGood(rs);
      FramesExact(rest, f);
      assert forall i :: 0 <= i < |rest| ==> rest[i] == rs[i + 1];
      assert InUsable(rs, f) <==> (rs[0].usable && Inside(rs[0], f)) || InUsable(rest, f);
      if rs[0].usable {
        if i :| 0 <= i < |FramesOf(rs[0])| && FramesOf(rs[0])[i] == f { FrameAt(rs[0], i); }
        if f % PAGE == 0 && Inside(rs[0], f) { FrameFor(rs[0], f); }
      }
    }
  }

  ghost predicate NoDuplicates(fs: seq<nat>) {
    forall i, j :: 0 <= i < j < |fs| ==> fs[i] != fs[j]
  }

  /** No frame is listed twice. */
  lemma {:induction false} FramesDistinct(rs: seq<MemoryRegion>)
    requires GoodMap(rs)
    ensures NoDuplicates(UsableFrames(rs))
  {
    if rs != [] {
      var rest := rs[1..];
      TailGood(rs);
      FramesDistinct(rest);
      if rs[0].usable {
        var a, b := FramesOf(rs[0]), UsableFrames(rest);
        forall i, j | 0 <= i < j < |a + b| ensures (a + b)[i] != (a + b)[j] {
          if i < |a| { FrameAt(rs[0], i); }
          if j < |a| {
            FrameAt(rs[0], j);
          } else if i < |a| {
            ApartFromRest(rs, a[i], b[j - |a|]);
          }
        }
      }
    }
  }

  lemma ApartFromRest(rs: seq<MemoryRegion>, f: nat, g: nat)
    requires GoodMap(rs) && rs != [] && rs[0].usable && Inside(rs[0], f) && g in UsableFrames(rs[1..])
    ensures f != g
  {
    TailGood(rs);
    FramesExact(rs[1..], g);
    var i :| 0 <= i < |rs[1..]| && rs[1..][i].usable && Inside(rs[1..][i], g);
    assert rs[i + 1] == rs[1..][i];
    assert Disjoint(rs[0], rs[i + 1]);
  }

  /** Bytes in usable regions. */
  function UsableBytes(rs: seq<MemoryRegion>): nat {
    if rs == [] then 0
    else (if rs[0].usable && rs[0].start < rs[0].end then rs[0].end - rs[0].start else 0) + UsableBytes(rs[1..])
  }

  /** There are as many frames as usable pages. */
  lemma {:induction false} FramesTotal(rs: seq<MemoryRegion>)
    requires GoodMap(rs)
    ensures |UsableFrames(rs)| * PAGE == UsableBytes(rs)
  {
    if rs != [] {
      TailGood(rs);
      FramesTotal(rs[1..]);
      if rs[0].usable {
        RegionTotal(rs[0]);
        assert |UsableFrames(rs)| == |FramesOf(rs[0])| + |UsableFrames(rs[1..])|;
      }
    }
  }

  lemma RegionTotal(r: MemoryRegion)
    requires Aligned(r)
    ensures |FramesOf(r)| * PAGE == if r.start < r.end then r.end - r.start else 0
  {
    StepByLength(r.start, r.end);
  }

  /** How many frames the usable ones among the first `j` regions have. */
  function FramesBefore(rs: seq<MemoryRegion>, j: nat): nat
    requires j <= |rs|
  {
    if j == 0 then 0 else FramesBefore(rs, j - 1) + if rs[j - 1].usable then |FramesOf(rs[j - 1])| else 0
  }

  lemma {:induction false} FramesBeforeTail(rs: seq<MemoryRegion>, j: nat)
    requires 0 < j <= |rs|
    ensures FramesBefore(rs, j) == (if rs[0].usable then |FramesOf(rs[0])| else 0) + FramesBefore(rs[1..], j - 1)
    decreases j
  {
    if j > 1 { FramesBeforeTail(rs, j - 1); }
  }

  /** Regions are listed in the order of the memory map, and each from its start upwards: the position of
      every frame in the list. */
  lemma {:induction false} FramesPlaced(rs: seq<MemoryRegion>, j: nat, i: nat)
    requires GoodMap(rs) && j < |rs| && rs[j].usable && i < |FramesOf(rs[j])|
    ensures FramesBefore(rs, j) + i < |UsableFrames(rs)|
    ensures UsableFrames(rs)[FramesBefore(rs, j) + i] == rs[j].start + i * PAGE
    decreases |rs|
  {
    if j == 0 {
      FrameAt(rs[0], i);
    } else {
      TailGood(rs);
      FramesPlaced(rs[1..], j - 1, i);
      FramesBeforeTail(rs, j);
    }
  }

  // ----- the allocator -----------------------------------------------------------------

  function Nth(fs: seq<nat>, n: nat): Option<nat> {
    if n < |fs| then Some(fs[n]) else None
  }

  class BootInfoFrameAllocator {
    const regions: seq<MemoryRegion>
    var next: nat

    constructor (regions: seq<MemoryRegion>)
      ensures this.regions == regions && next == 0
    {
      this.regions := regions;
      next := 0;
    }

    /** `allocate_frame`: the next frame of the flattened list, whether or not one is left. */
    method AllocateFrame() returns (frame: Option<nat>)
      modifies this
      ensures frame == Nth(UsableFrames(regions), old(next)) && next == old(next) + 1
    {
      frame := Nth(UsableFrames(regions), next);
      next := next + 1;
    }
  }

  /** The `k`-th call returns a frame exactly while usable pages are left, so the calls hand out all of
      them and then none ever again; each frame is usable, and no two calls return the same one. */
  lemma CallsExact(rs: seq<MemoryRegion>, k: nat, l: nat)
    requires GoodMap(rs) && k < l
    ensures Nth(UsableFrames(rs), k).Some? <==> k * PAGE < UsableBytes(rs)
    ensures Nth(UsableFrames(rs), k).Some? ==>
              Nth(UsableFrames(rs), k).value % PAGE == 0 && InUsable(rs, Nth(UsableFrames(rs), k).value)
    ensures Nth(UsableFrames(rs), l).Some? ==>
              Nth(UsableFrames(rs), k).Some? && Nth(UsableFrames(rs), k) != Nth(UsableFrames(rs), l)
  {
    FramesTotal(rs);
    FramesDistinct(rs);
    if k < |UsableFrames(rs)| { FramesExact(rs, UsableFrames(rs)[k]); }
  }

  // ----- the heap ----------------------------------------------------------------------

  const HEAP_PAGE: nat := HEAP_START / PAGE
  const HEAP_PAGES: nat := 256
  const HEAP_FLAGS: Flags := Flags(true, false)

  function Sum(ns: seq<nat>): nat {
    if ns == [] then 0 else Sum(ns[..|ns| - 1]) + ns[|ns| - 1]
  }

  lemma SumSnoc(ns: seq<nat>, i: nat)
    requires i < |ns|
    ensures Sum(ns[..i + 1]) == Sum(ns[..i]) + ns[i]
  {
    assert ns[..i + 1][..i] == ns[..i];
  }

  lemma {:induction false} SumGrows(ns: seq<nat>, i: nat, j: nat)
    requires i <= j <= |ns|
    ensures Sum(ns[..i]) <= Sum(ns[..j])
    decreases j
  {
    if i < j {
      SumGrows(ns, i, j - 1);
      SumSnoc(ns, j - 1);
    }
  }

  /** Which call of `allocate_frame` supplies heap page `i`, when mapping page `j` draws `tables[j]`
      frames for page tables. */
  function CallFor(first: nat, tables: seq<nat>, i: nat): nat
    requires i <= |tables|
  {
    first + i + Sum(tables[..i])
  }

  lemma CallsIncrease(first: nat, tables: seq<nat>, i: nat, j: nat)
    requires i < j <= |tables|
    ensures CallFor(first, tables, i) + tables[i] < CallFor(first, tables, j)
  {
    SumSnoc(tables, i);
    SumGrows(tables, i + 1, j);
  }

  /** The page tables after the first `n` heap pages have been mapped. */
  function HeapMap(pages: PageMap, fs: seq<nat>, first: nat, tables: seq<nat>, n: nat): PageMap
    requires n <= |tables|
  {
    if n == 0 then pages
    else
      var call := CallFor(first, tables, n - 1);
      HeapMap(pages, fs, first, tables, n - 1)
        [HEAP_PAGE + n - 1 := Entry(if call < |fs| then fs[call] / PAGE else 0, HEAP_FLAGS)]
  }

  /** Pages outside the heap are as they were, and heap pages have the frames of their calls. */
  lemma {:induction false} HeapMapAt(pages: PageMap, fs: seq<nat>, first: nat, tables: seq<nat>, n: nat, p: nat)
    requires n <= |tables|
    ensures !(HEAP_PAGE <= p < HEAP_PAGE + n) ==>
              && (p in HeapMap(pages, fs, first, tables, n) <==> p in pages)
              && (p in pages ==> HeapMap(pages, fs, first, tables, n)[p] == pages[p])
    ensures HEAP_PAGE <= p < HEAP_PAGE + n ==>
              && p in HeapMap(pages, fs, first, tables, n)
              && var call := CallFor(first, tables, p - HEAP_PAGE);
                 HeapMap(pages, fs, first, tables, n)[p]
                 == Entry(if call < |fs| then fs[call] / PAGE else 0, HEAP_FLAGS)
  {
    if n > 0 { HeapMapAt(pages, fs, first, tables, n - 1, p); }
  }

  /** The heap can be mapped: no heap page is mapped yet, and there are frames for it and for the page
      tables on the way. */
  ghost predicate HeapFits(pages: PageMap, fs: seq<nat>, first: nat, tables: seq<nat>, n: nat)
    requires n <= |tables|
  {
    && (forall p :: HEAP_PAGE <= p < HEAP_PAGE + n ==> p !in pages)
    && (n > 0 ==> CallFor(first, tables, n) <= |fs|)
  }

  /** `map_to` drawing `n` page-table frames; false when the frames run out or the page is mapped. */
  method MapDrawing(mapper: Mapper, allocator: BootInfoFrameAllocator, page: nat, frame: nat, n: nat)
    returns (ok: bool)
    modifies mapper, allocator
    ensures ok <==> && (n == 0 || old(allocator.next) + n <= |UsableFrames(allocator.regions)|)
                    && page !in old(mapper.pages)
    ensures ok ==> allocator.next == old(allocator.next) + n
    ensures ok ==> mapper.pages == old(mapper.pages)[page := Entry(frame, HEAP_FLAGS)]
  {
    for i := 0 to n
      invariant allocator.next == old(allocator.next) + i && mapper.pages == old(mapper.pages)
      invariant i == 0 || old(allocator.next) + i <= |UsableFrames(allocator.regions)|
    {
      var table := allocator.AllocateFrame();
      if table.None? { return false; }
    }
    ok := mapper.MapTo(page, frame, HEAP_FLAGS, true);
  }

  /** The body of the loop in `init_heap`: a frame for the page, then the mapping. */
  method MapHeapPage(mapper: Mapper, allocator: BootInfoFrameAllocator, page: nat, n: nat) returns (ok: bool)
    modifies mapper, allocator
    ensures ok <==> old(allocator.next) + 1 + n <= |UsableFrames(allocator.regions)| && page !in old(mapper.pages)
    ensures ok ==>
              && allocator.next == old(allocator.next) + 1 + n
              && var frame := UsableFrames(allocator.regions)[old(allocator.next)];
                 mapper.pages == old(mapper.pages)[page := Entry(frame / PAGE, HEAP_FLAGS)]
  {
    var frame := allocator.AllocateFrame();
    if frame.None? { return false; }
    ok := MapDrawing(mapper, allocator, page, frame.value / PAGE, n);
  }

  /** `init_heap`, when mapping the `i`-th page needs `tables[i]` new page tables. */
  method InitHeap(mapper: Mapper, allocator: BootInfoFrameAllocator, tables: seq<nat>) returns (ok: bool)
    requires |tables| == HEAP_PAGES
    modifies mapper, allocator
    ensures ok <==>
              && (forall p :: 0x4_4444_4440 <= p < 0x4_4444_4440 + 256 ==> p !in old(mapper.pages))
              && CallFor(old(allocator.next), tables, 256) <= |UsableFrames(allocator.regions)|
    ensures ok ==>
              && allocator.next == CallFor(old(allocator.next), tables, HEAP_PAGES)
              && mapper.pages
                 == HeapMap(old(mapper.pages), UsableFrames(allocator.regions), old(allocator.next), tables, HEAP_PAGES)
  {
    ghost var fs := UsableFrames(allocator.regions);
    for i := 0 to HEAP_PAGES
      invariant HeapFits(old(mapper.pages), fs, old(allocator.next), tables, i)
      invariant allocator.next == CallFor(old(allocator.next), tables, i)
      invariant mapper.pages == HeapMap(old(mapper.pages), fs, old(allocator.next), tables, i)
    {
      NextFits(old(mapper.pages), fs, old(allocator.next), tables, i);
      ok := MapHeapPage(mapper, allocator, HEAP_PAGE + i, tables[i]);
      if !ok { return; }
    }
    ok := true;
  }

  /** The next heap page can be mapped exactly if the heap up to it fits, and must be if all of it fits. */
  lemma NextFits(pages: PageMap, fs: seq<nat>, first: nat, tables: seq<nat>, i: nat)
    requires i < HEAP_PAGES == |tables| && HeapFits(pages, fs, first, tables, i)
    ensures var next := CallFor(first, tables, i + 1);
            && next == CallFor(first, tables, i) + 1 + tables[i]
            && (HeapFits(pages, fs, first, tables, i + 1) <==>
                  HEAP_PAGE + i !in HeapMap(pages, fs, first, tables, i) && next <= |fs|)
    ensures HeapFits(pages, fs, first, tables, HEAP_PAGES) ==> HeapFits(pages, fs, first, tables, i + 1)
  {
    HeapMapAt(pages, fs, first, tables, i, HEAP_PAGE + i);
    MoreFits(pages, fs, first, tables, i);
  }

  lemma MoreFits(pages: PageMap, fs: seq<nat>, first: nat, tables: seq<nat>, i: nat)
    requires i < HEAP_PAGES == |tables| && HeapFits(pages, fs, first, tables, i)
    ensures HeapFits(pages, fs, first, tables, i + 1) <==>
              HEAP_PAGE + i !in pages && CallFor(first, tables, i + 1) <= |fs|
    ensures CallFor(first, tables, i + 1) == CallFor(first, tables, i) + 1 + tables[i]
    ensures HeapFits(pages, fs, first, tables, HEAP_PAGES) ==> HeapFits(pages, fs, first, tables, i + 1)
  {
    SumSnoc(tables, i);
    SumGrows(tables, i + 1, HEAP_PAGES);
  }

  /** A mapped heap has a frame of its own behind every page: usable, shared with no other heap page, and
      different from every page-table frame drawn on the way. */
  lemma HeapBacked(rs: seq<MemoryRegion>, pages: PageMap, first: nat, tables: seq<nat>, i: nat, call: nat)
    requires GoodMap(rs) && |tables| == HEAP_PAGES && HeapFits(pages, UsableFrames(rs), first, tables, HEAP_PAGES)
    requires i < HEAP_PAGES && first <= call < CallFor(first, tables, HEAP_PAGES) && call != CallFor(first, tables, i)
    ensures var fs := UsableFrames(rs);
            var heap := HeapMap(pages, fs, first, tables, HEAP_PAGES);
            && call < |fs| && HEAP_PAGE + i in heap
            && InUsable(rs, heap[HEAP_PAGE + i].frame * PAGE)
            && heap[HEAP_PAGE + i].frame * PAGE != fs[call]
            && heap[HEAP_PAGE + i].flags.writable && !heap[HEAP_PAGE + i].flags.noCache
  {
    HeapMapAt(pages, UsableFrames(rs), first, tables, HEAP_PAGES, HEAP_PAGE + i);
    CallsIncrease(first, tables, i, HEAP_PAGES);
    FramesDrawn(rs, CallFor(first, tables, i), call);
  }

  /** Different calls draw different frames, each usable and determined by its number. */
  lemma FramesDrawn(rs: seq<MemoryRegion>, k: nat, l: nat)
    requires GoodMap(rs) && k != l && k < |UsableFrames(rs)| && l < |UsableFrames(rs)|
    ensures var fs := UsableFrames(rs);
            fs[k] / PAGE * PAGE == fs[k] && InUsable(rs, fs[k]) && fs[k] != fs[l]
  {
    var fs := UsableFrames(rs);
    FramesDistinct(rs);
    FramesExact(rs, fs[k]);
    assert fs[k] in fs;
    assert if k < l then fs[k] != fs[l] else fs[l] != fs[k];
  }
}
