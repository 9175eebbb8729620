/**
Which address the first-fit heap answers with, and that what is released can be had again.
*/
module LinkedListReuse {
  import opened Layouts
  import opened Sequences
  import opened LinkedListHeap

  // ----- which address -----------------------------------------------------------------

  /** `size_align` adds no more than it must: the padded size is the least multiple of the alignment that
      holds the request, unless a list node is larger. */
  lemma SizeAlignExact(layout: Layout)
    requires layout.Valid() && SizeAlign(layout).Some?
    ensures var need := SizeAlign(layout).value;
            && need.align == Max(layout.align, 8)
            && (need.size == 16 <==> layout.size <= 16 && (need.align <= 16 || layout.size == 0))
            && (need.size != 16 ==>
                  need.size > 16 && need.size % need.align == 0 && layout.size <= need.size < layout.size + need.align)
  {
    PaddedToNode(layout.size, SizeAlign(layout).value.align);
  }

  /** When padding to the alignment stays within a list node. */
  lemma PaddedToNode(size: nat, align: nat)
    requires IsPowerOfTwo(align) && 8 <= align
    ensures AlignUp(size, align) <= 16 <==> size <= 16 && (align <= 16 || size == 0)
  {
    if align <= 16 {
      SixteenIsMultiple(align);
      if size <= 16 { AlignUpLeast(size, align, 16); }
    } else if size == 0 {
      AlignUpUnique(0, align, 0);
    } else {
      var q := MultipleOf(AlignUp(size, align), align);
      MulLe(1, q, align);
    }
  }

  lemma SixteenIsMultiple(align: nat)
    requires IsPowerOfTwo(align) && 8 <= align <= 16
    ensures 16 % align == 0
  {
    assert IsPowerOfTwo(16);
    PowerOfTwoDivides(align, 16);
  }

  /** Region `i` is the first in list order that suits the need, at address `a`. */
  ghost predicate FirstFitAt(free: seq<Region>, need: Need, i: nat, a: nat)
    requires need.align > 0
  {
    i < |free| && NoneFits(free[..i], need) && FitIn(free[i], need) == FitsAt(a)
  }

  lemma {:induction false} FirstIsFound(free: seq<Region>, need: Need, i: nat, a: nat)
    requires need.align > 0 && FirstFitAt(free, need, i, a)
    ensures ScanFree(free, need) == Found(i, a)
    decreases |free|
  {
    if i > 0 {
      var before, tail := free[..i], free[1..];
      assert before[0] == free[0];
      var rest := tail[..i - 1];
      forall k | 0 <= k < |rest| ensures FitIn(rest[k], need).Unfit? {
        assert rest[k] == before[k + 1];
      }
      FirstIsFound(tail, need, i - 1, a);
    }
  }

  /** An allocation answers with an address exactly if that is where the first suitable region puts it. */
  lemma AllocAtExact(h: Heap, layout: Layout, a: nat)
    requires layout.Valid()
    ensures Alloc(h, layout).1 == At(a) <==>
              SizeAlign(layout).Some? && exists i: nat :: FirstFitAt(h.free, SizeAlign(layout).value, i, a)
  {
    if SizeAlign(layout).Some? {
      var need := SizeAlign(layout).value;
      FirstFitExact(h.free, need);
      if Alloc(h, layout).1 == At(a) {
        assert FirstFitAt(h.free, need, ScanFree(h.free, need).index, a);
      }
      if i: nat :| FirstFitAt(h.free, need, i, a) {
        FirstIsFound(h.free, need, i, a);
      }
    }
  }

  /** What is left of the region behind the block becomes the first in the list, and the others keep their
      order. */
  lemma AllocRest(h: Heap, layout: Layout, i: nat, a: nat)
    requires layout.Valid() && SizeAlign(layout).Some? && FirstFitAt(h.free, SizeAlign(layout).value, i, a)
    ensures var rest := h.free[..i] + h.free[i + 1..];
            var end := a + SizeAlign(layout).value.size;
            Alloc(h, layout).0.free ==
              if end < h.free[i].End() then [Region(end, h.free[i].End() - end)] + rest else rest
  {
    FirstIsFound(h.free, SizeAlign(layout).value, i, a);
    var rest := h.free[..i] + h.free[i + 1..];
    assert [] + rest == rest;
  }

  /** So the next request that fits in what a split left over is served from there. */
  lemma SplitServesNext(h: Heap, first: Layout, second: Layout, i: nat, a: nat, b: nat)
    requires first.Valid() && second.Valid() && SizeAlign(first).Some? && SizeAlign(second).Some?
    requires FirstFitAt(h.free, SizeAlign(first).value, i, a)
    requires var end := a + SizeAlign(first).value.size;
             end < h.free[i].End() && FitIn(Region(end, h.free[i].End() - end), SizeAlign(second).value) == FitsAt(b)
    ensures Alloc(Alloc(h, first).0, second).1 == At(b)
  {
    AllocRest(h, first, i, a);
    var h' := Alloc(h, first).0;
    assert FirstFitAt(h'.free, SizeAlign(second).value, 0, b);
    AllocAtExact(h', second, b);
  }

  // ----- reuse -------------------------------------------------------------------------

  /** A region of exactly the adjusted size at an aligned address is taken whole. */
  lemma ExactFit(h: Heap, b: Block, rest: seq<Region>)
    requires LiveOk(b) && h.free == [b.Extent()] + rest
    ensures Alloc(h, b.layout) == (h.(free := rest, live := h.live + [b]), At(b.addr))
  {
    var need := SizeAlign(b.layout).value;
    AlignUpUnique(b.addr, need.align, b.addr);
    assert FitIn(b.Extent(), need) == FitsAt(b.addr);
    assert ScanFree(h.free, need) == Found(0, b.addr);
    assert Without(h.free, 0) == rest && [] + rest == rest;
    assert h.leaks + [] == h.leaks;
    assert Block(b.addr, need.size, b.layout) == b;
  }

  /** A released block can be had again: the same request answers with the same address, and the free list
      and the leaks are what they were before the release. */
  lemma Reuse(h: Heap, b: Block)
    requires Inv(h) && b in h.live
    ensures b.layout.Valid()
    ensures var (h', r) := Alloc(Dealloc(h, b), b.layout);
            r == At(b.addr) && h'.free == h.free && h'.leaks == h.leaks
    ensures multiset(Alloc(Dealloc(h, b), b.layout).0.live) == multiset(h.live)
  {
    var i := IndexOf(h.live, b);
    assert LiveOk(h.live[i]);
    ExactFit(Dealloc(h, b), b, h.free);
    WithoutMultiset(h.live, i);
  }

  /** Releases in order. */
  function Release(h: Heap, bs: seq<Block>): Heap {
    if bs == [] then h else Step(Release(h, bs[..|bs| - 1]), DeallocOp(bs[|bs| - 1]))
  }

  /** Requests for the same layouts, last released first. */
  function AllocBack(h: Heap, bs: seq<Block>): (Heap, seq<Outcome>)
    decreases |bs|
  {
    if bs == [] || !bs[|bs| - 1].layout.Valid() then (h, [])
    else
      var (h', r) := Alloc(h, bs[|bs| - 1].layout);
      var (h'', rs) := AllocBack(h', bs[..|bs| - 1]);
      (h'', [r] + rs)
  }

  /** The extents of the blocks, last first, in front of `base`. */
  function Stacked(bs: seq<Block>, base: seq<Region>): seq<Region> {
    if bs == [] then base else [bs[|bs| - 1].Extent()] + Stacked(bs[..|bs| - 1], base)
  }

  lemma {:induction false} ReleaseStacks(h: Heap, bs: seq<Block>)
    requires multiset(bs) <= multiset(h.live)
    ensures Release(h, bs).free == Stacked(bs, h.free) && Release(h, bs).leaks == h.leaks
    ensures multiset(Release(h, bs).live) + multiset(bs) == multiset(h.live)
  {
    if bs != [] {
      var last, rest := bs[|bs| - 1], bs[..|bs| - 1];
      assert multiset(bs) == multiset(rest) + multiset{last} by { assert bs == rest + [last]; }
      ReleaseStacks(h, rest);
      var h' := Release(h, rest);
      OneMore(multiset(h.live), multiset(rest), last, multiset(h'.live));
      assert last in h'.live;
      WithoutMultiset(h'.live, IndexOf(h'.live, last));
      Moved(multiset(Release(h, bs).live), multiset(rest), last);
    }
  }

  lemma OneMore(all: multiset<Block>, rest: multiset<Block>, last: Block, left: multiset<Block>)
    requires rest + multiset{last} <= all && left + rest == all
    ensures last in left
  {
    assert (rest + multiset{last})[last] == rest[last] + 1;
    assert all[last] == left[last] + rest[last];
  }

  lemma Moved(left: multiset<Block>, rest: multiset<Block>, last: Block)
    ensures left + (rest + multiset{last}) == (left + multiset{last}) + rest
  {
  }

  /** The addresses of the blocks, last first. */
  function Answers(bs: seq<Block>): (rs: seq<Outcome>)
    ensures |rs| == |bs| && forall i :: 0 <= i < |bs| ==> rs[i] == At(bs[|bs| - 1 - i].addr)
  {
    seq(|bs|, i requires 0 <= i < |bs| => At(bs[|bs| - 1 - i].addr))
  }

  lemma {:induction false} AllocBackUnstacks(h: Heap, bs: seq<Block>, base: seq<Region>)
    requires h.free == Stacked(bs, base)
    requires AllLive(bs)
    ensures AllocBack(h, bs).0.free == base && AllocBack(h, bs).0.leaks == h.leaks
    ensures AllocBack(h, bs).1 == Answers(bs)
    decreases |bs|
  {
    if bs != [] {
      var last, rest := bs[|bs| - 1], bs[..|bs| - 1];
      var h' := h.(free := Stacked(rest, base), live := h.live + [last]);
      AllocBackStep(h, bs, base, h');
      AllLiveInit(bs);
      AllocBackUnstacks(h', rest, base);
      assert Answers(bs) == [At(last.addr)] + Answers(rest);
    }
  }

  lemma AllocBackStep(h: Heap, bs: seq<Block>, base: seq<Region>, h': Heap)
    requires bs != [] && h.free == Stacked(bs, base) && AllLive(bs)
    requires h' == h.(free := Stacked(bs[..|bs| - 1], base), live := h.live + [bs[|bs| - 1]])
    ensures AllocBack(h, bs) ==
              (AllocBack(h', bs[..|bs| - 1]).0, [At(bs[|bs| - 1].addr)] + AllocBack(h', bs[..|bs| - 1]).1)
  {
    assert LiveOk(bs[|bs| - 1]);
    ExactFit(h, bs[|bs| - 1], Stacked(bs[..|bs| - 1], base));
  }

  ghost predicate AllLive(bs: seq<Block>) {
    forall i {:trigger LiveOk(bs[i])} :: 0 <= i < |bs| ==> LiveOk(bs[i])
  }

  lemma AllLiveInit(bs: seq<Block>)
    requires bs != [] && AllLive(bs)
    ensures AllLive(bs[..|bs| - 1])
  {
    var rest := bs[..|bs| - 1];
    forall i | 0 <= i < |rest| ensures LiveOk(rest[i]) { assert LiveOk(bs[i]); }
  }

  /** The same for any number of releases: requests for the same layouts, last released first, answer with
      the same addresses and bring the free list and the leaks back. */
  lemma ReuseAll(h: Heap, bs: seq<Block>)
    requires Inv(h) && multiset(bs) <= multiset(h.live)
    ensures var (h', rs) := AllocBack(Release(h, bs), bs);
            && h'.free == h.free && h'.leaks == h.leaks && |rs| == |bs|
            && forall i :: 0 <= i < |bs| ==> rs[i] == At(bs[|bs| - 1 - i].addr)
  {
    forall i | 0 <= i < |bs| ensures LiveOk(bs[i]) {
      assert bs[i] in multiset(bs);
      assert LiveOk(h.live[IndexOf(h.live, bs[i])]);
    }
    ReleaseStacks(h, bs);
    AllocBackUnstacks(Release(h, bs), bs, h.free);
  }
}
