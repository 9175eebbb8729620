/**
Which requests the global allocator serves, and from where: the cache of the class if it holds
a block, and otherwise the first suitable region of the fallback heap.
*/
module FixedSizeExact {
  import opened Layouts
  import opened Sequences
  import opened LinkedListHeap
  import opened LinkedListRuns
  import opened LinkedListReuse
  import F = FixedSizeBlocks
  import opened FixedSizeBlocks

  /** What a block of class `i` takes from the fallback: the class size, aligned to it, but at least a node. */
  function ClassNeed(i: nat): Need { Need(Max(BlockSize(i), 16), BlockSize(i)) }

  lemma ClassNeedExact(i: nat)
    requires i < CLASSES
    ensures ClassLayout(i).Valid() && SizeAlign(ClassLayout(i)) == Some(ClassNeed(i)) && BlockSize(i) >= 8
  {
    ClassLayoutValid(i);
    BlockSizeGrows(0, i);
  }

  /** The region at index `k` makes `align_up` overflow, and none before it suits the need. */
  ghost predicate OverflowsAt(free: seq<Region>, need: Need, k: nat)
    requires need.align > 0
  {
    k < |free| && free[k].addr > USIZE_LIMIT - need.align && NoneFits(free[..k], need)
  }

  /** How the fallback answers a request, in terms of its free list. */
  lemma FallbackExact(f: Fsb, layout: Layout, wanted: Layout, a: nat)
    requires F.Inv(f) && layout.Valid() && SizeAlign(layout).Some?
    ensures var need := SizeAlign(layout).value;
            var (f', r) := FromFallback(f, layout, wanted);
            && (r == Null <==> NoneFits(f.heap.free, need))
            && (r == Panicked <==> exists k: nat :: OverflowsAt(f.heap.free, need, k))
            && (r == At(a) <==> exists k: nat :: FirstFitAt(f.heap.free, need, k, a))
            && (r == At(a) ==> f'.live == f.live + [Grant(wanted, Block(a, need.size, layout))] && f'.lists == f.lists)
            && (!r.At? ==> f' == f)
  {
    var need := SizeAlign(layout).value;
    FailureExact(f.heap, layout);
    AllocAtExact(f.heap, layout, a);
    var free := f.heap.free;
    if k: nat :| k < |free| && free[k].addr > USIZE_LIMIT - need.align && NoneFits(free[..k], need) {
      assert OverflowsAt(free, need, k);
    }
  }

  /** A request of a size class with a cached block: the block cached last, and the fallback is not asked. */
  lemma CachedExact(f: Fsb, layout: Layout, i: nat)
    requires F.Inv(f) && layout.Valid() && ListIndex(layout) == Some(i) && f.lists[i] != []
    ensures var a := f.lists[i][0];
            F.Alloc(f, layout) ==
              (Fsb(f.heap, f.lists[i := f.lists[i][1..]], f.live + [Grant(layout, ClassBlock(a, i))]), At(a))
  {
  }

  /** A request of a size class without one: null exactly if no free region suits a block of the class, and
      otherwise the first that does provides it, unless one that overflows comes before it. */
  lemma ClassExact(f: Fsb, layout: Layout, i: nat, a: nat)
    requires F.Inv(f) && layout.Valid() && ListIndex(layout) == Some(i) && f.lists[i] == []
    ensures ClassNeed(i).align > 0
    ensures var (f', r) := F.Alloc(f, layout);
            && (r == Null <==> NoneFits(f.heap.free, ClassNeed(i)))
            && (r == Panicked <==> exists k: nat :: OverflowsAt(f.heap.free, ClassNeed(i), k))
            && (r == At(a) <==> exists k: nat :: FirstFitAt(f.heap.free, ClassNeed(i), k, a))
            && (r == At(a) ==> f'.live == f.live + [Grant(layout, ClassBlock(a, i))] && f'.lists == f.lists)
            && (!r.At? ==> f' == f)
  {
    ClassNeedExact(i);
    FallbackExact(f, ClassLayout(i), layout, a);
  }

  /** A large request: the same for the adjusted layout; a layout too large to adjust panics. */
  lemma LargeExact(f: Fsb, layout: Layout, a: nat)
    requires F.Inv(f) && layout.Valid() && ListIndex(layout) == None
    ensures SizeAlign(layout).None? ==> F.Alloc(f, layout) == (f, Panicked)
    ensures SizeAlign(layout).Some? ==>
              var need := SizeAlign(layout).value;
              var (f', r) := F.Alloc(f, layout);
              && (r == Null <==> NoneFits(f.heap.free, need))
              && (r == Panicked <==> exists k: nat :: OverflowsAt(f.heap.free, need, k))
              && (r == At(a) <==> exists k: nat :: FirstFitAt(f.heap.free, need, k, a))
              && (r == At(a) ==>
                    f'.live == f.live + [Grant(layout, Block(a, need.size, layout))] && f'.lists == f.lists)
              && (!r.At? ==> f' == f)
  {
    if SizeAlign(layout).Some? { FallbackExact(f, layout, layout, a); }
  }

  lemma AlignedToClass(start: nat, i: nat)
    requires i < CLASSES && start % 2048 == 0
    ensures 8 <= BlockSize(i) <= 2048 && start % BlockSize(i) == 0
  {
    BlockSizes();
    BlockSizeGrows(i, 8);
    BlockSizeGrows(0, i);
    BlockSizeIsPowerOfTwo(i);
    BlockSizeIsPowerOfTwo(8);
    PowerOfTwoDivides(BlockSize(i), BlockSize(8));
    DividesTrans(start, BlockSize(8), BlockSize(i));
  }

  lemma FitsAtStart(start: nat, size: nat, need: Need)
    requires 0 < need.align && start % need.align == 0 && need.size + NODE_SIZE <= size && start + size < USIZE_LIMIT
    ensures FirstFitAt([Region(start, size)], need, 0, start)
  {
    AlignUpUnique(start, need.align, start);
  }

  /** The first request of a size class on a fresh heap such as the kernel's is served from its start. */
  lemma FirstGrant(start: nat, size: nat, layout: Layout, i: nat)
    requires 0 < start && start % 2048 == 0 && 2064 <= size && start + size < USIZE_LIMIT
    requires layout.Valid() && ListIndex(layout) == Some(i)
    ensures F.Alloc(New(start, size), layout).1 == At(start)
  {
    NewInv(start, size);
    AlignedToClass(start, i);
    FitsAtStart(start, size, ClassNeed(i));
    ClassExact(New(start, size), layout, i, start);
  }

  /** After a release the grant is gone, exactly once. */
  lemma ReleasedIsGone(f: Fsb, g: Grant)
    requires F.Inv(f) && g in f.live
    ensures CanFree(f, g)
    ensures multiset(F.Dealloc(f, g).live) + multiset{g} == multiset(f.live)
  {
    GrantsCanBeFreed(f, g);
    WithoutMultiset(f.live, IndexOf(f.live, g));
  }

  /** A released large block goes back to the fallback, and the same request gets it again: same address, and
      caches, free list and leaks as before. */
  lemma LargeReuse(f: Fsb, g: Grant)
    requires F.Inv(f) && g in f.live && ListIndex(g.layout) == None
    ensures CanFree(f, g) && g.layout.Valid()
    ensures var f1 := F.Dealloc(f, g);
            f1.lists == f.lists && f1.heap.free == [Region(g.Addr(), g.backing.size)] + f.heap.free
    ensures var (f', r) := F.Alloc(F.Dealloc(f, g), g.layout);
            r == At(g.Addr()) && f'.lists == f.lists && f'.heap.free == f.heap.free && f'.heap.leaks == f.heap.leaks
  {
    GrantsCanBeFreed(f, g);
    Reuse(f.heap, g.backing);
  }
}
