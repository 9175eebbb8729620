/**
Guarantees of the two-layer global allocator over every run of `alloc` and matching
`dealloc`.
*/
module FixedSizeRuns {
  import opened Layouts
  import opened Sequences
  import opened LinkedListHeap
  import opened LinkedListRuns
  import opened F = FixedSizeBlocks

  /** Bytes requested from the fallback by a sequence of blocks. */
  function Requested(bs: seq<Block>): nat {
    if bs == [] then 0 else bs[0].layout.size + Requested(bs[1..])
  }

  lemma {:induction false} RequestedConcat(a: seq<Block>, c: seq<Block>)
    ensures Requested(a + c) == Requested(a) + Requested(c)
  {
    if a == [] {
      assert a + c == c;
    } else {
      assert (a + c)[1..] == a[1..] + c;
      RequestedConcat(a[1..], c);
    }
  }

  lemma {:induction false} RequestedWithout(bs: seq<Block>, i: nat)
    requires i < |bs|
    ensures Requested(bs) == Requested(Without(bs, i)) + bs[i].layout.size
  {
    if i == 0 {
      assert Without(bs, 0) == bs[1..];
    } else {
      RequestedWithout(bs[1..], i - 1);
      assert Without(bs, i)[0] == bs[0] && Without(bs, i)[1..] == Without(bs[1..], i - 1);
    }
  }

  lemma SameAfterRemoval(a: seq<Block>, c: seq<Block>, i: nat)
    requires a != [] && i < |c| && c[i] == a[0] && multiset(a) == multiset(c)
    ensures multiset(a[1..]) == multiset(Without(c, i))
  {
    WithoutMultiset(c, i);
    WithoutMultiset(a, 0);
    assert Without(a, 0) == a[1..];
    CancelOne(multiset(a[1..]), multiset(Without(c, i)), multiset{}, a[0]);
  }

  /** Rearranging blocks changes neither the bytes requested nor who covers a byte. */
  lemma {:induction false} Rearranged(a: seq<Block>, c: seq<Block>, x: nat)
    requires multiset(a) == multiset(c)
    ensures Requested(a) == Requested(c) && Total(Extents(a)) == Total(Extents(c))
    ensures Cover(Extents(a), x) == Cover(Extents(c), x)
    decreases |a|
  {
    if a == [] {
      assert |multiset(c)| == 0;
    } else {
      assert a[0] in multiset(c);
      var i := IndexOf(c, a[0]);
      SameAfterRemoval(a, c, i);
      Rearranged(a[1..], Without(c, i), x);
      RequestedWithout(c, i);
      ExtentsWithout(c, i);
      CoverWithout(Extents(c), i, x);
      assert Extents(a)[1..] == Extents(a[1..]);
    }
  }

  /** Everything the fallback heap has handed out: first the caches, then the grants. */
  ghost function Outstanding(f: Fsb): seq<Block> {
    Cached(f.lists, |f.lists|) + Backings(f.live)
  }

  lemma OutstandingOk(f: Fsb, b: Block)
    requires F.Inv(f) && b in Outstanding(f)
    ensures LiveOk(b)
  {
    assert b in multiset(Outstanding(f));
    var k := IndexOf(f.heap.live, b);
    assert LiveOk(f.heap.live[k]);
  }

  /** The fallback heap with its live blocks listed in the order of the layers above it. */
  lemma LayeredHeapInv(f: Fsb)
    requires F.Inv(f)
    ensures LinkedListHeap.Inv(f.heap.(live := Outstanding(f)))
    ensures Requested(Outstanding(f)) == Requested(f.heap.live)
  {
    var h := f.heap.(live := Outstanding(f));
    assert multiset(f.heap.live) == multiset(Outstanding(f));
    Rearranged(f.heap.live, Outstanding(f), 0);
    forall i | 0 <= i < |h.live| ensures LiveOk(h.live[i]) {
      OutstandingOk(f, h.live[i]);
    }
    forall x: nat ensures Owners(h, x) == if h.start <= x < h.end then 1 else 0 {
      Rearranged(f.heap.live, Outstanding(f), x);
      assert Owners(f.heap, x) == if h.start <= x < h.end then 1 else 0;
    }
  }

  /** A block of a size class is aligned to its size. */
  lemma ClassAligned(f: Fsb, a: nat, k: nat)
    requires F.Inv(f) && k < CLASSES && ClassBlock(a, k) in Outstanding(f)
    ensures a != 0 && BlockSize(k) > 0 && a % BlockSize(k) == 0
  {
    OutstandingOk(f, ClassBlock(a, k));
    ClassLayoutValid(k);
    DividesTrans(a, SizeAlign(ClassLayout(k)).value.align, BlockSize(k));
  }

  /** What the layers guarantee each other: each block cached in list `k` is aligned to
      `BlockSize(k)`; cached blocks, the backings of grants, fallback-free memory and leaks are
      pairwise disjoint inside the heap; and the bytes outstanding from the fallback are the
      cached bytes plus the bytes backing grants. */
  ghost predicate Layered(f: Fsb) {
    && |f.lists| == CLASSES
    && (forall k, a :: 0 <= k < CLASSES && a in f.lists[k] ==> a != 0 && BlockSize(k) > 0 && a % BlockSize(k) == 0)
    && AllApart(f.heap.free + Extents(Outstanding(f)) + f.heap.leaks)
    && Inside(f.heap, f.heap.free + Extents(Outstanding(f)) + f.heap.leaks)
    && Requested(f.heap.live) == Requested(Cached(f.lists, |f.lists|)) + Requested(Backings(f.live))
  }

  lemma InvLayered(f: Fsb)
    requires F.Inv(f)
    ensures Layered(f)
  {
    LayeredHeapInv(f);
    Separation(f.heap.(live := Outstanding(f)));
    RequestedConcat(Cached(f.lists, |f.lists|), Backings(f.live));
    CachedAligned(f);
  }

  lemma CachedAligned(f: Fsb)
    requires F.Inv(f)
    ensures forall k, a :: 0 <= k < CLASSES && a in f.lists[k] ==> a != 0 && BlockSize(k) > 0 && a % BlockSize(k) == 0
  {
    forall k, a | 0 <= k < CLASSES && a in f.lists[k] ensures a != 0 && BlockSize(k) > 0 && a % BlockSize(k) == 0 {
      CachedHas(f.lists, |f.lists|, k, a);
      ClassAligned(f, a, k);
    }
  }

  lemma {:induction false} ServeAllInv(f: Fsb, cs: seq<Call>)
    requires F.Inv(f)
    ensures F.Inv(ServeAll(f, cs))
    decreases |cs|
  {
    if cs != [] {
      ServeInv(f, cs[0]);
      ServeAllInv(Serve(f, cs[0]), cs[1..]);
    }
  }

  /** The two layers together, over whole runs. */
  lemma TwoLayerSafety(start: nat, size: nat, cs: seq<Call>)
    requires 0 < start && start % NODE_ALIGN == 0 && NODE_SIZE <= size && start + size < USIZE_LIMIT
    ensures F.Inv(ServeAll(New(start, size), cs)) && Layered(ServeAll(New(start, size), cs))
  {
    NewInv(start, size);
    ServeAllInv(New(start, size), cs);
    InvLayered(ServeAll(New(start, size), cs));
  }

  // ----- what clients hold -------------------------------------------------------------

  /** A grant is aligned as asked and fits in its backing. */
  lemma GrantSound(f: Fsb, g: Grant)
    requires F.Inv(f) && g in f.live
    ensures g.layout.Valid() && g.Addr() != 0 && g.Addr() % g.layout.align == 0 && g.layout.size <= g.backing.size
  {
    GrantsCanBeFreed(f, g);
    assert Backings(f.live)[IndexOf(f.live, g)] == g.backing;
    OutstandingOk(f, g.backing);
    match ListIndex(g.layout)
    case Some(k) =>
      ClassAligned(f, g.Addr(), k);
      BlockSizeIsPowerOfTwo(k);
      PowerOfTwoDivides(g.layout.align, BlockSize(k));
      DividesTrans(g.Addr(), BlockSize(k), g.layout.align);
    case None =>
      DividesTrans(g.Addr(), SizeAlign(g.layout).value.align, g.layout.align);
  }

  /** No grant reaches outside the heap. */
  lemma GrantInside(f: Fsb, i: nat)
    requires F.Inv(f) && i < |f.live|
    ensures f.heap.start <= f.live[i].Addr() && f.live[i].Addr() + f.live[i].layout.size <= f.heap.end
  {
    GrantSound(f, f.live[i]);
    LayeredHeapInv(f);
    var p := |Cached(f.lists, |f.lists|)| + i;
    LiveApart(f.heap.(live := Outstanding(f)), p);
    assert Outstanding(f)[p] == f.live[i].backing;
  }

  /** No two grants overlap. */
  lemma GrantsApart(f: Fsb, i: nat, j: nat)
    requires F.Inv(f) && i < j < |f.live|
    ensures Apart(Region(f.live[i].Addr(), f.live[i].layout.size), Region(f.live[j].Addr(), f.live[j].layout.size))
  {
    GrantSound(f, f.live[i]);
    GrantSound(f, f.live[j]);
    BackingsApart(f, i, j);
  }

  lemma OutstandingApart(f: Fsb, p: nat, q: nat)
    requires F.Inv(f) && p < q < |Outstanding(f)|
    ensures Apart(Outstanding(f)[p].Extent(), Outstanding(f)[q].Extent())
  {
    LayeredHeapInv(f);
    LiveApart(f.heap.(live := Outstanding(f)), q);
  }

  lemma BackingsApart(f: Fsb, i: nat, j: nat)
    requires F.Inv(f) && i < j < |f.live|
    ensures Apart(f.live[i].backing.Extent(), f.live[j].backing.Extent())
  {
    var c := |Cached(f.lists, |f.lists|)|;
    OutstandingApart(f, c + i, c + j);
    assert Outstanding(f)[c + i] == f.live[i].backing && Outstanding(f)[c + j] == f.live[j].backing;
  }

  // ----- LIFO reuse --------------------------------------------------------------------

  function FreeAll(f: Fsb, gs: seq<Grant>): Fsb
    decreases |gs|
  {
    if gs == [] then f else FreeAll(Serve(f, DeallocCall(gs[0])), gs[1..])
  }

  function AllocAll(f: Fsb, layouts: seq<Layout>): (Fsb, seq<Outcome>)
    requires |f.lists| == CLASSES && forall i :: 0 <= i < |layouts| ==> layouts[i].Valid()
    decreases |layouts|
  {
    if layouts == [] then (f, [])
    else
      var (f', r) := F.Alloc(f, layouts[0]);
      var (f'', rs) := AllocAll(f', layouts[1..]);
      (f'', [r] + rs)
  }

  /** Addresses, last grant first. */
  function ReversedAddrs(gs: seq<Grant>): (r: seq<nat>)
    ensures |r| == |gs| && forall i :: 0 <= i < |gs| ==> r[i] == gs[|gs| - 1 - i].Addr()
  {
    if gs == [] then [] else ReversedAddrs(gs[1..]) + [gs[0].Addr()]
  }

  /** `lists'` is `lists` with list `k` replaced by `l`. */
  ghost predicate OnlyList(lists: seq<seq<nat>>, lists': seq<seq<nat>>, k: nat, l: seq<nat>) {
    && k < |lists'| == |lists| && lists'[k] == l
    && forall j :: 0 <= j < |lists| && j != k ==> lists'[j] == lists[j]
  }

  lemma TakeOne(gs: seq<Grant>, live: seq<Grant>)
    requires gs != [] && multiset(gs) <= multiset(live)
    ensures gs[0] in live && multiset(gs[1..]) <= multiset(Without(live, IndexOf(live, gs[0])))
  {
    WithoutMultiset(gs, 0);
    assert Without(gs, 0) == gs[1..];
    assert gs[0] in multiset(gs);
    var rest := Without(live, IndexOf(live, gs[0]));
    WithoutMultiset(live, IndexOf(live, gs[0]));
    forall x: Grant ensures multiset(gs[1..])[x] <= multiset(rest)[x] {
      assert multiset(gs)[x] <= multiset(live)[x];
    }
  }

  /** Freeing grants of class `k` stacks them up on list `k` and leaves the fallback alone. */
  lemma {:induction false} FreeAllStacks(f: Fsb, gs: seq<Grant>, k: nat)
    requires k < CLASSES == |f.lists| && multiset(gs) <= multiset(f.live)
    requires forall i :: 0 <= i < |gs| ==> ListIndex(gs[i].layout) == Some(k)
    ensures FreeAll(f, gs).heap == f.heap
    ensures OnlyList(f.lists, FreeAll(f, gs).lists, k, ReversedAddrs(gs) + f.lists[k])
    decreases |gs|
  {
    if gs == [] {
      assert [] + f.lists[k] == f.lists[k];
    } else {
      var g, rest := gs[0], gs[1..];
      TakeOne(gs, f.live);
      var f' := F.Dealloc(f, g);
      assert f' == Serve(f, DeallocCall(g));
      FreeAllStacks(f', rest, k);
      assert ReversedAddrs(rest) + ([g.Addr()] + f.lists[k]) == ReversedAddrs(gs) + f.lists[k];
    }
  }

  /** While list `k` has blocks, allocations of class `k` are served from it in order. */
  lemma {:induction false} AllocAllPops(f: Fsb, layouts: seq<Layout>, k: nat)
    requires k < CLASSES == |f.lists| && |layouts| <= |f.lists[k]|
    requires forall i :: 0 <= i < |layouts| ==> layouts[i].Valid() && ListIndex(layouts[i]) == Some(k)
    ensures var (g, rs) := AllocAll(f, layouts);
            && g.heap == f.heap && OnlyList(f.lists, g.lists, k, f.lists[k][|layouts|..])
            && |rs| == |layouts| && forall i :: 0 <= i < |rs| ==> rs[i] == At(f.lists[k][i])
    decreases |layouts|
  {
    if layouts != [] {
      var (f', r) := F.Alloc(f, layouts[0]);
      AllocAllPops(f', layouts[1..], k);
      assert f'.lists[k] == f.lists[k][1..];
      assert f.lists[k][1..][|layouts| - 1..] == f.lists[k][|layouts|..];
    }
  }

  /** Freeing grants of one class and allocating as many of the class again returns exactly those
      blocks, last freed first, and leaves caches and fallback as they were. */
  lemma Lifo(f: Fsb, gs: seq<Grant>, layouts: seq<Layout>, k: nat)
    requires k < CLASSES == |f.lists| && |layouts| == |gs| && multiset(gs) <= multiset(f.live)
    requires forall i :: 0 <= i < |gs| ==> ListIndex(gs[i].layout) == Some(k)
    requires forall i :: 0 <= i < |gs| ==> layouts[i].Valid() && ListIndex(layouts[i]) == Some(k)
    ensures |FreeAll(f, gs).lists| == CLASSES
    ensures var (f', rs) := AllocAll(FreeAll(f, gs), layouts);
            && f'.lists == f.lists && f'.heap == f.heap && |rs| == |gs|
            && forall i :: 0 <= i < |gs| ==> rs[i] == At(gs[|gs| - 1 - i].Addr())
  {
    FreeAllStacks(f, gs, k);
    AllocAllPops(FreeAll(f, gs), layouts, k);
    assert (ReversedAddrs(gs) + f.lists[k])[|gs|..] == f.lists[k];
  }

  // ----- memory of a class stays with the class ----------------------------------------

  lemma ClassBlockStays(f: Fsb, c: Call, b: Block)
    requires F.Inv(f) && b in f.heap.live && ListIndex(b.layout).Some?
    ensures b in Serve(f, c).heap.live
  {
    match c
    case AllocCall(layout) =>
    case DeallocCall(g) =>
      if CanFree(f, g) && ListIndex(g.layout).None? {
        GrantsCanBeFreed(f, g);
        OthersStay(f.heap.live, IndexOf(f.heap.live, g.backing), b);
      }
  }

  lemma OthersStay(live: seq<Block>, i: nat, b: Block)
    requires i < |live| && b in live && b != live[i]
    ensures b in Without(live, i)
  {
    var j := IndexOf(live, b);
    assert Without(live, i)[if j < i then j else j - 1] == b;
  }

  /** Memory taken for a size class is never given back: over any run the fallback keeps the
      block outstanding, so it can serve no other size again. */
  lemma {:induction false} ClassMemoryIsForever(f: Fsb, cs: seq<Call>, b: Block)
    requires F.Inv(f) && b in f.heap.live && ListIndex(b.layout).Some?
    ensures b in ServeAll(f, cs).heap.live
    decreases |cs|
  {
    if cs != [] {
      ClassBlockStays(f, cs[0], b);
      ServeInv(f, cs[0]);
      ClassMemoryIsForever(Serve(f, cs[0]), cs[1..], b);
    }
  }
}
