/**
The kernel's global allocator, kernel/src/allocator/fixed_size_block.rs: nine LIFO caches
of fixed-size blocks in front of a fallback heap. The fallback is the first-fit heap of
LinkedListHeap.dfy, so that the guarantees of the two layers compose.
*/
module FixedSizeBlocks {
  import opened Layouts
  import opened Sequences
  import opened LinkedListHeap

  const CLASSES: nat := 9

  /** `BLOCK_SIZES[i]`. */
  function BlockSize(i: nat): nat {
    if i == 0 then 8 else 2 * BlockSize(i - 1)
  }

  lemma BlockSizes()
    ensures BlockSize(0) == 8 && BlockSize(1) == 16 && BlockSize(2) == 32 && BlockSize(3) == 64
    ensures BlockSize(4) == 128 && BlockSize(5) == 256 && BlockSize(6) == 512 && BlockSize(7) == 1024
    ensures BlockSize(8) == 2048
  {
  }

  /** `BLOCK_SIZES.iter().position(|&s| s >= required)`, from index `i` on. */
  function Position(i: nat, required: nat): (r: Option<nat>)
    requires i <= CLASSES
    ensures r.Some? ==> i <= r.value < CLASSES && required <= BlockSize(r.value)
    decreases CLASSES - i, required
  {
    if i == CLASSES then None
    else if BlockSize(i) >= required then Some(i)
    else Position(i + 1, required)
  }

  function ListIndex(layout: Layout): (r: Option<nat>)
    ensures r.Some? ==> r.value < CLASSES && Max(layout.size, layout.align) <= BlockSize(r.value)
  {
    Position(0, Max(layout.size, layout.align))
  }

  lemma {:induction false} PositionFirst(i: nat, required: nat)
    requires i <= CLASSES
    ensures Position(i, required).Some? ==> forall j :: i <= j < Position(i, required).value ==> BlockSize(j) < required
    ensures Position(i, required).None? ==> forall j :: i <= j < CLASSES ==> BlockSize(j) < required
    decreases CLASSES - i
  {
    if i < CLASSES { PositionFirst(i + 1, required); }
  }

  /** The class chosen is the smallest one that holds the layout; there is none exactly for
      layouts above 2048 bytes. */
  lemma ListIndexExact(layout: Layout)
    ensures var r, required := ListIndex(layout), Max(layout.size, layout.align);
            && (r.Some? ==> forall j :: 0 <= j < r.value ==> BlockSize(j) < required)
            && (r.None? <==> 2048 < required)
  {
    BlockSizes();
    PositionFirst(0, Max(layout.size, layout.align));
    match ListIndex(layout)
    case Some(i) => BlockSizeGrows(i, 8);
    case None => assert BlockSize(8) < Max(layout.size, layout.align);
  }

  lemma {:induction false} BlockSizeGrows(i: nat, j: nat)
    requires i <= j
    ensures BlockSize(i) <= BlockSize(j)
  {
    if i < j { BlockSizeGrows(i, j - 1); }
  }

  lemma {:induction false} BlockSizeIsPowerOfTwo(i: nat)
    ensures IsPowerOfTwo(BlockSize(i))
  {
    if i > 0 {
      BlockSizeIsPowerOfTwo(i - 1);
      assert BlockSize(i) / 2 == BlockSize(i - 1);
    } else {
      assert IsPowerOfTwo(8);
    }
  }

  /** `Layout::from_size_align(block_size, block_size)`. */
  function ClassLayout(i: nat): Layout {
    Layout(BlockSize(i), BlockSize(i))
  }

  /** The `unwrap` on the class layout never fails, and the fallback serves it with a block of the
      class size, or of a list node if that is larger. */
  lemma ClassLayoutValid(i: nat)
    requires i < CLASSES
    ensures ClassLayout(i).Valid()
    ensures SizeAlign(ClassLayout(i)).Some? && SizeAlign(ClassLayout(i)).value.size == Max(BlockSize(i), NODE_SIZE)
  {
    BlockSizes();
    BlockSizeGrows(i, 8);
    BlockSizeGrows(0, i);
    BlockSizeIsPowerOfTwo(i);
    var n := BlockSize(i);
    assert n % n == 0 by { MultipleMod(1, n); }
    AlignUpUnique(n, n, n);
  }

  /** The layout a client asked for, and the block of the fallback heap it was given. */
  datatype Grant = Grant(layout: Layout, backing: Block) {
    function Addr(): nat { backing.addr }
  }

  function ClassBlock(addr: nat, i: nat): Block {
    Block(addr, Max(BlockSize(i), NODE_SIZE), ClassLayout(i))
  }

  /** A grant is backed by a block of its size class, or by one of exactly its layout. */
  predicate GrantOk(g: Grant) {
    && g.layout.Valid()
    && match ListIndex(g.layout)
       case Some(i) => g.backing == ClassBlock(g.backing.addr, i)
       case None => g.backing.layout == g.layout
  }

  function Backings(live: seq<Grant>): (r: seq<Block>)
    ensures |r| == |live| && forall i :: 0 <= i < |live| ==> r[i] == live[i].backing
  {
    seq(|live|, i requires 0 <= i < |live| => live[i].backing)
  }

  datatype Fsb = Fsb(heap: Heap, lists: seq<seq<nat>>, live: seq<Grant>)

  function New(start: nat, size: nat): Fsb {
    Fsb(Init(start, size), seq(CLASSES, _ => []), [])
  }

  // ----- operations --------------------------------------------------------------------

  /** `fallback_alloc`, on behalf of a client that wanted `wanted`. */
  function FromFallback(f: Fsb, layout: Layout, wanted: Layout): (Fsb, Outcome)
    requires layout.Valid()
  {
    var (heap, r) := LinkedListHeap.Alloc(f.heap, layout);
    (f.(heap := heap, live := if r.At? then f.live + [Grant(wanted, heap.live[|heap.live| - 1])] else f.live), r)
  }

  function Alloc(f: Fsb, layout: Layout): (Fsb, Outcome)
    requires |f.lists| == CLASSES && layout.Valid()
  {
    match ListIndex(layout)
    case Some(i) =>
      if f.lists[i] != [] then
        var addr := f.lists[i][0];
        var g := Grant(layout, ClassBlock(addr, i));
        (f.(lists := f.lists[i := f.lists[i][1..]], live := f.live + [g]), At(addr))
      else
        ClassLayoutValid(i);
        FromFallback(f, ClassLayout(i), layout)
    case None => FromFallback(f, layout, layout)
  }

  /** A client may free what it was granted. */
  predicate CanFree(f: Fsb, g: Grant) {
    && |f.lists| == CLASSES && g in f.live
    && (ListIndex(g.layout).None? ==> g.backing in f.heap.live)
  }

  function Dealloc(f: Fsb, g: Grant): Fsb
    requires CanFree(f, g)
  {
    var live := Without(f.live, IndexOf(f.live, g));
    match ListIndex(g.layout)
    case Some(i) => f.(lists := f.lists[i := [g.Addr()] + f.lists[i]], live := live)
    case None => f.(heap := LinkedListHeap.Dealloc(f.heap, g.backing), live := live)
  }

  datatype Call = AllocCall(layout: Layout) | DeallocCall(grant: Grant)

  function Serve(f: Fsb, c: Call): Fsb {
    match c
    case AllocCall(layout) => if |f.lists| == CLASSES && layout.Valid() then Alloc(f, layout).0 else f
    case DeallocCall(g) => if CanFree(f, g) then Dealloc(f, g) else f
  }

  function ServeAll(f: Fsb, cs: seq<Call>): Fsb
    decreases |cs|
  {
    if cs == [] then f else ServeAll(Serve(f, cs[0]), cs[1..])
  }

  // ----- invariant ---------------------------------------------------------------------

  function BlocksOf(addrs: seq<nat>, i: nat): (r: seq<Block>)
    ensures |r| == |addrs| && forall k :: 0 <= k < |addrs| ==> r[k] == ClassBlock(addrs[k], i)
  {
    seq(|addrs|, k requires 0 <= k < |addrs| => ClassBlock(addrs[k], i))
  }

  /** The cached blocks of the first `n` classes, as the fallback heap knows them. */
  function Cached(lists: seq<seq<nat>>, n: nat): seq<Block>
    requires n <= |lists|
  {
    if n == 0 then [] else Cached(lists, n - 1) + BlocksOf(lists[n - 1], n - 1)
  }

  /** Outstanding from the fallback heap are exactly the cached blocks and the backings of the
      grants. */
  ghost predicate Backed(f: Fsb) {
    multiset(f.heap.live) == multiset(Cached(f.lists, |f.lists|)) + multiset(Backings(f.live))
  }

  ghost predicate Inv(f: Fsb) {
    && LinkedListHeap.Inv(f.heap)
    && |f.lists| == CLASSES
    && (forall i {:trigger GrantOk(f.live[i])} :: 0 <= i < |f.live| ==> GrantOk(f.live[i]))
    && Backed(f)
  }

  // ----- multisets of blocks -----------------------------------------------------------

  lemma CancelOne<T>(a: multiset<T>, c: multiset<T>, d: multiset<T>, x: T)
    requires a + multiset{x} == c + (d + multiset{x})
    ensures a == c + d
  {
    assert a == a + multiset{x} - multiset{x};
    assert c + d == c + (d + multiset{x}) - multiset{x};
  }

  lemma BackingsWithout(live: seq<Grant>, i: nat)
    requires i < |live|
    ensures multiset(Backings(live)) == multiset(Backings(Without(live, i))) + multiset{live[i].backing}
  {
    assert Backings(Without(live, i)) == Without(Backings(live), i);
    WithoutMultiset(Backings(live), i);
  }

  lemma BackingsSnoc(live: seq<Grant>, g: Grant)
    ensures multiset(Backings(live + [g])) == multiset(Backings(live)) + multiset{g.backing}
  {
    assert Backings(live + [g]) == Backings(live) + [g.backing];
  }

  lemma {:induction false} CachedSame(lists: seq<seq<nat>>, lists': seq<seq<nat>>, n: nat)
    requires n <= |lists| && n <= |lists'| && forall i :: 0 <= i < n ==> lists[i] == lists'[i]
    ensures Cached(lists, n) == Cached(lists', n)
  {
    if n > 0 { CachedSame(lists, lists', n - 1); }
  }

  lemma PushBlock(addrs: seq<nat>, k: nat, a: nat)
    ensures multiset(BlocksOf([a] + addrs, k)) == multiset(BlocksOf(addrs, k)) + multiset{ClassBlock(a, k)}
  {
    assert BlocksOf([a] + addrs, k) == [ClassBlock(a, k)] + BlocksOf(addrs, k);
  }

  /** Pushing an address on list `k` adds one block of class `k` to the cache. */
  lemma {:induction false} CachedPush(lists: seq<seq<nat>>, n: nat, k: nat, a: nat)
    requires k < n <= |lists|
    ensures multiset(Cached(lists[k := [a] + lists[k]], n)) == multiset(Cached(lists, n)) + multiset{ClassBlock(a, k)}
  {
    if n - 1 == k {
      CachedPushLast(lists, k, a);
    } else {
      CachedPush(lists, n - 1, k, a);
      var lists' := lists[k := [a] + lists[k]];
      CachedSplit(lists, n);
      CachedSplit(lists', n);
      SwapLast(multiset(Cached(lists, n - 1)), multiset{ClassBlock(a, k)}, multiset(BlocksOf(lists[n - 1], n - 1)));
    }
  }

  lemma CachedPushLast(lists: seq<seq<nat>>, k: nat, a: nat)
    requires k < |lists|
    ensures multiset(Cached(lists[k := [a] + lists[k]], k + 1))
            == multiset(Cached(lists, k + 1)) + multiset{ClassBlock(a, k)}
  {
    var lists' := lists[k := [a] + lists[k]];
    CachedSplit(lists, k + 1);
    CachedSplit(lists', k + 1);
    CachedSame(lists, lists', k);
    PushBlock(lists[k], k, a);
  }

  lemma SwapLast(a: multiset<Block>, b: multiset<Block>, c: multiset<Block>)
    ensures a + b + c == a + c + b
  {
  }

  lemma CachedSplit(lists: seq<seq<nat>>, n: nat)
    requires 0 < n <= |lists|
    ensures multiset(Cached(lists, n)) == multiset(Cached(lists, n - 1)) + multiset(BlocksOf(lists[n - 1], n - 1))
  {
  }

  lemma PopCached(lists: seq<seq<nat>>, k: nat)
    requires k < |lists| && lists[k] != []
    ensures multiset(Cached(lists, |lists|))
            == multiset(Cached(lists[k := lists[k][1..]], |lists|)) + multiset{ClassBlock(lists[k][0], k)}
  {
    var lists' := lists[k := lists[k][1..]];
    assert lists'[k := [lists[k][0]] + lists'[k]] == lists by {
      assert [lists[k][0]] + lists[k][1..] == lists[k];
    }
    CachedPush(lists', |lists|, k, lists[k][0]);
  }

  lemma {:induction false} CachedHas(lists: seq<seq<nat>>, n: nat, k: nat, a: nat)
    requires k < n <= |lists| && a in lists[k]
    ensures ClassBlock(a, k) in Cached(lists, n)
  {
    if k < n - 1 {
      CachedHas(lists, n - 1, k, a);
    } else {
      var p :| 0 <= p < |lists[k]| && lists[k][p] == a;
      assert BlocksOf(lists[k], k)[p] == ClassBlock(a, k);
    }
  }

  lemma {:induction false} EmptyCache(lists: seq<seq<nat>>, n: nat)
    requires n <= |lists| && forall i :: 0 <= i < |lists| ==> lists[i] == []
    ensures Cached(lists, n) == []
  {
    if n > 0 { EmptyCache(lists, n - 1); }
  }

  // ----- preservation ------------------------------------------------------------------

  lemma NewInv(start: nat, size: nat)
    requires 0 < start && start % NODE_ALIGN == 0 && NODE_SIZE <= size && start + size < USIZE_LIMIT
    ensures Inv(New(start, size))
  {
    InitInv(start, size);
    EmptyCache(New(start, size).lists, CLASSES);
  }

  lemma GrantsOkSnoc(f: Fsb, g: Grant)
    requires Inv(f) && GrantOk(g)
    ensures forall i {:trigger GrantOk((f.live + [g])[i])} :: 0 <= i < |f.live + [g]| ==> GrantOk((f.live + [g])[i])
  {
    forall i | 0 <= i < |f.live + [g]| ensures GrantOk((f.live + [g])[i]) {
      if i < |f.live| { assert GrantOk(f.live[i]); }
    }
  }

  lemma GrantsOkWithout(f: Fsb, k: nat)
    requires Inv(f) && k < |f.live|
    ensures var live := Without(f.live, k); forall i {:trigger GrantOk(live[i])} :: 0 <= i < |live| ==> GrantOk(live[i])
  {
    var live := Without(f.live, k);
    forall i | 0 <= i < |live| ensures GrantOk(live[i]) {
      assert GrantOk(f.live[if i < k then i else i + 1]);
    }
  }

  /** Taking a block from the fallback for a grant it backs. */
  lemma FallbackInv(f: Fsb, layout: Layout, wanted: Layout)
    requires Inv(f) && layout.Valid() && SizeAlign(layout).Some?
    requires forall a: nat :: GrantOk(Grant(wanted, Block(a, SizeAlign(layout).value.size, layout)))
    ensures Inv(FromFallback(f, layout, wanted).0)
  {
    StepInv(f.heap, AllocOp(layout));
    var (heap, r) := LinkedListHeap.Alloc(f.heap, layout);
    if r.At? {
      var b := Block(r.addr, SizeAlign(layout).value.size, layout);
      assert heap.live == f.heap.live + [b];
      GrantsOkSnoc(f, Grant(wanted, b));
      BackingsSnoc(f.live, Grant(wanted, b));
    }
  }

  lemma PopInv(f: Fsb, layout: Layout, i: nat)
    requires Inv(f) && layout.Valid() && ListIndex(layout) == Some(i) && f.lists[i] != []
    ensures Inv(Alloc(f, layout).0)
  {
    var g := Grant(layout, ClassBlock(f.lists[i][0], i));
    PopCached(f.lists, i);
    GrantsOkSnoc(f, g);
    BackingsSnoc(f.live, g);
  }

  lemma AllocInv(f: Fsb, layout: Layout)
    requires Inv(f) && layout.Valid()
    ensures Inv(Alloc(f, layout).0)
  {
    match ListIndex(layout)
    case Some(i) =>
      if f.lists[i] != [] {
        PopInv(f, layout, i);
      } else {
        ClassLayoutValid(i);
        FallbackInv(f, ClassLayout(i), layout);
      }
    case None =>
      if SizeAlign(layout).Some? { FallbackInv(f, layout, layout); }
  }

  lemma GrantsCanBeFreed(f: Fsb, g: Grant)
    requires Inv(f) && g in f.live
    ensures CanFree(f, g) && GrantOk(g) && g.backing in f.heap.live
  {
    var i := IndexOf(f.live, g);
    assert GrantOk(f.live[i]);
    assert Backings(f.live)[i] in multiset(Backings(f.live));
    assert g.backing in multiset(f.heap.live);
  }

  lemma PushInv(f: Fsb, g: Grant, i: nat)
    requires Inv(f) && CanFree(f, g) && GrantOk(g) && ListIndex(g.layout) == Some(i)
    ensures Inv(Dealloc(f, g))
  {
    var f' := Dealloc(f, g);
    GrantsOkWithout(f, IndexOf(f.live, g));
    BackingsWithout(f.live, IndexOf(f.live, g));
    CachedPush(f.lists, |f.lists|, i, g.Addr());
    MoveOne(multiset(Cached(f.lists, |f.lists|)), multiset(Backings(f'.live)), g.backing);
  }

  lemma MoveOne<T>(c: multiset<T>, d: multiset<T>, x: T)
    ensures c + (d + multiset{x}) == c + multiset{x} + d
  {
  }

  lemma ReturnInv(f: Fsb, g: Grant)
    requires Inv(f) && CanFree(f, g) && ListIndex(g.layout) == None
    ensures Inv(Dealloc(f, g))
  {
    var b := g.backing;
    GrantsOkWithout(f, IndexOf(f.live, g));
    BackingsWithout(f.live, IndexOf(f.live, g));
    LinkedListHeap.DeallocInv(f.heap, b);
    WithoutMultiset(f.heap.live, IndexOf(f.heap.live, b));
    var h, live := LinkedListHeap.Dealloc(f.heap, b), Without(f.live, IndexOf(f.live, g));
    CancelOne(multiset(h.live), multiset(Cached(f.lists, |f.lists|)), multiset(Backings(live)), b);
  }

  lemma DeallocInv(f: Fsb, g: Grant)
    requires Inv(f) && g in f.live
    ensures CanFree(f, g) && Inv(Dealloc(f, g))
  {
    GrantsCanBeFreed(f, g);
    match ListIndex(g.layout)
    case Some(i) => PushInv(f, g, i);
    case None => ReturnInv(f, g);
  }

  lemma ServeInv(f: Fsb, c: Call)
    requires Inv(f)
    ensures Inv(Serve(f, c))
  {
    match c
    case AllocCall(layout) => if layout.Valid() { AllocInv(f, layout); }
    case DeallocCall(g) => if g in f.live { DeallocInv(f, g); }
  }
}
