/**
The allocator of kernel/src/allocator/linked_list.rs on raw memory: free regions are
linked through nodes written into the free memory itself, with the size in a node's first
word and the address of the next node (0 for none) in its second.
*/
module LinkedListAllocator {
  import opened Layouts
  import opened Sequences
  import opened LinkedListHeap
  import opened LinkedListRuns

  /** Memory in aligned words of eight bytes, by the address of the first; a word never written reads as 0. */
  class Memory {
    var words: map<nat, nat>

    constructor ()
      ensures words == map[]
    {
      words := map[];
    }
  }

  function Word(words: map<nat, nat>, a: nat): nat {
    if a in words then words[a] else 0
  }

  /** Following `next` from `first` visits exactly these regions and then ends. */
  ghost predicate Chain(words: map<nat, nat>, first: nat, nodes: seq<Region>)
    decreases |nodes|
  {
    if nodes == [] then first == 0
    else
      && first == nodes[0].addr && first != 0
      && Word(words, first) == nodes[0].size
      && Chain(words, Word(words, first + 8), nodes[1..])
  }

  /** Node words of different regions do not overlap. */
  ghost predicate NodesApart(nodes: seq<Region>) {
    forall i, j :: 0 <= i < j < |nodes| ==> nodes[i].addr + 16 <= nodes[j].addr || nodes[j].addr + 16 <= nodes[i].addr
  }

  predicate SameNode(words: map<nat, nat>, words': map<nat, nat>, r: Region) {
    Word(words', r.addr) == Word(words, r.addr) && Word(words', r.addr + 8) == Word(words, r.addr + 8)
  }

  /** A chain depends on nothing but the words of its own nodes. */
  lemma {:induction false} ChainFrame(words: map<nat, nat>, words': map<nat, nat>, first: nat, nodes: seq<Region>)
    requires Chain(words, first, nodes)
    requires forall i :: 0 <= i < |nodes| ==> SameNode(words, words', nodes[i])
    ensures Chain(words', first, nodes)
    decreases |nodes|
  {
    if nodes != [] {
      assert SameNode(words, words', nodes[0]);
      forall i | 0 <= i < |nodes[1..]| ensures SameNode(words, words', nodes[1..][i]) {
        assert nodes[1..][i] == nodes[i + 1];
      }
      ChainFrame(words, words', Word(words, first + 8), nodes[1..]);
    }
  }

  /** The tail of a chain is a chain. */
  lemma {:induction false} ChainTail(words: map<nat, nat>, first: nat, nodes: seq<Region>, k: nat)
    requires Chain(words, first, nodes) && k < |nodes|
    ensures nodes[k].addr != 0 && Word(words, nodes[k].addr) == nodes[k].size
    ensures Chain(words, nodes[k].addr, nodes[k..])
    ensures Chain(words, Word(words, nodes[k].addr + 8), nodes[k + 1..])
    decreases k
  {
    if k > 0 {
      ChainTail(words, Word(words, first + 8), nodes[1..], k - 1);
      assert nodes[1..][k - 1..] == nodes[k..] && nodes[1..][k..] == nodes[k + 1..];
    }
  }

  lemma UnlinkSecond(words: map<nat, nat>, words': map<nat, nat>, first: nat, nodes: seq<Region>)
    requires 1 < |nodes| && Chain(words, first, nodes)
    requires forall i :: 2 <= i < |nodes| ==> SameNode(words, words', nodes[i])
    requires Word(words', nodes[0].addr) == nodes[0].size
    requires Word(words', nodes[0].addr + 8) == Word(words, nodes[1].addr + 8)
    ensures Chain(words', first, Without(nodes, 1))
  {
    ChainTail(words, first, nodes, 1);
    var tail := nodes[2..];
    forall i | 0 <= i < |tail| ensures SameNode(words, words', tail[i]) {
      assert tail[i] == nodes[i + 2];
    }
    ChainFrame(words, words', Word(words, nodes[1].addr + 8), tail);
    assert Without(nodes, 1)[1..] == tail;
  }

  /** Redirecting node `k - 1` around node `k` unlinks exactly node `k`. */
  lemma {:induction false} Unlink(words: map<nat, nat>, words': map<nat, nat>, first: nat, nodes: seq<Region>, k: nat)
    requires 0 < k < |nodes| && Chain(words, first, nodes)
    requires forall i :: 0 <= i < |nodes| && i != k && i != k - 1 ==> SameNode(words, words', nodes[i])
    requires Word(words', nodes[k - 1].addr) == nodes[k - 1].size
    requires Word(words', nodes[k - 1].addr + 8) == Word(words, nodes[k].addr + 8)
    ensures Chain(words', first, Without(nodes, k))
    decreases k
  {
    var rest := nodes[1..];
    var second := Word(words, first + 8);
    assert Without(nodes, k)[0] == nodes[0] && Without(nodes, k)[1..] == Without(rest, k - 1);
    if k == 1 {
      UnlinkSecond(words, words', first, nodes);
    } else {
      assert SameNode(words, words', nodes[0]);
      forall i | 0 <= i < |rest| && i != k - 1 && i != k - 2 ensures SameNode(words, words', rest[i]) {
        assert rest[i] == nodes[i + 1];
      }
      Unlink(words, words', second, rest, k - 1);
    }
  }

  lemma FreeNodesApart(h: Heap)
    requires Inv(h)
    ensures NodesApart(h.free)
  {
    Separation(h);
    forall i, j | 0 <= i < j < |h.free|
      ensures h.free[i].addr + 16 <= h.free[j].addr || h.free[j].addr + 16 <= h.free[i].addr
    {
      assert Parts(h)[i] == h.free[i] && Parts(h)[j] == h.free[j];
      assert FreeOk(h.free[i]) && FreeOk(h.free[j]);
    }
  }

  /** Byte `a` belongs to a live block. */
  ghost predicate InLive(h: Heap, a: nat)
  {
    exists i :: 0 <= i < |h.live| && h.live[i].Extent().Contains(a)
  }

  /** No byte of a free region belongs to a live block. */
  lemma FreeNotLive(h: Heap, k: nat, a: nat)
    requires Inv(h) && k < |h.free| && h.free[k].Contains(a)
    ensures !InLive(h, a)
  {
    assert Owners(h, a) <= 1;
    if i :| 0 <= i < |h.live| && h.live[i].Extent().Contains(a) {
      CoverAt(h.free, k, a);
      CoverAt(Extents(h.live), i, a);
    }
  }

  lemma FreeWordsNotLive(h: Heap, k: nat, at: nat)
    requires Inv(h) && k < |h.free| && h.free[k].addr <= at && at + NODE_SIZE <= h.free[k].End()
    ensures forall a :: InLive(h, a) ==> a != at && a != at + 8
  {
    FreeNotLive(h, k, at);
    FreeNotLive(h, k, at + 8);
  }

  /** Taking the first node out of the list. */
  lemma UnlinkFirst(h: Heap, words: map<nat, nat>, first: nat)
    requires Inv(h) && Chain(words, first, h.free) && h.free != []
    ensures var successor := Word(words, first + 8);
            var words' := words[first + 8 := 0];
            && Chain(words', successor, Without(h.free, 0))
            && forall a :: InLive(h, a) ==> Word(words', a) == Word(words, a)
  {
    var words' := words[first + 8 := 0];
    FreeNodesApart(h);
    assert FreeOk(h.free[0]);
    FreeWordsNotLive(h, 0, first);
    var rest := h.free[1..];
    forall i | 0 <= i < |rest| ensures SameNode(words, words', rest[i]) {
      assert rest[i] == h.free[i + 1];
    }
    ChainFrame(words, words', Word(words, first + 8), rest);
    assert Without(h.free, 0) == rest;
  }

  /** The writes that take node `k > 0` out, through its predecessor. */
  function Bypass(words: map<nat, nat>, region: nat, current: nat): map<nat, nat> {
    words[region + 8 := 0][current + 8 := 0][current + 8 := Word(words, region + 8)]
  }

  lemma BypassUnlinks(words: map<nat, nat>, first: nat, nodes: seq<Region>, k: nat)
    requires Chain(words, first, nodes) && NodesApart(nodes) && 0 < k < |nodes|
    ensures Chain(Bypass(words, nodes[k].addr, nodes[k - 1].addr), first, Without(nodes, k))
  {
    var words' := Bypass(words, nodes[k].addr, nodes[k - 1].addr);
    ChainTail(words, first, nodes, k - 1);
    forall i | 0 <= i < |nodes| && i != k && i != k - 1 ensures SameNode(words, words', nodes[i]) {
      assert nodes[i].addr + 16 <= nodes[k].addr || nodes[k].addr + 16 <= nodes[i].addr;
      assert nodes[i].addr + 16 <= nodes[k - 1].addr || nodes[k - 1].addr + 16 <= nodes[i].addr;
    }
    Unlink(words, words', first, nodes, k);
  }

  lemma UnlinkLater(h: Heap, words: map<nat, nat>, first: nat, k: nat)
    requires Inv(h) && Chain(words, first, h.free) && 0 < k < |h.free|
    ensures var words' := Bypass(words, h.free[k].addr, h.free[k - 1].addr);
            && Chain(words', first, Without(h.free, k))
            && forall a :: InLive(h, a) ==> Word(words', a) == Word(words, a)
  {
    FreeNodesApart(h);
    BypassUnlinks(words, first, h.free, k);
    assert FreeOk(h.free[k]) && FreeOk(h.free[k - 1]);
    FreeWordsNotLive(h, k, h.free[k].addr);
    FreeWordsNotLive(h, k - 1, h.free[k - 1].addr);
  }

  lemma LiveAligned(b: Block)
    requires LiveOk(b)
    ensures b.addr % 8 == 0 && b.size % 8 == 0
  {
    DividesTrans(b.addr, SizeAlign(b.layout).value.align, 8);
  }

  /** An aligned word that begins in a live block ends in it. */
  lemma WordInBlock(h: Heap, i: nat, x: nat)
    requires Inv(h) && i < |h.live| && h.live[i].Extent().Contains(x) && x % 8 == 0
    ensures x + 8 <= h.live[i].Extent().End()
  {
    assert LiveOk(h.live[i]);
    LiveAligned(h.live[i]);
  }

  /** Writing a word of a live block writes all of it inside the block, and leaves the free list alone. */
  lemma LiveStoreKeepsChain(h: Heap, words: map<nat, nat>, first: nat, x: nat, v: nat)
    requires Inv(h) && Chain(words, first, h.free) && InLive(h, x) && x % 8 == 0
    ensures exists i :: 0 <= i < |h.live| && h.live[i].Extent().Contains(x) && x + 8 <= h.live[i].Extent().End()
    ensures Chain(words[x := v], first, h.free)
  {
    var i :| 0 <= i < |h.live| && h.live[i].Extent().Contains(x);
    WordInBlock(h, i, x);
    forall k | 0 <= k < |h.free| ensures SameNode(words, words[x := v], h.free[k]) {
      assert FreeOk(h.free[k]);
      FreeWordsNotLive(h, k, h.free[k].addr);
    }
    ChainFrame(words, words[x := v], first, h.free);
  }

  datatype Search = Missing | PanickedScan | Taken(region: Region, start: nat)

  class LinkedListAllocator {
    const memory: Memory
    /** `head.next`: the address of the first free node, 0 for none. */
    var next: nat
    ghost var heap: Heap

    ghost predicate Valid()
      reads this, memory
    {
      Inv(heap) && Chain(memory.words, next, heap.free)
    }

    /** `new` followed by `init`. */
    constructor (memory: Memory, start: nat, size: nat)
      requires 0 < start && start % NODE_ALIGN == 0 && NODE_SIZE <= size && start + size < USIZE_LIMIT
      modifies memory
      ensures Valid() && this.memory == memory && heap == Init(start, size)
    {
      this.memory := memory;
      next := 0;
      heap := Init(start, size);
      new;
      InitInv(start, size);
      AddFreeRegion(start, size, []);
    }

    /** `add_free_region`: both assertions of the source are proof obligations here. */
    method AddFreeRegion(addr: nat, size: nat, ghost nodes: seq<Region>)
      requires Chain(memory.words, next, nodes) && FreeOk(Region(addr, size))
      requires forall i :: 0 <= i < |nodes| ==> Apart(nodes[i], Region(addr, size)) && nodes[i].size >= NODE_SIZE
      modifies memory, this`next
      ensures Chain(memory.words, next, [Region(addr, size)] + nodes)
      ensures forall a :: a != addr && a != addr + 8 ==> Word(memory.words, a) == old(Word(memory.words, a))
    {
      assert AlignUp(addr, NODE_ALIGN) == addr by { AlignUpUnique(addr, NODE_ALIGN, addr); }
      assert size >= NODE_SIZE;
      ghost var before := memory.words;
      memory.words := memory.words[addr := size][addr + 8 := next];
      forall i | 0 <= i < |nodes| ensures SameNode(before, memory.words, nodes[i]) {
        assert Apart(nodes[i], Region(addr, size));
      }
      ChainFrame(before, memory.words, next, nodes);
      next := addr;
      assert ([Region(addr, size)] + nodes)[1..] == nodes;
    }

    /** `find_region`: walk the list, and unlink the first suitable node. */
    method FindRegion(need: Need) returns (r: Search)
      requires Valid() && need.align > 0
      modifies memory, this`next
      ensures match ScanFree(heap.free, need)
              case NoFit => r == Missing && Chain(memory.words, next, heap.free)
              case ScanOverflow => r == PanickedScan && Chain(memory.words, next, heap.free)
              case Found(i, start) =>
                r == Taken(heap.free[i], start) && Chain(memory.words, next, Without(heap.free, i))
      ensures forall a :: InLive(heap, a) ==> Word(memory.words, a) == old(Word(memory.words, a))
    {
      var current, region := 0, next; // `current` is 0 for the list head itself
      ghost var k := 0;
      ghost var free := heap.free;
      assert free[0..] == free;
      while region != 0
        invariant k <= |free| && memory.words == old(memory.words) && next == old(next)
        invariant Chain(memory.words, region, free[k..])
        invariant if k == 0 then current == 0 && region == next else current == free[k - 1].addr
        invariant ScanFree(free, need) == Shift(ScanFree(free[k..], need), k)
        decreases |free| - k
      {
        assert free[k..][0] == free[k] && free[k..][1..] == free[k + 1..];
        var size := Word(memory.words, region);
        match FitIn(Region(region, size), need) {
          case Overflow =>
            return PanickedScan;
          case FitsAt(start) =>
            assert FreeOk(free[k]) && (k > 0 ==> FreeOk(free[k - 1]));
            Remove(current, region, k);
            return Taken(Region(region, size), start);
          case Unfit =>
            current, region := region, Word(memory.words, region + 8);
            k := k + 1;
        }
      }
      r := Missing;
    }

    /** The three writes that take `region` out of the list: its own `next` is taken, then the
        predecessor's is taken and replaced. */
    method Remove(current: nat, region: nat, ghost k: nat)
      requires Valid() && k < |heap.free| && region == heap.free[k].addr && FreeOk(heap.free[k])
      requires k > 0 ==> FreeOk(heap.free[k - 1])
      requires if k == 0 then current == 0 && region == next else current == heap.free[k - 1].addr
      modifies memory, this`next
      ensures Chain(memory.words, next, Without(heap.free, k))
      ensures forall a :: InLive(heap, a) ==> Word(memory.words, a) == old(Word(memory.words, a))
    {
      ghost var before, first := memory.words, next;
      var successor := Word(memory.words, region + 8);
      memory.words := memory.words[region + 8 := 0];
      if current == 0 {
        next := 0;
        next := successor;
        UnlinkFirst(heap, before, first);
      } else {
        memory.words := memory.words[current + 8 := 0];
        memory.words := memory.words[current + 8 := successor];
        UnlinkLater(heap, before, first, k);
      }
    }

    /** `GlobalAlloc::alloc`. */
    method Alloc(layout: Layout) returns (r: Outcome)
      requires Valid() && layout.Valid()
      modifies memory, this
      ensures Valid() && (heap, r) == LinkedListHeap.Alloc(old(heap), layout)
      ensures forall a :: InLive(old(heap), a) ==> Word(memory.words, a) == old(Word(memory.words, a))
    {
      match SizeAlign(layout) {
        case None =>
          r := Panicked;
        case Some(need) =>
          var found := FindRegion(need);
          match found {
            case Missing => r := Null;
            case PanickedScan => r := Panicked;
            case Taken(region, start) =>
              Split(region, start, need, ScanFree(heap.free, need).index, layout);
              r := At(start);
          }
      }
    }

    /** The second half of `alloc`: the part of the region behind the block goes back on the list. */
    method Split(region: Region, start: nat, need: Need, ghost i: nat, ghost layout: Layout)
      requires Inv(heap) && layout.Valid() && SizeAlign(layout) == Some(need)
      requires i < |heap.free| && region == heap.free[i] && FitIn(region, need) == FitsAt(start)
      requires Chain(memory.words, next, Without(heap.free, i))
      modifies memory, this
      ensures Valid() && heap == Carve(old(heap), i, start, layout, need)
      ensures forall a :: InLive(old(heap), a) ==> Word(memory.words, a) == old(Word(memory.words, a))
    {
      CarveInv(heap, i, start, layout, need);
      assert start + need.size < USIZE_LIMIT;        // expect("overflow")
      var end := start + need.size;
      assert end <= region.End();                    // the subtraction does not underflow
      var excess := region.End() - end;
      if excess > 0 {
        ExcessApart(heap, i, start, layout, need);
        FreeWordsNotLive(heap, i, end);
        AddFreeRegion(end, excess, Without(heap.free, i));
      } else {
        assert [] + Without(heap.free, i) == Without(heap.free, i);
      }
      heap := Carve(heap, i, start, layout, need);
    }

    /** `GlobalAlloc::dealloc` of a block this allocator handed out for `layout`. */
    method Dealloc(ptr: nat, layout: Layout, ghost b: Block)
      requires Valid() && b in heap.live && b.addr == ptr && b.layout == layout
      modifies memory, this
      ensures Valid() && heap == LinkedListHeap.Dealloc(old(heap), b)
      ensures forall a :: InLive(heap, a) ==> Word(memory.words, a) == old(Word(memory.words, a))
    {
      DeallocInv(heap, b);
      BlockApart(heap, b);
      var size := SizeAlign(layout).value.size;
      AddFreeRegion(ptr, size, heap.free);
      heap := LinkedListHeap.Dealloc(heap, b);
      FreeWordsNotLive(heap, 0, ptr);
    }
  }

  function Shift(s: Scan, k: nat): Scan {
    if s.Found? then Found(s.index + k, s.start) else s
  }

  /** The remainder of a carved region can hold a node and is disjoint from the other free regions. */
  lemma ExcessApart(h: Heap, i: nat, start: nat, layout: Layout, need: Need)
    requires Inv(h) && layout.Valid() && SizeAlign(layout) == Some(need)
    requires i < |h.free| && FitIn(h.free[i], need) == FitsAt(start) && start + need.size < h.free[i].End()
    ensures var excess := Region(start + need.size, h.free[i].End() - (start + need.size));
            && FreeOk(excess)
            && forall j :: 0 <= j < |h.free| - 1 ==>
                 Apart(Without(h.free, i)[j], excess) && Without(h.free, i)[j].size >= NODE_SIZE
  {
    Separation(h);
    CarveAligned(h, i, start, layout, need);
    assert FreeOk(h.free[i]);
    forall j | 0 <= j < |h.free| - 1
      ensures Apart(Without(h.free, i)[j], h.free[i]) && Without(h.free, i)[j].size >= NODE_SIZE
    {
      var j' := if j < i then j else j + 1;
      assert Without(h.free, i)[j] == h.free[j'] && FreeOk(h.free[j']);
      assert Parts(h)[j'] == h.free[j'] && Parts(h)[i] == h.free[i];
    }
  }

  /** A live block can hold a node and is disjoint from every free region. */
  lemma BlockApart(h: Heap, b: Block)
    requires Inv(h) && b in h.live
    ensures LiveOk(b) && FreeOk(b.Extent())
    ensures forall j :: 0 <= j < |h.free| ==> Apart(h.free[j], b.Extent()) && h.free[j].size >= NODE_SIZE
  {
    Separation(h);
    var i := IndexOf(h.live, b);
    assert LiveOk(h.live[i]);
    DividesTrans(b.addr, SizeAlign(b.layout).value.align, NODE_ALIGN);
    forall j | 0 <= j < |h.free| ensures Apart(h.free[j], b.Extent()) && h.free[j].size >= NODE_SIZE {
      assert Parts(h)[j] == h.free[j] && Parts(h)[|h.free| + i] == b.Extent();
      assert FreeOk(h.free[j]);
    }
  }
}
