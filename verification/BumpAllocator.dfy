/**
The bump allocator of kernel/src/allocator/bump.rs: a cursor that only moves up, and a
count of live allocations that moves it back to the start when it reaches zero.
*/
module BumpAllocator {
  import opened Layouts
  import opened Sequences
  import opened LinkedListHeap
  import opened LinkedListRuns

  /** `live` is what clients hold, in the order it was handed out. */
  datatype Bump = Bump(start: nat, end: nat, next: nat, allocations: nat, live: seq<Block>)

  function EmptyBump(start: nat, size: nat): Bump {
    Bump(start, start + size, start, 0, [])
  }

  function Take(b: Bump, layout: Layout): (Bump, Outcome)
    requires layout.Valid()
  {
    var start := AlignUp(b.next, layout.align);
    if start >= USIZE_LIMIT then (b, Panicked)
    else
      var end := start + layout.size;
      if end >= USIZE_LIMIT || end > b.end then (b, Null)
      else if b.allocations + 1 >= USIZE_LIMIT then (b, Panicked)
      else
        var block := Block(start, layout.size, layout);
        (b.(next := end, allocations := b.allocations + 1, live := b.live + [block]), At(start))
  }

  function Give(b: Bump, i: nat): Bump
    requires i < |b.live| && b.allocations > 0
  {
    b.(allocations := b.allocations - 1,
       next := if b.allocations == 1 then b.start else b.next,
       live := Without(b.live, i))
  }

  datatype BumpCall = AllocCall(layout: Layout) | DeallocCall(i: nat)

  function Serve(b: Bump, c: BumpCall): Bump {
    match c
    case AllocCall(layout) => if layout.Valid() then Take(b, layout).0 else b
    case DeallocCall(i) => if i < |b.live| && b.allocations > 0 then Give(b, i) else b
  }

  function ServeAll(b: Bump, cs: seq<BumpCall>): Bump
    decreases |cs|
  {
    if cs == [] then b else ServeAll(Serve(b, cs[0]), cs[1..])
  }

  predicate BlockOk(b: Block) {
    b.layout.Valid() && b.size == b.layout.size && b.addr % b.layout.align == 0
  }

  /** The counter is the number of live blocks; these are aligned, lie below the cursor, and each
      starts behind all that were handed out before it. With none, the cursor is back at the start. */
  ghost predicate BumpInv(b: Bump) {
    && b.start <= b.next <= b.end < USIZE_LIMIT
    && b.allocations == |b.live| && (b.live == [] ==> b.next == b.start)
    && (forall i {:trigger BlockOk(b.live[i])} :: 0 <= i < |b.live| ==> BlockOk(b.live[i]))
    && (forall i :: 0 <= i < |b.live| ==> b.start <= b.live[i].addr && b.live[i].Extent().End() <= b.next)
    && (forall i, j :: 0 <= i < j < |b.live| ==> b.live[i].Extent().End() <= b.live[j].addr)
  }

  lemma TakeInv(b: Bump, layout: Layout)
    requires BumpInv(b) && layout.Valid()
    ensures BumpInv(Take(b, layout).0)
  {
    var b' := Take(b, layout).0;
    forall i | 0 <= i < |b'.live| ensures BlockOk(b'.live[i]) {
      if i < |b.live| { assert BlockOk(b.live[i]); }
    }
  }

  lemma GiveInv(b: Bump, k: nat)
    requires BumpInv(b) && k < |b.live|
    ensures BumpInv(Give(b, k))
  {
    var b' := Give(b, k);
    forall i | 0 <= i < |b'.live|
      ensures BlockOk(b'.live[i]) && b'.live[i] == b.live[if i < k then i else i + 1]
    {
      assert BlockOk(b.live[if i < k then i else i + 1]);
    }
  }

  lemma {:induction false} ServeAllInv(b: Bump, cs: seq<BumpCall>)
    requires BumpInv(b)
    ensures BumpInv(ServeAll(b, cs)) && ServeAll(b, cs).start == b.start && ServeAll(b, cs).end == b.end
    decreases |cs|
  {
    if cs != [] {
      match cs[0] {
        case AllocCall(layout) => if layout.Valid() { TakeInv(b, layout); }
        case DeallocCall(i) => if i < |b.live| { GiveInv(b, i); }
      }
      ServeAllInv(Serve(b, cs[0]), cs[1..]);
    }
  }

  /** Over every run, live blocks are aligned, pairwise disjoint and inside the heap, the counter
      counts them, and the next block overlaps none of them, whatever resets happened before. */
  lemma RunSafety(start: nat, size: nat, cs: seq<BumpCall>, layout: Layout)
    requires start + size < USIZE_LIMIT && layout.Valid()
    ensures var b := ServeAll(EmptyBump(start, size), cs);
            && b.allocations == |b.live|
            && AllApart(Extents(b.live))
            && (forall i :: 0 <= i < |b.live| ==>
                  && b.live[i].layout.Valid() && b.live[i].addr % b.live[i].layout.align == 0
                  && start <= b.live[i].addr && b.live[i].Extent().End() <= b.next <= start + size)
            && var r := Take(b, layout).1;
               r.At? ==> && r.addr % layout.align == 0 && start <= r.addr && r.addr + layout.size <= start + size
                         && forall i :: 0 <= i < |b.live| ==> Apart(b.live[i].Extent(), Region(r.addr, layout.size))
  {
    ServeAllInv(EmptyBump(start, size), cs);
    var b := ServeAll(EmptyBump(start, size), cs);
    forall i | 0 <= i < |b.live| ensures BlockOk(b.live[i]) {}
  }

  /** Once everything has been freed the allocator is as good as new. */
  lemma AllFreedIsNew(start: nat, size: nat, cs: seq<BumpCall>)
    requires start + size < USIZE_LIMIT
    ensures var b := ServeAll(EmptyBump(start, size), cs);
            b.live == [] ==> b == EmptyBump(start, size)
  {
    ServeAllInv(EmptyBump(start, size), cs);
  }

  /** Exactly which address `alloc` answers with: the least aligned one behind the cursor, if the block ends
      within the heap and the counter has room. */
  lemma TakeExact(b: Bump, layout: Layout, a: nat)
    requires BumpInv(b) && layout.Valid()
    ensures Take(b, layout).1 == At(a) <==>
              && b.next <= a < b.next + layout.align && a % layout.align == 0
              && a + layout.size <= b.end && b.allocations + 1 < USIZE_LIMIT
    ensures Take(b, layout).1 == Null <==>
              b.next <= USIZE_LIMIT - layout.align && AlignUp(b.next, layout.align) + layout.size > b.end
    ensures Take(b, layout).1 == At(a) ==>
              && Take(b, layout).0.next == a + layout.size && Take(b, layout).0.allocations == b.allocations + 1
              && Take(b, layout).0.live == b.live + [Block(a, layout.size, layout)]
    ensures !Take(b, layout).1.At? ==> Take(b, layout).0 == b
  {
    AlignUpOverflow(b.next, layout.align);
    if b.next <= a < b.next + layout.align && a % layout.align == 0 { AlignUpUnique(b.next, layout.align, a); }
  }

  /** Exactly when `alloc` panics: the aligned cursor leaves the address space, or the counter is
      full. */
  lemma PanicExact(b: Bump, layout: Layout)
    requires BumpInv(b) && layout.Valid()
    ensures Take(b, layout).1.Panicked? <==>
              || b.next > USIZE_LIMIT - layout.align
              || (AlignUp(b.next, layout.align) + layout.size <= b.end && b.allocations >= USIZE_LIMIT - 1)
  {
    AlignUpOverflow(b.next, layout.align);
  }

  /** Freed memory comes back only all at once: over any run during which something stays live,
      the cursor never moves down. */
  lemma {:induction false} NoReuseWhileLive(b: Bump, cs: seq<BumpCall>)
    requires BumpInv(b)
    requires forall k :: 0 <= k <= |cs| ==> ServeAll(b, cs[..k]).live != []
    ensures b.next <= ServeAll(b, cs).next
    decreases |cs|
  {
    if cs != [] {
      var b', rest := Serve(b, cs[0]), cs[1..];
      ServeAllInv(b, cs[..1]);
      assert cs[..1][1..] == [];
      assert ServeAll(b, cs[..1]) == b';
      forall k | 0 <= k <= |rest| ensures ServeAll(b', rest[..k]).live != [] {
        assert cs[..k + 1][1..] == rest[..k] && cs[..k + 1][0] == cs[0];
        assert ServeAll(b, cs[..k + 1]) == ServeAll(b', rest[..k]);
      }
      NoReuseWhileLive(b', rest);
    }
  }

  class BumpAllocator {
    var heapStart: nat
    var heapEnd: nat
    var next: nat
    var allocations: nat
    ghost var live: seq<Block>

    ghost function State(): Bump
      reads this
    {
      Bump(heapStart, heapEnd, next, allocations, live)
    }

    constructor ()
      ensures State() == EmptyBump(0, 0)
    {
      heapStart, heapEnd, next, allocations, live := 0, 0, 0, 0, [];
    }

    method Initialize(start: nat, size: nat)
      requires start + size < USIZE_LIMIT && State() == EmptyBump(0, 0)
      modifies this
      ensures State() == EmptyBump(start, size) && BumpInv(State())
    {
      heapStart := start;
      heapEnd := start + size;
      next := start;
    }

    method Alloc(layout: Layout) returns (r: Outcome)
      requires BumpInv(State()) && layout.Valid()
      modifies this
      ensures BumpInv(State()) && (State(), r) == Take(old(State()), layout)
    {
      TakeInv(State(), layout);
      var start := AlignUp(next, layout.align);
      if start >= USIZE_LIMIT { return Panicked; }
      var end := start + layout.size;
      if end >= USIZE_LIMIT { return Null; }
      if end > heapEnd { return Null; }
      if allocations + 1 >= USIZE_LIMIT { return Panicked; }
      next := end;
      allocations := allocations + 1;
      live := live + [Block(start, layout.size, layout)];
      r := At(start);
    }

    /** The pointer and layout are not looked at; the decrement never underflows. */
    method Dealloc(ghost i: nat)
      requires BumpInv(State()) && i < |live|
      modifies this
      ensures BumpInv(State()) && State() == Give(old(State()), i)
    {
      GiveInv(State(), i);
      assert allocations >= 1;
      allocations := allocations - 1;
      if allocations == 0 {
        next := heapStart;
      }
      live := Without(live, i);
    }
  }
}
