/**
The global allocator of kernel/src/allocator/fixed_size_block.rs on raw memory: the
cached blocks of a class are linked through their own first word, in the same memory whose
free regions carry the fallback's list.
*/
module FixedSizeBlockAllocator {
  import opened Layouts
  import opened Sequences
  import opened LinkedListHeap
  import opened LinkedListAllocator
  import opened F = FixedSizeBlocks
  import opened FixedSizeRuns

  /** Following `next` from `first` visits exactly these addresses and then ends. */
  ghost predicate NextChain(words: map<nat, nat>, first: nat, addrs: seq<nat>)
    decreases |addrs|
  {
    if addrs == [] then first == 0
    else first == addrs[0] && first != 0 && NextChain(words, Word(words, first), addrs[1..])
  }

  lemma {:induction false} NextFrame(words: map<nat, nat>, words': map<nat, nat>, first: nat, addrs: seq<nat>)
    requires NextChain(words, first, addrs)
    requires forall i :: 0 <= i < |addrs| ==> Word(words', addrs[i]) == Word(words, addrs[i])
    ensures NextChain(words', first, addrs)
    decreases |addrs|
  {
    if addrs != [] {
      forall i | 0 <= i < |addrs[1..]| ensures Word(words', addrs[1..][i]) == Word(words, addrs[1..][i]) {
        assert addrs[1..][i] == addrs[i + 1];
      }
      NextFrame(words, words', Word(words, first), addrs[1..]);
    }
  }

  ghost predicate Chains(words: map<nat, nat>, heads: seq<nat>, lists: seq<seq<nat>>) {
    |heads| == |lists| && forall k :: 0 <= k < |lists| ==> NextChain(words, heads[k], lists[k])
  }

  /** The caches survive any change of memory that spares the cached words. */
  lemma ChainsFrame(words: map<nat, nat>, words': map<nat, nat>, heads: seq<nat>, lists: seq<seq<nat>>)
    requires Chains(words, heads, lists)
    requires forall k, a :: 0 <= k < |lists| && a in lists[k] ==> Word(words', a) == Word(words, a)
    ensures Chains(words', heads, lists)
  {
    forall k | 0 <= k < |lists| ensures NextChain(words', heads[k], lists[k]) {
      NextFrame(words, words', heads[k], lists[k]);
    }
  }

  /** Byte `x` belongs to a client. */
  ghost predicate Granted(f: Fsb, x: nat) {
    exists i :: 0 <= i < |f.live| && f.live[i].backing.Extent().Contains(x)
  }

  lemma CachedIsLive(f: Fsb, k: nat, a: nat)
    requires F.Inv(f) && k < CLASSES && a in f.lists[k]
    ensures InLive(f.heap, a) && a % 8 == 0
  {
    CachedHas(f.lists, |f.lists|, k, a);
    var b := ClassBlock(a, k);
    assert b in multiset(Outstanding(f));
    var i := IndexOf(f.heap.live, b);
    assert f.heap.live[i].Extent().Contains(a) && LiveOk(b);
    LiveAligned(b);
  }

  lemma GrantAligned(f: Fsb, g: Grant)
    requires F.Inv(f) && g in f.live
    ensures g.Addr() % 8 == 0
  {
    GrantsCanBeFreed(f, g);
    assert LiveOk(f.heap.live[IndexOf(f.heap.live, g.backing)]);
    LiveAligned(g.backing);
  }

  lemma GrantedIsLive(f: Fsb, x: nat)
    requires F.Inv(f) && Granted(f, x)
    ensures InLive(f.heap, x)
  {
    var i :| 0 <= i < |f.live| && f.live[i].backing.Extent().Contains(x);
    GrantsCanBeFreed(f, f.live[i]);
    var j := IndexOf(f.heap.live, f.live[i].backing);
    assert f.heap.live[j].Extent().Contains(x);
  }

  /** No cached word lies in a client's block. */
  lemma CachedNotGranted(f: Fsb, k: nat, a: nat)
    requires F.Inv(f) && k < CLASSES && a in f.lists[k]
    ensures !Granted(f, a)
  {
    CachedHas(f.lists, |f.lists|, k, a);
    var cached := Cached(f.lists, |f.lists|);
    var p := IndexOf(cached, ClassBlock(a, k));
    assert Outstanding(f)[p] == ClassBlock(a, k) && ClassBlock(a, k).Extent().Contains(a);
    forall i | 0 <= i < |f.live| ensures !f.live[i].backing.Extent().Contains(a) {
      OutstandingApart(f, p, |cached| + i);
      assert Outstanding(f)[|cached| + i] == f.live[i].backing;
    }
  }

  /** Popping: the remaining caches and the fallback's list do not depend on the popped word, and
      no client owned it. */
  lemma PopFrame(f: Fsb, heads: seq<nat>, words: map<nat, nat>, layout: Layout, index: nat, first: nat)
    requires F.Inv(f) && layout.Valid() && ListIndex(layout) == Some(index) && f.lists[index] != []
    requires Chains(words, heads, f.lists) && Chain(words, first, f.heap.free)
    ensures var node := heads[index];
            var words' := words[node := 0];
            && Chains(words', heads[index := Word(words, node)], F.Alloc(f, layout).0.lists)
            && Chain(words', first, f.heap.free)
            && !Granted(f, node)
  {
    var node, f' := heads[index], F.Alloc(f, layout).0;
    var words', heads' := words[node := 0], heads[index := Word(words, node)];
    PopInv(f, layout, index);
    assert f'.live[|f.live|].backing.Extent().Contains(node);
    forall k, a | 0 <= k < |f'.lists| && a in f'.lists[k] ensures Word(words', a) == Word(words, a) {
      CachedNotGranted(f', k, a);
    }
    assert Chains(words, heads', f'.lists);
    ChainsFrame(words, words', heads', f'.lists);
    CachedIsLive(f, index, node);
    LiveStoreKeepsChain(f.heap, words, first, node, 0);
    CachedNotGranted(f, index, node);
  }

  /** Pushing: the freed word was in no cache and on no free list, and now no client owns it. */
  lemma PushFrame(f: Fsb, heads: seq<nat>, words: map<nat, nat>, g: Grant, index: nat, first: nat)
    requires F.Inv(f) && g in f.live && CanFree(f, g) && ListIndex(g.layout) == Some(index)
    requires Chains(words, heads, f.lists) && Chain(words, first, f.heap.free)
    ensures var words' := words[g.Addr() := heads[index]];
            && Chains(words', heads[index := g.Addr()], F.Dealloc(f, g).lists)
            && Chain(words', first, f.heap.free)
            && !Granted(F.Dealloc(f, g), g.Addr())
  {
    var ptr, f' := g.Addr(), F.Dealloc(f, g);
    var words' := words[ptr := heads[index]];
    GrantsCanBeFreed(f, g);
    GrantSound(f, g);
    var i := IndexOf(f.live, g);
    assert f.live[i].backing.Extent().Contains(ptr);
    forall k, a | 0 <= k < |f.lists| && a in f.lists[k] ensures Word(words', a) == Word(words, a) {
      CachedNotGranted(f, k, a);
    }
    ChainsFrame(words, words', heads, f.lists);
    assert ([ptr] + f.lists[index])[1..] == f.lists[index];
    GrantedIsLive(f, ptr);
    GrantAligned(f, g);
    LiveStoreKeepsChain(f.heap, words, first, ptr, heads[index]);
    F.DeallocInv(f, g);
    assert ptr in f'.lists[index];
    CachedNotGranted(f', index, ptr);
  }

  class FixedSizeBlockAllocator {
    const memory: Memory
    const fallback: LinkedListAllocator
    /** `list_heads`: the address of the first cached block of each class, 0 for none. */
    const heads: array<nat>
    ghost var f: Fsb

    ghost predicate Valid()
      reads this, memory, fallback, heads
    {
      && fallback.memory == memory && fallback.Valid() && fallback.heap == f.heap
      && F.Inv(f)
      && Chains(memory.words, heads[..], f.lists)
    }

    /** `new` followed by `init`. */
    constructor (memory: Memory, start: nat, size: nat)
      requires 0 < start && start % NODE_ALIGN == 0 && NODE_SIZE <= size && start + size < USIZE_LIMIT
      modifies memory
      ensures Valid() && this.memory == memory && f == New(start, size)
      ensures fresh(fallback) && fresh(heads)
    {
      this.memory := memory;
      fallback := new LinkedListAllocator(memory, start, size);
      heads := new nat[CLASSES](_ => 0);
      f := New(start, size);
      NewInv(start, size);
    }

    /** `GlobalAlloc::alloc`; no byte of a client's block is touched. */
    method Alloc(layout: Layout) returns (r: Outcome)
      requires Valid() && layout.Valid()
      modifies this`f, memory, fallback, heads
      ensures Valid() && (f, r) == F.Alloc(old(f), layout)
      ensures forall x :: Granted(old(f), x) ==> Word(memory.words, x) == old(Word(memory.words, x))
    {
      match ListIndex(layout) {
        case Some(index) =>
          if heads[index] != 0 {
            r := Pop(index, layout);
          } else {
            assert f.lists[index] == [];
            ClassLayoutValid(index);
            AllocInv(f, layout);
            r := FallbackAlloc(ClassLayout(index), layout);
          }
        case None =>
          AllocInv(f, layout);
          r := FallbackAlloc(layout, layout);
      }
    }

    /** Take the first block off the list of a class. */
    method Pop(index: nat, ghost layout: Layout) returns (r: Outcome)
      requires Valid() && layout.Valid() && ListIndex(layout) == Some(index) && heads[index] != 0
      modifies this`f, memory, heads
      ensures Valid() && (f, r) == F.Alloc(old(f), layout)
      ensures forall x :: Granted(old(f), x) ==> Word(memory.words, x) == old(Word(memory.words, x))
    {
      ghost var before, was := memory.words, f;
      var node := heads[index];
      assert node == f.lists[index][0];
      AllocInv(f, layout);
      heads[index] := 0;
      var next := Word(memory.words, node);
      memory.words := memory.words[node := 0];
      heads[index] := next;
      f := F.Alloc(f, layout).0;
      PopFrame(was, old(heads[..]), before, layout, index, fallback.next);
      assert heads[..] == old(heads[..])[index := next];
      r := At(node);
    }

    method FallbackAlloc(layout: Layout, ghost wanted: Layout) returns (r: Outcome)
      requires Valid() && layout.Valid() && F.Inv(FromFallback(f, layout, wanted).0)
      modifies this`f, memory, fallback
      ensures Valid() && (f, r) == FromFallback(old(f), layout, wanted)
      ensures forall x :: Granted(old(f), x) ==> Word(memory.words, x) == old(Word(memory.words, x))
    {
      r := fallback.Alloc(layout);
      f := FromFallback(f, layout, wanted).0;
      forall k, a | 0 <= k < CLASSES && a in f.lists[k] ensures Word(memory.words, a) == old(Word(memory.words, a)) {
        CachedIsLive(old(f), k, a);
      }
      ChainsFrame(old(memory.words), memory.words, heads[..], f.lists);
      forall x | Granted(old(f), x) ensures Word(memory.words, x) == old(Word(memory.words, x)) {
        GrantedIsLive(old(f), x);
      }
    }

    /** `GlobalAlloc::dealloc` of a pointer granted for `layout`; no byte of another client's block
        is touched. */
    method Dealloc(ptr: nat, layout: Layout, ghost g: Grant)
      requires Valid() && g in f.live && g.Addr() == ptr && g.layout == layout
      modifies this`f, memory, fallback, heads
      ensures CanFree(old(f), g) && Valid() && f == F.Dealloc(old(f), g)
      ensures forall x :: Granted(f, x) ==> Word(memory.words, x) == old(Word(memory.words, x))
    {
      F.DeallocInv(f, g);
      GrantsCanBeFreed(f, g);
      match ListIndex(layout) {
        case Some(index) =>
          assert 8 <= BlockSize(index) by { BlockSizeGrows(0, index); }  // room for a list node
          Push(ptr, index, g);
        case None =>
          fallback.Dealloc(ptr, layout, g.backing);
          f := F.Dealloc(f, g);
          forall k, a | 0 <= k < CLASSES && a in f.lists[k]
            ensures Word(memory.words, a) == old(Word(memory.words, a))
          {
            CachedIsLive(f, k, a);
          }
          ChainsFrame(old(memory.words), memory.words, heads[..], f.lists);
          forall x | Granted(f, x) ensures Word(memory.words, x) == old(Word(memory.words, x)) {
            GrantedIsLive(f, x);
          }
      }
    }

    /** Write a list node into the freed block and put it in front of its class. */
    method Push(ptr: nat, index: nat, ghost g: Grant)
      requires Valid() && g in f.live && g.Addr() == ptr && ListIndex(g.layout) == Some(index)
      requires F.Inv(F.Dealloc(f, g))
      modifies this`f, memory, heads
      ensures Valid() && f == F.Dealloc(old(f), g)
      ensures forall x :: Granted(f, x) ==> Word(memory.words, x) == old(Word(memory.words, x))
    {
      ghost var before, was := memory.words, f;
      var next := heads[index];
      memory.words := memory.words[ptr := next];
      heads[index] := ptr;
      PushFrame(was, old(heads[..]), before, g, index, fallback.next);
      f := F.Dealloc(f, g);
      assert heads[..] == old(heads[..])[index := ptr];
    }

    /** A client writes to a word of memory it was granted: neither layer notices. */
    method Store(x: nat, v: nat)
      requires Valid() && Granted(f, x) && x % 8 == 0
      modifies memory
      ensures Valid() && memory.words == old(memory.words)[x := v]
    {
      ghost var before := memory.words;
      memory.words := memory.words[x := v];
      GrantedIsLive(f, x);
      LiveStoreKeepsChain(f.heap, before, fallback.next, x, v);
      forall k, a | 0 <= k < CLASSES && a in f.lists[k] ensures a != x {
        CachedNotGranted(f, k, a);
      }
      ChainsFrame(before, memory.words, heads[..], f.lists);
    }
  }
}
