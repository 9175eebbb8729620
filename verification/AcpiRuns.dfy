/**
Mapping and unmapping over whole runs, from whatever page tables the boot loader and the heap
left behind: the kernel image and the window onto physical memory may lie anywhere.
*/
module AcpiRuns {
  import opened Layouts
  import opened Sequences
  import opened AcpiMapping

  const BASE: nat := CURSOR_START / PAGE
  const HEAP: nat := HEAP_START / PAGE

  ghost function Exec(vm: Vm, es: seq<Event>): Vm
    decreases |es|
  {
    if es == [] then vm else Exec(Step(vm, es[0]), es[1..])
  }

  function Start(base: PageMap): Vm { Running(base, BASE, [], []) }

  /** The cursor never goes past a page that was mapped at boot. */
  ghost predicate StaysBelow(base: PageMap, cursor: nat) {
    BASE <= cursor && forall q :: q in base && BASE <= q ==> cursor <= q
  }

  function End(m: Mapping): nat { m.FirstPage() + m.Count() }

  predicate MappingOk(m: Mapping) {
    && m.Count() == PageCount(m.phys, m.size) > 0 && m.virt % PAGE == m.phys % PAGE && BASE <= m.FirstPage()
  }

  /** Page ranges were handed out one behind the other, up to the cursor. */
  ghost predicate Stacked(ms: seq<Mapping>, cursor: nat) {
    && (forall i :: 0 <= i < |ms| ==> MappingOk(ms[i]) && End(ms[i]) <= cursor)
    && (forall i, j {:trigger Below(ms[i], ms[j])} :: 0 <= i < j < |ms| ==> Below(ms[i], ms[j]))
  }

  predicate Below(m: Mapping, n: Mapping) {
    End(m) <= n.FirstPage()
  }

  /** Page `p` is mapped for `m`, to the frame that belongs there. */
  predicate MappedFor(pages: PageMap, m: Mapping, p: nat)
    requires m.FirstPage() <= p
  {
    p in pages && pages[p] == Offset(m.FirstPage(), FirstFrame(m.phys), p)
  }

  /** Every page of `m` is mapped for it, and was not mapped at boot. */
  ghost predicate LiveIn(base: PageMap, pages: PageMap, m: Mapping) {
    forall p :: m.Covers(p) ==> p !in base && MappedFor(pages, m, p)
  }

  ghost predicate Covered(live: seq<Mapping>, p: nat) {
    exists i :: 0 <= i < |live| && live[i].Covers(p)
  }

  /** The page tables are those of the boot plus the live mappings, which lie elsewhere, and nothing else. */
  ghost predicate Exact(base: PageMap, pages: PageMap, live: seq<Mapping>) {
    && (forall p :: p in base ==> p in pages && pages[p] == base[p])
    && (forall i {:trigger LiveIn(base, pages, live[i])} :: 0 <= i < |live| ==> LiveIn(base, pages, live[i]))
    && (forall p :: p in pages && p !in base ==> Covered(live, p))
  }

  ghost predicate Inv(base: PageMap, vm: Vm) {
    vm.Running? ==>
      && StaysBelow(base, vm.cursor)
      && Stacked(vm.live, vm.cursor) && Stacked(vm.ever, vm.cursor)
      && Exact(base, vm.pages, vm.live)
  }

  /** A request is served exactly if it is well formed, page tables are found, and its pages are lower-half
      pages that were not mapped at boot: no earlier request can be in its way. */
  lemma ServedExact(base: PageMap, vm: Vm, phys: nat, size: nat, tables: seq<bool>)
    requires Inv(base, vm) && vm.Running?
    ensures var n := PageCount(phys, size);
            Step(vm, Map(phys, size, tables)).Running? <==>
              && (phys + size + 4095) / 4096 * 4096 < 0x10_0000_0000_0000 && (size > 0 || phys % 4096 != 0)
              && (vm.cursor + n) * 4096 < 0x8000_0000_0000
              && (forall p :: vm.cursor <= p < vm.cursor + n ==> p !in base)
              && |tables| >= n && forall i :: 0 <= i < n ==> tables[i]
  {
    GoodRequestExact(phys, size);
    forall p | vm.cursor <= p && p !in base ensures p !in vm.pages {
      assert !Covered(vm.live, p);
    }
  }

  /** With the heap mapped, the heap and what else the boot left above the cursor are the only limits. */
  lemma ServedBelowHeap(base: PageMap, vm: Vm, phys: nat, size: nat, tables: seq<bool>)
    requires Inv(base, vm) && vm.Running? && HEAP in base
    ensures var n := PageCount(phys, size);
            Step(vm, Map(phys, size, tables)).Running? <==>
              && GoodRequest(phys, size)
              && (forall q :: q in base && vm.cursor <= q ==> vm.cursor + n <= q)
              && |tables| >= n && forall i :: 0 <= i < n ==> tables[i]
  {
    ServedExact(base, vm, phys, size, tables);
    GoodRequestExact(phys, size);
    var n := PageCount(phys, size);
    if forall p :: vm.cursor <= p < vm.cursor + n ==> p !in base {
      assert vm.cursor <= HEAP && !(vm.cursor <= HEAP < vm.cursor + n);
    }
  }

  lemma MappingAtOk(phys: nat, size: nat, page: nat)
    requires PageCount(phys, size) > 0
    ensures var m := MappingAt(phys, size, page);
            (BASE <= page ==> MappingOk(m)) && m.FirstPage() == page && m.Count() == PageCount(phys, size)
  {
    assert (page * PAGE + phys % PAGE) / PAGE == page;
    assert (page * PAGE + phys % PAGE) % PAGE == phys % PAGE;
  }

  lemma StackedSnoc(ms: seq<Mapping>, cursor: nat, m: Mapping, cursor': nat)
    requires Stacked(ms, cursor) && MappingOk(m) && cursor <= m.FirstPage() && End(m) <= cursor'
    ensures Stacked(ms + [m], cursor')
  {
    var ms' := ms + [m];
    forall i, j | 0 <= i < j < |ms'| ensures Below(ms'[i], ms'[j]) {
      if j < |ms| { assert Below(ms[i], ms[j]); } else { assert End(ms[i]) <= cursor; }
    }
  }

  lemma StackedWithout(ms: seq<Mapping>, cursor: nat, k: nat)
    requires Stacked(ms, cursor) && k < |ms|
    ensures Stacked(Without(ms, k), cursor)
  {
    var ms' := Without(ms, k);
    forall i, j | 0 <= i < j < |ms'| ensures Below(ms'[i], ms'[j]) {
      assert Below(ms[if i < k then i else i + 1], ms[if j < k then j else j + 1]);
    }
  }

  /** Mapping fresh pages keeps the page tables exact. */
  lemma ExactMap(base: PageMap, pages: PageMap, live: seq<Mapping>, m: Mapping)
    requires Exact(base, pages, live) && forall p :: m.Covers(p) ==> p !in pages && p !in base
    ensures Exact(base, pages + Linear(m.FirstPage(), FirstFrame(m.phys), m.Count()), live + [m])
  {
    var pages', live' := pages + Linear(m.FirstPage(), FirstFrame(m.phys), m.Count()), live + [m];
    forall i | 0 <= i < |live'| ensures LiveIn(base, pages', live'[i]) {
      if i < |live| { assert LiveIn(base, pages, live[i]); }
    }
    forall p | p in pages' && p !in base ensures Covered(live', p) {
      if p in pages {
        var i :| 0 <= i < |live| && live[i].Covers(p);
        assert live'[i].Covers(p);
      } else {
        assert live'[|live|].Covers(p);
      }
    }
  }

  lemma MapInv(base: PageMap, vm: Vm, phys: nat, size: nat, tables: seq<bool>)
    requires Inv(base, vm) && vm.Running?
    ensures Inv(base, Step(vm, Map(phys, size, tables)))
  {
    ServedExact(base, vm, phys, size, tables);
    if Step(vm, Map(phys, size, tables)).Running? {
      var n, m := PageCount(phys, size), MappingAt(phys, size, vm.cursor);
      MappingAtOk(phys, size, vm.cursor);
      StackedSnoc(vm.live, vm.cursor, m, vm.cursor + n);
      StackedSnoc(vm.ever, vm.cursor, m, vm.cursor + n);
      ExactMap(base, vm.pages, vm.live, m);
    }
  }

  function Removed(pages: PageMap, m: Mapping): PageMap {
    map p | p in pages && !m.Covers(p) :: pages[p]
  }

  lemma OtherStaysIn(base: PageMap, pages: PageMap, m: Mapping, gone: Mapping)
    requires LiveIn(base, pages, m) && (Below(m, gone) || Below(gone, m))
    ensures LiveIn(base, Removed(pages, gone), m)
  {
    forall p | m.Covers(p) ensures p !in base && MappedFor(Removed(pages, gone), m, p) {
      assert MappedFor(pages, m, p) && !gone.Covers(p);
    }
  }

  lemma StillCovered(live: seq<Mapping>, k: nat, p: nat)
    requires k < |live| && Covered(live, p) && !live[k].Covers(p)
    ensures Covered(Without(live, k), p)
  {
    var i :| 0 <= i < |live| && live[i].Covers(p);
    assert Without(live, k)[if i < k then i else i - 1].Covers(p);
  }

  /** Removing the pages of one live mapping keeps the page tables exact. */
  lemma ExactUnmap(base: PageMap, pages: PageMap, live: seq<Mapping>, cursor: nat, k: nat)
    requires Exact(base, pages, live) && Stacked(live, cursor) && k < |live|
    ensures Exact(base, Removed(pages, live[k]), Without(live, k))
  {
    var pages', live' := Removed(pages, live[k]), Without(live, k);
    assert LiveIn(base, pages, live[k]);
    forall i | 0 <= i < |live'| ensures LiveIn(base, pages', live'[i]) {
      var i' := if i < k then i else i + 1;
      assert Below(live[i'], live[k]) || Below(live[k], live[i']);
      assert LiveIn(base, pages, live[i']);
      OtherStaysIn(base, pages, live[i'], live[k]);
    }
    forall p | p in pages' && p !in base ensures Covered(live', p) {
      StillCovered(live, k, p);
    }
  }

  lemma UnmapInv(base: PageMap, vm: Vm, k: nat)
    requires Inv(base, vm) && vm.Running? && k < |vm.live|
    ensures Step(vm, Unmap(k)).Running? && Inv(base, Step(vm, Unmap(k)))
  {
    assert LiveIn(base, vm.pages, vm.live[k]);
    StackedWithout(vm.live, vm.cursor, k);
    ExactUnmap(base, vm.pages, vm.live, vm.cursor, k);
  }

  lemma StepInv(base: PageMap, vm: Vm, e: Event)
    requires Inv(base, vm)
    ensures Inv(base, Step(vm, e))
  {
    if vm.Running? {
      match e
      case Map(phys, size, tables) => MapInv(base, vm, phys, size, tables);
      case Unmap(i) => if i < |vm.live| { UnmapInv(base, vm, i); }
    }
  }

  lemma {:induction false} ExecInv(base: PageMap, vm: Vm, es: seq<Event>)
    requires Inv(base, vm)
    ensures Inv(base, Exec(vm, es))
    decreases |es|
  {
    if es != [] {
      StepInv(base, vm, es[0]);
      ExecInv(base, Step(vm, es[0]), es[1..]);
    }
  }

  /** What byte `k` of a mapping reaches. */
  function ByteAt(pages: PageMap, m: Mapping, k: nat): Option<nat> {
    Translate(pages, m.virt + k)
  }

  lemma CoveredByte(m: Mapping, k: nat)
    requires MappingOk(m) && k < m.size
    ensures m.Covers((m.virt + k) / PAGE)
  {
    RoundTrip(map[], m.FirstPage(), m.phys, m.size, k);
    assert m.virt == m.FirstPage() * PAGE + m.phys % PAGE;
    assert (m.virt + k) / PAGE in Linear(m.FirstPage(), FirstFrame(m.phys), m.Count());
  }

  lemma ByteReached(base: PageMap, pages: PageMap, m: Mapping, k: nat)
    requires MappingOk(m) && LiveIn(base, pages, m) && k < m.size
    ensures ByteAt(pages, m, k) == Some(m.phys + k)
  {
    var page, p := m.FirstPage(), (m.virt + k) / PAGE;
    RoundTrip(map[], page, m.phys, m.size, k);
    assert m.virt == page * PAGE + m.phys % PAGE;
    CoveredByte(m, k);
    assert MappedFor(pages, m, p);
  }

  /** Byte `k` of every live mapping reaches physical byte `k`. */
  lemma LiveTranslates(base: PageMap, vm: Vm, i: nat, k: nat)
    requires Inv(base, vm) && vm.Running? && i < |vm.live| && k < vm.live[i].size
    ensures ByteAt(vm.pages, vm.live[i], k) == Some(vm.live[i].phys + k)
  {
    assert LiveIn(base, vm.pages, vm.live[i]);
    ByteReached(base, vm.pages, vm.live[i], k);
  }

  /** Every page of a live mapping is writable and not cached, as device memory must be. */
  lemma LiveIsDeviceMemory(base: PageMap, vm: Vm, i: nat, k: nat)
    requires Inv(base, vm) && vm.Running? && i < |vm.live| && k < vm.live[i].size
    ensures var p := (vm.live[i].virt + k) / PAGE;
            p in vm.pages && vm.pages[p].flags.writable && vm.pages[p].flags.noCache
  {
    assert LiveIn(base, vm.pages, vm.live[i]);
    CoveredByte(vm.live[i], k);
    assert MappedFor(vm.pages, vm.live[i], (vm.live[i].virt + k) / PAGE);
  }

  ghost predicate AllTranslate(pages: PageMap, live: seq<Mapping>) {
    forall i, k: nat {:trigger ByteAt(pages, live[i], k)} :: 0 <= i < |live| && k < live[i].size ==>
      ByteAt(pages, live[i], k) == Some(live[i].phys + k)
  }

  lemma AllLiveTranslate(base: PageMap, vm: Vm)
    requires Inv(base, vm) && vm.Running?
    ensures AllTranslate(vm.pages, vm.live)
  {
    forall i, k: nat {:trigger ByteAt(vm.pages, vm.live[i], k)} | 0 <= i < |vm.live| && k < vm.live[i].size
      ensures ByteAt(vm.pages, vm.live[i], k) == Some(vm.live[i].phys + k)
    {
      LiveTranslates(base, vm, i, k);
    }
  }

  lemma NothingLive(base: PageMap, vm: Vm)
    requires Inv(base, vm) && vm.Running? && vm.live == []
    ensures vm.pages == base
  {
  }

  /** Over whole runs, from any page tables: live mappings translate byte for byte, no page range is ever
      handed out twice, the cursor goes past no page mapped at boot and so never reaches a mapped heap,
      every boot mapping is intact, and once everything is unmapped the page tables are those of the boot. */
  lemma RunSafety(base: PageMap, es: seq<Event>)
    ensures var vm := Exec(Start(base), es);
            vm.Running? ==>
              && StaysBelow(base, vm.cursor) && (HEAP in base ==> vm.cursor <= HEAP)
              && Stacked(vm.ever, vm.cursor)
              && (forall p :: p in base ==> p in vm.pages && vm.pages[p] == base[p])
              && AllTranslate(vm.pages, vm.live)
              && (vm.live == [] ==> vm.pages == base)
  {
    ExecInv(base, Start(base), es);
    var vm := Exec(Start(base), es);
    if vm.Running? {
      AllLiveTranslate(base, vm);
      if vm.live == [] { NothingLive(base, vm); }
    }
  }

  /** An unmap in a reachable state never panics. */
  lemma UnmapNeverFails(base: PageMap, es: seq<Event>, i: nat)
    ensures var vm := Exec(Start(base), es);
            vm.Running? ==> Step(vm, Unmap(i)).Running?
  {
    ExecInv(base, Start(base), es);
    var vm := Exec(Start(base), es);
    if vm.Running? && i < |vm.live| { UnmapInv(base, vm, i); }
  }

  /** Adding fresh pages and removing them again. */
  lemma AddThenRemove(pages: PageMap, m: Mapping)
    requires forall p :: m.Covers(p) ==> p !in pages
    ensures var pages' := pages + Linear(m.FirstPage(), FirstFrame(m.phys), m.Count());
            && (forall p :: m.Covers(p) ==> p in pages')
            && Removed(pages', m) == pages
  {
  }

  /** Unmapping what was just mapped restores the page tables exactly. */
  lemma UnmapRestores(vm: Vm, phys: nat, size: nat, tables: seq<bool>)
    requires vm.Running? && Step(vm, Map(phys, size, tables)).Running?
    ensures var vm' := Step(Step(vm, Map(phys, size, tables)), Unmap(|vm.live|));
            vm'.Running? && vm'.pages == vm.pages && vm'.live == vm.live
  {
    var vm1 := Step(vm, Map(phys, size, tables));
    MappingAtOk(phys, size, vm.cursor);
    var m := MappingAt(phys, size, vm.cursor);
    AddThenRemove(vm.pages, m);
    assert vm1.live[|vm.live|] == m && Without(vm1.live, |vm.live|) == vm.live;
  }
}
