/**
Mapping device memory: kernel/src/device/acpi/handler.rs on top of the virtual page allocator
of kernel/src/allocator/page.rs. The page tables are a map from page numbers to entries that
refuses to map a page twice; whether a page table can be allocated on the way is a parameter.
*/
module AcpiMapping {
  import opened Layouts
  import opened Sequences

  const PAGE: nat := 4096
  const PHYS_LIMIT: nat := 0x10_0000_0000_0000       // 2^52, checked by PhysAddr::new
  const LOWER_HALF: nat := 0x8000_0000_0000          // 2^47, checked by VirtAddr
  const CURSOR_START: nat := 0x10_0000_0000
  const HEAP_START: nat := 0x4444_4444_0000

  datatype Flags = Flags(writable: bool, noCache: bool)
  const DEVICE: Flags := Flags(true, true)

  datatype Entry = Entry(frame: nat, flags: Flags)
  type PageMap = map<nat, Entry>

  /** What a memory access to `addr` reaches. */
  function Translate(pages: PageMap, addr: nat): Option<nat> {
    if addr / PAGE in pages then Some(pages[addr / PAGE].frame * PAGE + addr % PAGE) else None
  }

  /** `PhysicalMapping`: what was asked for, and where it was mapped. */
  datatype Mapping = Mapping(phys: nat, virt: nat, size: nat, mappedLength: nat) {
    function FirstPage(): nat { virt / PAGE }
    function Count(): nat { mappedLength / PAGE }
    predicate Covers(page: nat) { FirstPage() <= page < FirstPage() + Count() }
  }

  datatype MapResult = Panic | Mapped(mapping: Mapping)

  function Offset(page: nat, frame: nat, p: nat): Entry
    requires page <= p
  {
    Entry(frame + (p - page), DEVICE)
  }

  /** `n` consecutive pages onto `n` consecutive frames. */
  function Linear(page: nat, frame: nat, n: nat): PageMap {
    map p | page <= p < page + n :: Offset(page, frame, p)
  }

  lemma LinearNext(page: nat, frame: nat, n: nat)
    ensures Linear(page, frame, n + 1) == Linear(page, frame, n)[page + n := Offset(page, frame, page + n)]
  {
  }

  // ----- geometry of a request ---------------------------------------------------------

  function FirstFrame(phys: nat): nat { phys / PAGE }

  /** `align_up(phys + size) - align_down(phys)`, in pages. */
  function PageCount(phys: nat, size: nat): nat {
    (phys + size + PAGE - 1) / PAGE - phys / PAGE
  }

  /** The request stays inside the physical address space and touches a page. */
  predicate GoodRequest(phys: nat, size: nat) {
    AlignUp(phys + size, PAGE) < PHYS_LIMIT && PageCount(phys, size) > 0
  }

  /** The only requests inside the address space that touch no page are empty ones at a page boundary. */
  lemma EmptyRequest(phys: nat, size: nat)
    ensures PageCount(phys, size) == 0 <==> size == 0 && phys % PAGE == 0
  {
  }

  /** The pages of a request run from that of its first byte to that of its last, and no further; an empty
      request off a page boundary takes one. */
  lemma PagesTouched(phys: nat, size: nat)
    ensures size > 0 ==> FirstFrame(phys) + PageCount(phys, size) == (phys + size - 1) / 4096 + 1
    ensures size == 0 ==> PageCount(phys, size) == if phys % 4096 == 0 then 0 else 1
    ensures FirstFrame(phys) == phys / 4096
  {
  }

  /** A request is well formed exactly if its last page ends below 2^52 and it touches a page. */
  lemma GoodRequestExact(phys: nat, size: nat)
    ensures GoodRequest(phys, size) <==>
              (phys + size + 4095) / 4096 * 4096 < 0x10_0000_0000_0000 && (size > 0 || phys % 4096 != 0)
  {
    AlignUpPages(phys + size);
    EmptyRequest(phys, size);
  }

  lemma AlignUpPages(x: nat)
    ensures AlignUp(x, PAGE) == (x + PAGE - 1) / PAGE * PAGE
  {
    AlignUpUnique(x, PAGE, (x + PAGE - 1) / PAGE * PAGE);
  }

  /** Byte `k` of the region returned reaches physical byte `k`. */
  lemma RoundTrip(pages: PageMap, page: nat, phys: nat, size: nat, k: nat)
    requires k < size
    ensures var pages' := pages + Linear(page, FirstFrame(phys), PageCount(phys, size));
            Translate(pages', page * PAGE + phys % PAGE + k) == Some(phys + k)
  {
    var addr := page * PAGE + phys % PAGE + k;
    var j := (phys % PAGE + k) / PAGE;
    assert addr / PAGE == page + j && addr % PAGE == (phys % PAGE + k) % PAGE;
    assert phys + k == phys / PAGE * PAGE + (phys % PAGE + k);
    assert j < PageCount(phys, size);
    assert (phys / PAGE + j) * PAGE + (phys % PAGE + k) % PAGE == phys + k;
  }

  // ----- the page tables ---------------------------------------------------------------

  class Mapper {
    var pages: PageMap

    constructor (pages: PageMap)
      ensures this.pages == pages
    {
      this.pages := pages;
    }

    /** `map_to`: fails when the page is mapped already or no page table can be allocated. */
    method MapTo(page: nat, frame: nat, flags: Flags, tableAvailable: bool) returns (ok: bool)
      modifies this
      ensures ok <==> page !in old(pages) && tableAvailable
      ensures pages == if ok then old(pages)[page := Entry(frame, flags)] else old(pages)
    {
      ok := page !in pages && tableAvailable;
      if ok { pages := pages[page := Entry(frame, flags)]; }
    }

    /** `unmap`: fails when the page is not mapped. */
    method Unmap(page: nat) returns (ok: bool)
      modifies this
      ensures ok <==> page in old(pages)
      ensures pages == old(pages) - {page}
    {
      ok := page in pages;
      pages := pages - {page};
    }
  }

  // ----- the handler -------------------------------------------------------------------

  /** Mapping `n` fresh pages succeeds: none is mapped, and a page table is found for each. */
  ghost predicate CanMap(pages: PageMap, page: nat, n: nat, tables: seq<bool>) {
    && (forall p :: page <= p < page + n ==> p !in pages)
    && |tables| >= n && forall i :: 0 <= i < n ==> tables[i]
  }

  /** The page tables, the page cursor, the mappings now live, and all there ever were. */
  datatype Vm = Dead | Running(pages: PageMap, cursor: nat, live: seq<Mapping>, ever: seq<Mapping>)

  datatype Event = Map(phys: nat, size: nat, tables: seq<bool>) | Unmap(i: nat)

  function MappingAt(phys: nat, size: nat, page: nat): Mapping {
    Mapping(phys, page * PAGE + phys % PAGE, size, PageCount(phys, size) * PAGE)
  }

  /** What `map_physical_region` and `unmap_physical_region` do; a panic leaves nothing running. */
  ghost function Step(vm: Vm, e: Event): Vm {
    if vm.Dead? then vm
    else
      match e
      case Map(phys, size, tables) =>
        var n := PageCount(phys, size);
        if GoodRequest(phys, size) && (vm.cursor + n) * PAGE < LOWER_HALF && CanMap(vm.pages, vm.cursor, n, tables) then
          var m := MappingAt(phys, size, vm.cursor);
          Running(vm.pages + Linear(vm.cursor, FirstFrame(phys), n), vm.cursor + n, vm.live + [m], vm.ever + [m])
        else Dead
      case Unmap(i) =>
        if i >= |vm.live| then vm
        else if forall p :: vm.live[i].Covers(p) ==> p in vm.pages then
          vm.(pages := map p | p in vm.pages && !vm.live[i].Covers(p) :: vm.pages[p], live := Without(vm.live, i))
        else Dead
  }

  class Handler {
    const mapper: Mapper
    /** The next page the virtual page allocator hands out. */
    var cursor: nat
    ghost var live: seq<Mapping>
    ghost var ever: seq<Mapping>

    ghost function State(): Vm
      reads this, mapper
    {
      Running(mapper.pages, cursor, live, ever)
    }

    constructor (mapper: Mapper)
      ensures this.mapper == mapper && State() == Running(mapper.pages, CURSOR_START / PAGE, [], [])
    {
      this.mapper := mapper;
      cursor := CURSOR_START / PAGE;
      live, ever := [], [];
    }

    /** `PageAllocator::allocate_n`; `None` is a panic. */
    method AllocateN(n: nat) returns (page: Option<nat>)
      modifies this`cursor
      ensures page.Some? <==> n > 0 && (old(cursor) + n) * PAGE < LOWER_HALF
      ensures page.Some? ==> page.value == old(cursor) && cursor == old(cursor) + n
      ensures page.None? ==> cursor == old(cursor)
    {
      if n == 0 || (cursor + n) * PAGE >= LOWER_HALF { return None; }
      page := Some(cursor);
      cursor := cursor + n;
    }

    /** `do_map_region` from frame `start` up to `end`. */
    method DoMapRegion(start: nat, end: nat, page: nat, tables: seq<bool>) returns (ok: bool)
      requires start <= end
      modifies mapper
      ensures ok <==> CanMap(old(mapper.pages), page, end - start, tables)
      ensures ok ==> mapper.pages == old(mapper.pages) + Linear(page, start, end - start)
    {
      var frame, virt := start, page;
      while frame < end
        invariant start <= frame <= end && virt - page == frame - start
        invariant mapper.pages == old(mapper.pages) + Linear(page, start, frame - start)
        invariant CanMap(old(mapper.pages), page, frame - start, tables)
      {
        var i := frame - start;
        ok := mapper.MapTo(virt, frame, DEVICE, i < |tables| && tables[i]);
        if !ok { return; }
        LinearNext(page, start, i);
        frame, virt := frame + 1, virt + 1;
      }
      ok := true;
    }

    /** `map_physical_region`. It panics exactly when the request leaves the physical address space,
        touches no page, runs out of virtual addresses, or meets a page that is mapped or a page
        table that cannot be allocated. */
    method MapPhysicalRegion(phys: nat, size: nat, tables: seq<bool>) returns (r: MapResult)
      modifies this, mapper
      ensures Step(old(State()), Map(phys, size, tables)) == if r.Mapped? then State() else Dead
      ensures r.Mapped? ==> r.mapping == MappingAt(phys, size, old(cursor)) && live == old(live) + [r.mapping]
    {
      AlignUpPages(phys + size);
      if phys >= PHYS_LIMIT { return Panic; }
      var start := phys / PAGE;                                   // align_down
      if phys + size >= PHYS_LIMIT || AlignUp(phys + size, PAGE) >= PHYS_LIMIT { return Panic; }
      var end := AlignUp(phys + size, PAGE) / PAGE;               // align_up
      var count := end - start;
      var page := AllocateN(count);
      if page.None? { return Panic; }
      var ok := DoMapRegion(start, end, page.value, tables);
      if !ok { return Panic; }
      r := Mapped(Mapping(phys, page.value * PAGE + phys % PAGE, size, count * PAGE));
      live, ever := live + [r.mapping], ever + [r.mapping];
    }

    /** `unmap_physical_region`, which starts from the unaligned virtual address. */
    method UnmapPhysicalRegion(m: Mapping, ghost k: nat) returns (ok: bool)
      requires k < |live| && live[k] == m
      modifies mapper, this`live
      ensures Step(old(State()), Event.Unmap(k)) == if ok then State() else Dead
    {
      var virt := m.virt;
      for i := 0 to m.mappedLength / PAGE
        invariant virt == m.virt + i * PAGE && live == old(live)
        invariant forall p :: m.FirstPage() <= p < m.FirstPage() + i ==> p in old(mapper.pages)
        invariant mapper.pages ==
                    map p | p in old(mapper.pages) && !(m.FirstPage() <= p < m.FirstPage() + i) :: old(mapper.pages)[p]
      {
        assert virt / PAGE == m.FirstPage() + i;
        ok := mapper.Unmap(virt / PAGE);
        if !ok { return; }
        virt := virt + PAGE;
      }
      ok := true;
      live := Without(live, k);
    }
  }
}
