/**
Why a flat page map stands for the page tables: creating the missing tables on a path and
writing its lowest-level entry, as `map_to` does, and clearing that entry, as `unmap` does,
update the map of AcpiMapping.dfy at one page.
*/
module PageTables {
  import opened Layouts
  import opened PageWalk
  import A = AcpiMapping

  // ----- creating tables ---------------------------------------------------------------

  /** Entries for tables that are not in use, all different. */
  ghost predicate Fresh(mem: Tables, level: map<nat, nat>, spare: seq<nat>) {
    && (forall i :: 0 <= i < |spare| ==> Follow(spare[i]).Reached? && Unused(mem, level, FrameOf(spare[i])))
    && (forall i, j :: 0 <= i < j < |spare| ==> FrameOf(spare[i]) != FrameOf(spare[j]))
  }

  /** Tables, the level of each, and the spare entries for new ones. */
  datatype Space = Space(mem: Tables, level: map<nat, nat>, spare: seq<nat>)

  ghost predicate Sound(s: Space, cr3: nat) {
    Tree(s.mem, cr3, s.level) && Fresh(s.mem, s.level, s.spare)
  }

  /** One level of `map_to`: the table that slot `k` of the path leads to is created if it is missing. */
  function AddTable(s: Space, cr3: nat, ix: seq<nat>, k: nat): Space
    requires |ix| == 4 && k < 3
  {
    var w := WalkN(s.mem, cr3, ix, k);
    if !w.Reached? || Present(Raw(s.mem, w.frame, ix[k])) || s.spare == [] then s
    else Space(s.mem[(w.frame, ix[k]) := s.spare[0]], s.level[FrameOf(s.spare[0]) := 3 - k], s.spare[1..])
  }

  /** The first `k` levels. */
  function AddTables(s: Space, cr3: nat, ix: seq<nat>, k: nat): Space
    requires |ix| == 4 && k <= 3
  {
    if k == 0 then s else AddTable(AddTables(s, cr3, ix, k - 1), cr3, ix, k - 1)
  }

  lemma FreshRest(s: Space, t: nat, i: nat, n: nat)
    requires Fresh(s.mem, s.level, s.spare) && s.spare != [] && t in s.level
    ensures Fresh(s.mem[(t, i) := s.spare[0]], s.level[FrameOf(s.spare[0]) := n], s.spare[1..])
  {
    var mem' := s.mem[(t, i) := s.spare[0]];
    forall j | 0 <= j < |s.spare[1..]|
      ensures Unused(mem', s.level[FrameOf(s.spare[0]) := n], FrameOf(s.spare[1..][j]))
    {
      var f := FrameOf(s.spare[j + 1]);
      assert Unused(s.mem, s.level, f) && f != t;
      assert forall l :: Raw(mem', f, l) == Raw(s.mem, f, l);
    }
  }

  /** A new table changes no translation. */
  lemma AddTableKeeps(s: Space, cr3: nat, ix: seq<nat>, k: nat, q: seq<nat>)
    requires Sound(s, cr3) && IndexList(ix) && IndexList(q) && k < 3
    ensures Sound(AddTable(s, cr3, ix, k), cr3)
    ensures Walk(AddTable(s, cr3, ix, k).mem, cr3, q) == Walk(s.mem, cr3, q)
  {
    var w := WalkN(s.mem, cr3, ix, k);
    if w.Reached? && !Present(Raw(s.mem, w.frame, ix[k])) && s.spare != [] {
      LevelAt(s.mem, cr3, s.level, ix, k);
      TableInstall(s.mem, cr3, s.level, w.frame, ix[k], s.spare[0], q);
      FreshRest(s, w.frame, ix[k], 3 - k);
    }
  }

  /** With an entry left and no huge page on the way, slot `k` leads to a table afterwards. */
  lemma AddTableReaches(s: Space, cr3: nat, ix: seq<nat>, k: nat)
    requires Sound(s, cr3) && IndexList(ix) && k < 3 && s.spare != []
    requires WalkN(s.mem, cr3, ix, k).Reached? && Walk(s.mem, cr3, ix) == NotMapped
    ensures WalkN(AddTable(s, cr3, ix, k).mem, cr3, ix, k + 1).Reached?
  {
    var t := WalkN(s.mem, cr3, ix, k).frame;
    if Present(Raw(s.mem, t, ix[k])) {
      if !WalkN(s.mem, cr3, ix, k + 1).Reached? {
        StaysFailed(s.mem, cr3, ix, k + 1, 4);
        FullWalk(s.mem, cr3, ix);
      }
    } else {
      LevelAt(s.mem, cr3, s.level, ix, k);
      forall j {:trigger WalkN(s.mem, cr3, ix, j)} | 0 <= j < k && WalkN(s.mem, cr3, ix, j).Reached?
        ensures (WalkN(s.mem, cr3, ix, j).frame, ix[j]) != (t, ix[k])
      {
        LevelAt(s.mem, cr3, s.level, ix, j);
      }
      WalkNFrame(s.mem, cr3, ix, k, (t, ix[k]), s.spare[0]);
    }
  }

  lemma {:induction false} AddTablesKeeps(s: Space, cr3: nat, ix: seq<nat>, k: nat, q: seq<nat>)
    requires Sound(s, cr3) && IndexList(ix) && IndexList(q) && k <= 3
    ensures Sound(AddTables(s, cr3, ix, k), cr3)
    ensures Walk(AddTables(s, cr3, ix, k).mem, cr3, q) == Walk(s.mem, cr3, q)
  {
    if k > 0 {
      AddTablesKeeps(s, cr3, ix, k - 1, q);
      AddTableKeeps(AddTables(s, cr3, ix, k - 1), cr3, ix, k - 1, q);
    }
  }

  lemma {:induction false} AddTablesReaches(s: Space, cr3: nat, ix: seq<nat>, k: nat)
    requires Sound(s, cr3) && IndexList(ix) && k <= 3 <= |s.spare| && Walk(s.mem, cr3, ix) == NotMapped
    ensures WalkN(AddTables(s, cr3, ix, k).mem, cr3, ix, k).Reached?
    ensures |s.spare| <= |AddTables(s, cr3, ix, k).spare| + k
  {
    if k > 0 {
      AddTablesReaches(s, cr3, ix, k - 1);
      AddTablesKeeps(s, cr3, ix, k - 1, ix);
      AddTableReaches(AddTables(s, cr3, ix, k - 1), cr3, ix, k - 1);
    }
  }

  /** `map_to` finds or creates every table on the path. */
  predicate TablesThere(s: Space, cr3: nat, ix: seq<nat>)
    requires |ix| == 4
  {
    WalkN(AddTables(s, cr3, ix, 3).mem, cr3, ix, 3).Reached?
  }

  // ----- the lowest-level entry --------------------------------------------------------

  /** The lowest-level entry of the path is written. */
  function WriteLeaf(s: Space, cr3: nat, ix: seq<nat>, raw: nat): Space
    requires |ix| == 4
  {
    var w := WalkN(s.mem, cr3, ix, 3);
    if w.Reached? then s.(mem := s.mem[(w.frame, ix[3]) := raw]) else s
  }

  /** `map_to`: the path then leads to the entry, and every other path leads where it did. */
  lemma MapToExact(s: Space, cr3: nat, p: seq<nat>, q: seq<nat>, raw: nat)
    requires Sound(s, cr3) && IndexList(p) && IndexList(q) && TablesThere(s, cr3, p)
    ensures var s' := WriteLeaf(AddTables(s, cr3, p, 3), cr3, p, raw);
            && Walk(s'.mem, cr3, p) == Follow(raw)
            && (q != p ==> Walk(s'.mem, cr3, q) == Walk(s.mem, cr3, q))
            && Tree(s'.mem, cr3, s'.level)
  {
    AddTablesKeeps(s, cr3, p, 3, q);
    var s1 := AddTables(s, cr3, p, 3);
    LeafWrite(s1.mem, cr3, s1.level, p, q, raw);
  }

  /** `unmap` of a mapped path: it leads nowhere, and every other path leads where it did. */
  lemma UnmapExact(s: Space, cr3: nat, p: seq<nat>, q: seq<nat>, raw: nat)
    requires Tree(s.mem, cr3, s.level) && IndexList(p) && IndexList(q) && Walk(s.mem, cr3, p).Reached? && !Present(raw)
    ensures var s' := WriteLeaf(s, cr3, p, raw);
            && Walk(s'.mem, cr3, p) == NotMapped
            && (q != p ==> Walk(s'.mem, cr3, q) == Walk(s.mem, cr3, q))
            && Tree(s'.mem, cr3, s'.level)
  {
    FullWalk(s.mem, cr3, p);
    assert WalkN(s.mem, cr3, p, 3).Reached?;
    LeafWrite(s.mem, cr3, s.level, p, q, raw);
  }

  // ----- the flat page map -------------------------------------------------------------

  /** Translation by the map of AcpiMapping.dfy. */
  function Flat(pages: A.PageMap, addr: nat): Translated {
    match A.Translate(pages, addr)
    case None => Unmapped
    case Some(x) => Physical(x)
  }

  /** The tables translate every canonical address as the map does. */
  ghost predicate Represents(mem: Tables, cr3: nat, pages: A.PageMap) {
    forall a: nat {:trigger Flat(pages, a)} :: Canonical(a) ==> Translation(mem, cr3, a) == Flat(pages, a)
  }

  function PathOf(page: nat): seq<nat> { Indices(page * A.PAGE) }

  /** Canonical addresses follow the same path exactly if they lie in one page. */
  lemma PathExact(page: nat, a: nat)
    requires Canonical(page * A.PAGE) && Canonical(a)
    ensures IndexList(PathOf(page)) && IndexList(Indices(a))
    ensures Indices(a) == PathOf(page) <==> a / A.PAGE == page
  {
    IndicesCompose(page * A.PAGE);
    IndicesCompose(a);
    if a / A.PAGE == page { SameIndices(a, page * A.PAGE); }
  }

  /** Changing where one path leads changes the map at one page. */
  lemma OnePathChanges(mem: Tables, mem': Tables, cr3: nat, pages: A.PageMap, pages': A.PageMap, page: nat)
    requires Represents(mem, cr3, pages) && Canonical(page * A.PAGE)
    requires forall q {:trigger Walk(mem', cr3, q)} :: IndexList(q) && q != PathOf(page) ==>
               Walk(mem', cr3, q) == Walk(mem, cr3, q)
    requires forall p :: p != page ==> (p in pages' <==> p in pages) && (p in pages ==> pages'[p] == pages[p])
    requires Walk(mem', cr3, PathOf(page)) == if page in pages' then Reached(pages'[page].frame) else NotMapped
    ensures Represents(mem', cr3, pages')
  {
    forall a: nat {:trigger Flat(pages', a)} | Canonical(a)
      ensures Translation(mem', cr3, a) == Flat(pages', a)
    {
      PathExact(page, a);
      assert Translation(mem, cr3, a) == Flat(pages, a);
    }
  }

  /** `map_to` is the map update `pages[page := entry]`. */
  lemma MapToRefines(s: Space, cr3: nat, pages: A.PageMap, page: nat, raw: nat, flags: A.Flags)
    requires Sound(s, cr3) && Represents(s.mem, cr3, pages) && TablesThere(s, cr3, PathOf(page))
    requires Canonical(page * A.PAGE) && Follow(raw).Reached?
    ensures var s' := WriteLeaf(AddTables(s, cr3, PathOf(page), 3), cr3, PathOf(page), raw);
            && Represents(s'.mem, cr3, pages[page := A.Entry(FrameOf(raw), flags)])
            && Tree(s'.mem, cr3, s'.level)
  {
    var p := PathOf(page);
    PathExact(page, page * A.PAGE);
    var s' := WriteLeaf(AddTables(s, cr3, p, 3), cr3, p, raw);
    MapToExact(s, cr3, p, p, raw);
    forall q {:trigger Walk(s'.mem, cr3, q)} | IndexList(q) && q != p
      ensures Walk(s'.mem, cr3, q) == Walk(s.mem, cr3, q)
    {
      MapToExact(s, cr3, p, q, raw);
    }
    OnePathChanges(s.mem, s'.mem, cr3, pages, pages[page := A.Entry(FrameOf(raw), flags)], page);
  }

  /** Three spare tables are always enough for a page that is not mapped. */
  lemma ThreeTablesSuffice(s: Space, cr3: nat, pages: A.PageMap, page: nat)
    requires Sound(s, cr3) && |s.spare| >= 3 && Represents(s.mem, cr3, pages)
    requires Canonical(page * A.PAGE) && page !in pages
    ensures TablesThere(s, cr3, PathOf(page))
  {
    PathExact(page, page * A.PAGE);
    assert Translation(s.mem, cr3, page * A.PAGE) == Flat(pages, page * A.PAGE) == Unmapped;
    AddTablesReaches(s, cr3, PathOf(page), 3);
  }

  /** `unmap` is the map update `pages - {page}`. */
  lemma UnmapRefines(s: Space, cr3: nat, pages: A.PageMap, page: nat, raw: nat)
    requires Tree(s.mem, cr3, s.level) && Represents(s.mem, cr3, pages)
    requires Canonical(page * A.PAGE) && page in pages && !Present(raw)
    ensures var s' := WriteLeaf(s, cr3, PathOf(page), raw);
            Represents(s'.mem, cr3, pages - {page}) && Tree(s'.mem, cr3, s'.level)
  {
    var p := PathOf(page);
    PathExact(page, page * A.PAGE);
    assert Translation(s.mem, cr3, page * A.PAGE) == Flat(pages, page * A.PAGE);
    var s' := WriteLeaf(s, cr3, p, raw);
    UnmapExact(s, cr3, p, p, raw);
    forall q {:trigger Walk(s'.mem, cr3, q)} | IndexList(q) && q != p
      ensures Walk(s'.mem, cr3, q) == Walk(s.mem, cr3, q)
    {
      UnmapExact(s, cr3, p, q, raw);
    }
    OnePathChanges(s.mem, s'.mem, cr3, pages, pages - {page}, page);
  }

  /** A failed `map_to` may leave new tables behind, but no translation has changed. */
  lemma FailedMapToRefines(s: Space, cr3: nat, pages: A.PageMap, page: nat, k: nat)
    requires Sound(s, cr3) && Represents(s.mem, cr3, pages) && Canonical(page * A.PAGE) && k <= 3
    ensures var s' := AddTables(s, cr3, PathOf(page), k); Represents(s'.mem, cr3, pages) && Sound(s', cr3)
  {
    PathExact(page, page * A.PAGE);
    var s' := AddTables(s, cr3, PathOf(page), k);
    AddTablesKeeps(s, cr3, PathOf(page), k, PathOf(page));
    forall a: nat {:trigger Flat(pages, a)} | Canonical(a)
      ensures Translation(s'.mem, cr3, a) == Flat(pages, a)
    {
      PathExact(page, a);
      AddTablesKeeps(s, cr3, PathOf(page), k, Indices(a));
    }
  }
}
