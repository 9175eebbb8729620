/**
The four-level page-table walk of kernel/src/memory.rs (section 4.5 of the Intel SDM,
volume 3), on raw 64-bit table entries.
*/
module PageWalk {
  import opened Layouts

  /** Table entries by (frame number of the table, index). */
  type Tables = map<(nat, nat), nat>

  function Raw(mem: Tables, table: nat, index: nat): nat {
    if (table, index) in mem then mem[(table, index)] else 0
  }

  predicate Present(raw: nat) { raw % 2 == 1 }
  predicate Huge(raw: nat) { raw / 0x80 % 2 == 1 }
  function FrameOf(raw: nat): nat { raw / 0x1000 % 0x100_0000_0000 }

  /** Where the fields of an entry are: the frame in bits 12 to 51, present in bit 0, huge in bit 7; what is
      in the bits above, such as no-execute, does not matter. */
  lemma EntryFields(frame: nat, low: nat, high: nat)
    requires frame < 0x100_0000_0000 && low < 0x1000
    ensures var raw := high * 0x10_0000_0000_0000 + frame * 0x1000 + low;
            && FrameOf(raw) == frame
            && (Present(raw) <==> low % 2 == 1)
            && (Huge(raw) <==> low / 0x80 % 2 == 1)
  {
    var raw := high * 0x10_0000_0000_0000 + frame * 0x1000 + low;
    var page := high * 0x100_0000_0000 + frame;
    DivModUnique(raw, 0x1000, page, low);
    DivModUnique(page, 0x100_0000_0000, high, frame);
    assert raw == page * 0x1000 + low;
    DivModUnique(raw, 2, page * 0x800 + low / 2, low % 2);
    DivModUnique(raw, 0x80, page * 0x20 + low / 0x80, low % 0x80);
    DivModUnique(page * 0x20 + low / 0x80, 2, page * 0x10 + low / 0x80 / 2, low / 0x80 % 2);
  }

  datatype Walked = NotMapped | HugePanic | Reached(frame: nat)

  /** `entry.frame()` as the walk treats it. */
  function Follow(raw: nat): Walked {
    if !Present(raw) then NotMapped else if Huge(raw) then HugePanic else Reached(FrameOf(raw))
  }

  /** Following the indices from a table down. */
  function Walk(mem: Tables, table: nat, indices: seq<nat>): Walked
    decreases |indices|
  {
    if indices == [] then Reached(table)
    else
      var f := Follow(Raw(mem, table, indices[0]));
      if f.Reached? then Walk(mem, f.frame, indices[1..]) else f
  }

  // ----- addresses ---------------------------------------------------------------------

  /** `p4_index`, `p3_index`, `p2_index`, `p1_index` and `page_offset`. */
  function Indices(addr: nat): seq<nat> {
    [addr / 0x80_0000_0000 % 512, addr / 0x4000_0000 % 512, addr / 0x20_0000 % 512, addr / 0x1000 % 512]
  }

  function PageOffset(addr: nat): nat { addr % 0x1000 }

  /** Bits 47 to 63 of a virtual address are equal. */
  predicate Canonical(addr: nat) {
    addr < 0x8000_0000_0000 || 0xFFFF_8000_0000_0000 <= addr < 0x1_0000_0000_0000_0000
  }

  predicate IndexList(ix: seq<nat>) {
    |ix| == 4 && ix[0] < 512 && ix[1] < 512 && ix[2] < 512 && ix[3] < 512
  }

  function Compose(ix: seq<nat>, offset: nat): nat
    requires IndexList(ix)
  {
    var low := ix[0] * 0x80_0000_0000 + ix[1] * 0x4000_0000 + ix[2] * 0x20_0000 + ix[3] * 0x1000 + offset;
    if ix[0] < 256 then low else low + 0xFFFF_0000_0000_0000
  }

  /** Reading the indices back, whatever stands above bit 47. */
  lemma Digits(ix: seq<nat>, offset: nat, high: nat)
    requires IndexList(ix) && offset < 0x1000
    ensures var addr := high * 0x1_0000_0000_0000 + ix[0] * 0x80_0000_0000 + ix[1] * 0x4000_0000
                        + ix[2] * 0x20_0000 + ix[3] * 0x1000 + offset;
            Indices(addr) == ix && PageOffset(addr) == offset
  {
    var addr := high * 0x1_0000_0000_0000 + ix[0] * 0x80_0000_0000 + ix[1] * 0x4000_0000
                + ix[2] * 0x20_0000 + ix[3] * 0x1000 + offset;
    var q4 := high * 512 + ix[0];
    var q3 := q4 * 512 + ix[1];
    var q2 := q3 * 512 + ix[2];
    var q1 := q2 * 512 + ix[3];
    DivModUnique(addr, 0x1000, q1, offset);
    DivModUnique(addr, 0x20_0000, q2, ix[3] * 0x1000 + offset);
    DivModUnique(addr, 0x4000_0000, q3, ix[2] * 0x20_0000 + ix[3] * 0x1000 + offset);
    DivModUnique(addr, 0x80_0000_0000, q4, ix[1] * 0x4000_0000 + ix[2] * 0x20_0000 + ix[3] * 0x1000 + offset);
    DivModUnique(q1, 512, q2, ix[3]);
    DivModUnique(q2, 512, q3, ix[2]);
    DivModUnique(q3, 512, q4, ix[1]);
    DivModUnique(q4, 512, high, ix[0]);
    assert Indices(addr) == ix;
  }

  /** Four 9-bit indices and a 12-bit offset determine a canonical address. */
  lemma ComposeIndices(ix: seq<nat>, offset: nat)
    requires IndexList(ix) && offset < 0x1000
    ensures Canonical(Compose(ix, offset))
    ensures Indices(Compose(ix, offset)) == ix && PageOffset(Compose(ix, offset)) == offset
  {
    Digits(ix, offset, if ix[0] < 256 then 0 else 0xFFFF);
  }

  /** Every index is a digit of the page number. */
  lemma Coarser(addr: nat)
    ensures var q1 := addr / 0x1000;
            && addr / 0x20_0000 == q1 / 512
            && addr / 0x4000_0000 == q1 / 512 / 512
            && addr / 0x80_0000_0000 == q1 / 512 / 512 / 512
  {
    var q1 := addr / 0x1000;
    var q2 := q1 / 512;
    var q3 := q2 / 512;
    var q4 := q3 / 512;
    DivModUnique(addr, 0x20_0000, q2, q1 % 512 * 0x1000 + addr % 0x1000);
    DivModUnique(addr, 0x4000_0000, q3, q2 % 512 * 0x20_0000 + q1 % 512 * 0x1000 + addr % 0x1000);
    DivModUnique(addr, 0x80_0000_0000, q4,
                 q3 % 512 * 0x4000_0000 + q2 % 512 * 0x20_0000 + q1 % 512 * 0x1000 + addr % 0x1000);
  }

  /** Every canonical address is determined by its indices and offset. */
  lemma IndicesCompose(addr: nat)
    requires Canonical(addr)
    ensures IndexList(Indices(addr)) && Compose(Indices(addr), PageOffset(addr)) == addr
  {
    Coarser(addr);
    var q1 := addr / 0x1000;
    var q4 := q1 / 512 / 512 / 512;
    assert Indices(addr) == [q4 % 512, q1 / 512 / 512 % 512, q1 / 512 % 512, q1 % 512];
    assert q4 < 256 || q4 / 512 == 0xFFFF_FFFF_FFFF_FFFF / 0x1_0000_0000_0000;
  }

  // ----- the walk ----------------------------------------------------------------------

  datatype Translated = Unmapped | Panic | Physical(addr: nat)

  function Translation(mem: Tables, cr3: nat, addr: nat): Translated {
    match Walk(mem, cr3, Indices(addr))
    case NotMapped => Unmapped
    case HugePanic => Panic
    case Reached(frame) => Physical(frame * 0x1000 + PageOffset(addr))
  }

  /** `translate_addr_inner`. */
  method TranslateAddr(mem: Tables, cr3: nat, addr: nat) returns (r: Translated)
    ensures r == Translation(mem, cr3, addr)
  {
    var indices := Indices(addr);
    var frame: nat := cr3;
    for i := 0 to |indices|
      invariant Walk(mem, frame, indices[i..]) == Walk(mem, cr3, indices)
    {
      assert indices[i..][1..] == indices[i + 1..];
      match Follow(Raw(mem, frame, indices[i])) {
        case Reached(f) => frame := f;
        case NotMapped => return Unmapped;
        case HugePanic => return Panic;
      }
    }
    r := Physical(frame * 0x1000 + PageOffset(addr));
  }

  /** The entry read at step `k`, when the steps before it succeed. */
  function EntryAt(mem: Tables, table: nat, indices: seq<nat>, k: nat): Option<nat>
    requires k < |indices|
    decreases k
  {
    var raw := Raw(mem, table, indices[0]);
    if k == 0 then Some(raw)
    else if Follow(raw).Reached? then EntryAt(mem, FrameOf(raw), indices[1..], k - 1)
    else None
  }

  ghost predicate FirstAt(mem: Tables, table: nat, indices: seq<nat>, k: nat, f: Walked) {
    k < |indices| && EntryAt(mem, table, indices, k).Some? && Follow(EntryAt(mem, table, indices, k).value) == f
  }

  ghost predicate GoodAt(mem: Tables, table: nat, indices: seq<nat>, k: nat) {
    k < |indices| && EntryAt(mem, table, indices, k).Some? && Follow(EntryAt(mem, table, indices, k).value).Reached?
  }

  lemma ShiftAt(mem: Tables, table: nat, indices: seq<nat>, k: nat)
    requires indices != [] && Follow(Raw(mem, table, indices[0])).Reached?
    ensures var next := FrameOf(Raw(mem, table, indices[0]));
            && (GoodAt(mem, table, indices, k + 1) <==> GoodAt(mem, next, indices[1..], k))
            && forall f :: FirstAt(mem, table, indices, k + 1, f) <==> FirstAt(mem, next, indices[1..], k, f)
  {
  }

  /** The walk succeeds exactly if all its entries are present and none is huge. */
  lemma {:induction false} WalkSucceeds(mem: Tables, table: nat, indices: seq<nat>)
    ensures Walk(mem, table, indices).Reached? <==> forall k: nat :: k < |indices| ==> GoodAt(mem, table, indices, k)
    decreases |indices|
  {
    if indices != [] {
      var f := Follow(Raw(mem, table, indices[0]));
      if f.Reached? {
        WalkSucceeds(mem, f.frame, indices[1..]);
        assert GoodAt(mem, table, indices, 0);
        forall k: nat ensures GoodAt(mem, table, indices, k + 1) <==> GoodAt(mem, f.frame, indices[1..], k) {
          ShiftAt(mem, table, indices, k);
        }
        forall k: nat | k < |indices| && Walk(mem, f.frame, indices[1..]).Reached?
          ensures GoodAt(mem, table, indices, k)
        {
          if k > 0 { ShiftAt(mem, table, indices, k - 1); }
        }
      } else {
        assert !GoodAt(mem, table, indices, 0);
      }
    }
  }

  /** Otherwise the first entry that is absent or huge decides between unmapped and panic. */
  lemma {:induction false} WalkFails(mem: Tables, table: nat, indices: seq<nat>, f: Walked)
    requires !f.Reached?
    ensures Walk(mem, table, indices) == f <==> exists k: nat :: FirstAt(mem, table, indices, k, f)
    decreases |indices|
  {
    if indices != [] {
      var g := Follow(Raw(mem, table, indices[0]));
      if g.Reached? {
        WalkFails(mem, g.frame, indices[1..], f);
        if k: nat :| FirstAt(mem, g.frame, indices[1..], k, f) {
          ShiftAt(mem, table, indices, k);
          assert FirstAt(mem, table, indices, k + 1, f);
        }
        if k: nat :| FirstAt(mem, table, indices, k, f) {
          assert k > 0;
          ShiftAt(mem, table, indices, k - 1);
          assert FirstAt(mem, g.frame, indices[1..], k - 1, f);
        }
      } else {
        assert FirstAt(mem, table, indices, 0, g);
      }
    }
  }

  /** Addresses of one page are translated alike: both or neither, and with the same difference. */
  lemma SamePage(mem: Tables, cr3: nat, a: nat, b: nat)
    requires a / 0x1000 == b / 0x1000
    ensures match Translation(mem, cr3, a)
            case Physical(x) =>
              Translation(mem, cr3, b).Physical? && Translation(mem, cr3, b).addr - x == b - a
            case other => Translation(mem, cr3, b) == other
  {
    SameIndices(a, b);
  }

  lemma SameIndices(a: nat, b: nat)
    requires a / 0x1000 == b / 0x1000
    ensures Indices(a) == Indices(b)
  {
    Coarser(a);
    Coarser(b);
  }

  // ----- table updates refine updates of a flat page map -------------------------------

  /** Following the first `k` indices. */
  function WalkN(mem: Tables, cr3: nat, ix: seq<nat>, k: nat): Walked
    requires k <= |ix|
  {
    if k == 0 then Reached(cr3)
    else
      var w := WalkN(mem, cr3, ix, k - 1);
      if w.Reached? then Follow(Raw(mem, w.frame, ix[k - 1])) else w
  }

  lemma {:induction false} WalkIsWalkN(mem: Tables, cr3: nat, ix: seq<nat>, k: nat)
    requires k <= |ix|
    ensures Walk(mem, cr3, ix) ==
              var w := WalkN(mem, cr3, ix, k);
              if w.Reached? then Walk(mem, w.frame, ix[k..]) else w
  {
    if k > 0 {
      WalkIsWalkN(mem, cr3, ix, k - 1);
      assert ix[k - 1..][1..] == ix[k..];
    } else {
      assert ix[0..] == ix;
    }
  }

  /** An upper-level slot that points to a table. */
  predicate Link(mem: Tables, level: map<nat, nat>, t: nat, i: nat) {
    t in level && level[t] >= 2 && i < 512 && Follow(Raw(mem, t, i)).Reached?
  }

  function Target(mem: Tables, t: nat, i: nat): nat { FrameOf(Raw(mem, t, i)) }

  /** The tables form a tree: levels go down by one from the root, and no table hangs in two slots. */
  ghost predicate Tree(mem: Tables, cr3: nat, level: map<nat, nat>) {
    && cr3 in level && level[cr3] == 4
    && (forall t, i :: Link(mem, level, t, i) ==>
          Target(mem, t, i) in level && level[Target(mem, t, i)] == level[t] - 1)
    && (forall t, i, u, j ::
          Link(mem, level, t, i) && Link(mem, level, u, j) && Target(mem, t, i) == Target(mem, u, j) ==>
            t == u && i == j)
  }

  lemma {:induction false} LevelAt(mem: Tables, cr3: nat, level: map<nat, nat>, ix: seq<nat>, k: nat)
    requires Tree(mem, cr3, level) && IndexList(ix) && k <= 3 && WalkN(mem, cr3, ix, k).Reached?
    ensures WalkN(mem, cr3, ix, k).frame in level && level[WalkN(mem, cr3, ix, k).frame] == 4 - k
  {
    if k > 0 {
      LevelAt(mem, cr3, level, ix, k - 1);
      assert Link(mem, level, WalkN(mem, cr3, ix, k - 1).frame, ix[k - 1]);
    }
  }

  /** Paths that meet in a table have come the same way. */
  lemma {:induction false} SamePath(mem: Tables, cr3: nat, level: map<nat, nat>, p: seq<nat>, q: seq<nat>, k: nat)
    requires Tree(mem, cr3, level) && IndexList(p) && IndexList(q) && k <= 3
    requires WalkN(mem, cr3, p, k).Reached? && WalkN(mem, cr3, p, k) == WalkN(mem, cr3, q, k)
    ensures forall j :: 0 <= j < k ==> p[j] == q[j]
  {
    if k > 0 {
      var t, u := WalkN(mem, cr3, p, k - 1).frame, WalkN(mem, cr3, q, k - 1).frame;
      LevelAt(mem, cr3, level, p, k - 1);
      LevelAt(mem, cr3, level, q, k - 1);
      assert Link(mem, level, t, p[k - 1]) && Link(mem, level, u, q[k - 1]);
      SamePath(mem, cr3, level, p, q, k - 1);
    }
  }

  /** A walk does not notice a write to a slot it does not read. */
  lemma {:induction false} WalkNFrame(mem: Tables, cr3: nat, ix: seq<nat>, k: nat, slot: (nat, nat), raw: nat)
    requires k <= |ix|
    requires forall j {:trigger WalkN(mem, cr3, ix, j)} :: 0 <= j < k && WalkN(mem, cr3, ix, j).Reached? ==>
               (WalkN(mem, cr3, ix, j).frame, ix[j]) != slot
    ensures WalkN(mem[slot := raw], cr3, ix, k) == WalkN(mem, cr3, ix, k)
  {
    if k > 0 {
      WalkNFrame(mem, cr3, ix, k - 1, slot, raw);
      assert WalkN(mem, cr3, ix, k - 1).Reached? ==> (WalkN(mem, cr3, ix, k - 1).frame, ix[k - 1]) != slot;
    }
  }

  /** Writing the lowest-level entry of a page changes the translation of that page alone: in a tree of
      tables, mapping and unmapping a page are updates of a flat page map. */
  lemma LeafWrite(mem: Tables, cr3: nat, level: map<nat, nat>, p: seq<nat>, q: seq<nat>, raw: nat)
    requires Tree(mem, cr3, level) && IndexList(p) && IndexList(q) && WalkN(mem, cr3, p, 3).Reached?
    ensures var mem' := mem[(WalkN(mem, cr3, p, 3).frame, p[3]) := raw];
            && Walk(mem', cr3, p) == Follow(raw)
            && (q != p ==> Walk(mem', cr3, q) == Walk(mem, cr3, q))
            && Tree(mem', cr3, level)
  {
    var t := WalkN(mem, cr3, p, 3).frame;
    var slot := (t, p[3]);
    var mem' := mem[slot := raw];
    LevelAt(mem, cr3, level, p, 3);
    forall j, r: seq<nat> {:trigger WalkN(mem, cr3, r, j)}
      | IndexList(r) && 0 <= j < 3 && WalkN(mem, cr3, r, j).Reached?
      ensures (WalkN(mem, cr3, r, j).frame, r[j]) != slot
    {
      LevelAt(mem, cr3, level, r, j);
    }
    forall u: nat, j: nat | Link(mem', level, u, j)
      ensures Link(mem, level, u, j) && Raw(mem', u, j) == Raw(mem, u, j)
    {
    }
    WalkNFrame(mem, cr3, p, 3, slot, raw);
    FullWalk(mem', cr3, p);
    if q != p {
      if WalkN(mem, cr3, q, 3).Reached? && (WalkN(mem, cr3, q, 3).frame, q[3]) == slot {
        SamePath(mem, cr3, level, p, q, 3);
      }
      WalkNFrame(mem, cr3, q, 4, slot, raw);
      FullWalk(mem, cr3, q);
      FullWalk(mem', cr3, q);
    }
  }

  lemma FullWalk(mem: Tables, cr3: nat, ix: seq<nat>)
    requires IndexList(ix)
    ensures Walk(mem, cr3, ix) == WalkN(mem, cr3, ix, 4)
  {
    WalkIsWalkN(mem, cr3, ix, 4);
    assert ix[4..] == [];
  }

  /** A table that is not in use: in no slot, and without entries. */
  ghost predicate Unused(mem: Tables, level: map<nat, nat>, n: nat) {
    n !in level && forall j :: !Present(Raw(mem, n, j))
  }

  /** Hanging an unused table into a free upper-level slot changes no translation and keeps the tree, so the
      page tables that `map_to` creates on its way do not show. */
  lemma TableInstall(mem: Tables, cr3: nat, level: map<nat, nat>, t: nat, i: nat, raw: nat, q: seq<nat>)
    requires Tree(mem, cr3, level) && IndexList(q) && t in level && level[t] >= 2 && i < 512
    requires !Present(Raw(mem, t, i)) && Follow(raw).Reached? && Unused(mem, level, FrameOf(raw))
    ensures var mem' := mem[(t, i) := raw];
            && Walk(mem', cr3, q) == Walk(mem, cr3, q)
            && Tree(mem', cr3, level[FrameOf(raw) := level[t] - 1])
  {
    var mem', n := mem[(t, i) := raw], FrameOf(raw);
    FullWalk(mem, cr3, q);
    FullWalk(mem', cr3, q);
    if j: nat :| j < 3 && WalkN(mem, cr3, q, j) == Reached(t) && q[j] == i {
      InstalledPath(mem, cr3, level, t, i, raw, q, j);
    } else {
      forall j {:trigger WalkN(mem, cr3, q, j)} | 0 <= j < 4 && WalkN(mem, cr3, q, j).Reached?
        ensures (WalkN(mem, cr3, q, j).frame, q[j]) != (t, i)
      {
        if j == 3 { LevelAt(mem, cr3, level, q, 3); }
      }
      WalkNFrame(mem, cr3, q, 4, (t, i), raw);
    }
    InstalledTree(mem, cr3, level, t, i, raw);
  }

  lemma InstalledPath(mem: Tables, cr3: nat, level: map<nat, nat>, t: nat, i: nat, raw: nat, q: seq<nat>, j: nat)
    requires Tree(mem, cr3, level) && IndexList(q) && t in level && j < 3
    requires !Present(Raw(mem, t, i)) && Follow(raw).Reached? && Unused(mem, level, FrameOf(raw))
    requires WalkN(mem, cr3, q, j) == Reached(t) && q[j] == i
    ensures WalkN(mem, cr3, q, 4) == NotMapped == WalkN(mem[(t, i) := raw], cr3, q, 4)
  {
    var mem' := mem[(t, i) := raw];
    forall k {:trigger WalkN(mem, cr3, q, k)} | 0 <= k < j && WalkN(mem, cr3, q, k).Reached?
      ensures (WalkN(mem, cr3, q, k).frame, q[k]) != (t, i)
    {
      LevelAt(mem, cr3, level, q, k);
      LevelAt(mem, cr3, level, q, j);
    }
    WalkNFrame(mem, cr3, q, j, (t, i), raw);
    assert WalkN(mem, cr3, q, j + 1) == NotMapped;
    assert WalkN(mem', cr3, q, j + 1) == Reached(FrameOf(raw));
    assert Raw(mem', FrameOf(raw), q[j + 1]) == Raw(mem, FrameOf(raw), q[j + 1]);
    assert WalkN(mem', cr3, q, j + 2) == NotMapped;
    StaysFailed(mem, cr3, q, j + 1, 4);
    StaysFailed(mem', cr3, q, j + 2, 4);
  }

  lemma {:induction false} StaysFailed(mem: Tables, cr3: nat, ix: seq<nat>, j: nat, k: nat)
    requires j <= k <= |ix| && !WalkN(mem, cr3, ix, j).Reached?
    ensures WalkN(mem, cr3, ix, k) == WalkN(mem, cr3, ix, j)
  {
    if j < k { StaysFailed(mem, cr3, ix, j, k - 1); }
  }

  lemma InstalledTree(mem: Tables, cr3: nat, level: map<nat, nat>, t: nat, i: nat, raw: nat)
    requires Tree(mem, cr3, level) && t in level && level[t] >= 2 && i < 512
    requires !Present(Raw(mem, t, i)) && Follow(raw).Reached? && Unused(mem, level, FrameOf(raw))
    ensures Tree(mem[(t, i) := raw], cr3, level[FrameOf(raw) := level[t] - 1])
  {
    var mem', n := mem[(t, i) := raw], FrameOf(raw);
    var level' := level[n := level[t] - 1];
    forall u: nat, j: nat | Link(mem', level', u, j)
      ensures if (u, j) == (t, i) then Target(mem', u, j) == n
              else Link(mem, level, u, j) && Target(mem', u, j) == Target(mem, u, j) != n
    {
      if (u, j) != (t, i) { assert Raw(mem', u, j) == Raw(mem, u, j); }
    }
  }
}
