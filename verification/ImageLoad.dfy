/** The first pass of read_elf, arch/ia32/memory.c, on the page tables: a run of frames for the pages of a
    segment. The bytes that the second pass copies into them are the subject of module Elf. */
module ImageLoad {
  import opened Machine
  import opened FrameAllocator
  import opened FrameSearch
  import opened FrameRuns
  import opened PageTables
  import opened IdentityMap
  import opened HeapPaging
  import opened DemandPaging
  import Elf

  /** A frame of a run that is being mapped: still free, or taken for a page table meanwhile. Its linear entry
      tells which. */
  ghost predicate RunFrame(p: Paging, l: PageNo)
    requires |p.roles| == 0x100000
  {
    && 1 <= l && InTables(l, p.T)
    && if Lin(p, l) == Entry(l, LINEAR_ALLOCATED) then p.roles[l].VirTab? else p.roles[l] == Free
  }

  // ------------------------------------------------------------- one page

  /** Page v has been mapped to frame l; its linear entry is written and the frame is the page's own. */
  function EnterImage(p: Paging, v: PageNo, l: PageNo): Paging
    requires |p.roles| == 0x100000
  {
    WriteLinear(p, l, Entry(v, LINEAR_ALLOCATED)).(roles := p.roles[l := Data(v)])
  }

  lemma EnterImageRooted(p: Paging, v: PageNo, l: PageNo)
    requires Rooted(p) && |p.roles| == 0x100000 && 1 <= l && InTables(l, p.T) && p.roles[l] == Free
    requires !Available(p.mem, p.ld, l)
    ensures Rooted(p.(roles := p.roles[l := Data(v)]))
  {
    hide Available, Cell, LinearEntry, TablesPresent;
  }

  lemma ImageBeside(p: Paging, q: Paging, u: PageNo, l: PageNo, v: PageNo)
    requires |p.roles| == 0x100000 && q.T == p.T && q.roles == p.roles[l := Data(v)] && p.roles[l] == Free && u != v
    requires GoodEntry(p, u) && VirtualEntry(q, u) == VirtualEntry(p, u)
    requires forall h: PageNo {:trigger Lin(q, h)} :: InTables(h, p.T) && h != l ==> Lin(q, h) == Lin(p, h)
    ensures GoodEntry(q, u)
  {
    hide VirtualEntry, Lin, InTables, Entry, Frame;
  }

  lemma ImageHeld(p: Paging, v: PageNo, l: PageNo)
    requires |p.roles| == 0x100000 && v < HEAP && VirtualEntry(p, v) == Entry(l, IMAGE)
    requires 1 <= l && InTables(l, p.T) && Lin(p, l) == Entry(v, LINEAR_ALLOCATED) && p.roles[l] == Data(v)
    ensures GoodEntry(p, v)
  {
  }

  lemma EnterImageLayout(p: Paging, v: PageNo, l: PageNo)
    requires Layout(p, {}, {v}) && |p.roles| == 0x100000 && v < HEAP && VirtualEntry(p, v) == Entry(l, IMAGE)
    requires 1 <= l && InTables(l, p.T) && p.roles[l] == Free
    ensures Layout(EnterImage(p, v, l), {}, {})
  {
    hide VirtualEntry, Cell, Lin, Rooted, Layout, GoodEntry, InTables, Dir, Entry, LinAvailable, Available;
    LayoutRooted(p, {}, {v});
    NotAvailableFlags(v);
    WriteLinearEffect(p, l, Entry(v, LINEAR_ALLOCATED));
    var m := WriteLinear(p, l, Entry(v, LINEAR_ALLOCATED));
    EnterImageRooted(m, v, l);
    var q := EnterImage(p, v, l);
    EntriesOfRoles(m, q);
    forall u: PageNo | Dir(u) !in {}
      ensures GoodEntry(q, u)
    {
      if u == v {
        ImageHeld(q, v, l);
      } else {
        LayoutEntry(p, {}, {v}, u);
        ImageBeside(p, q, u, l, v);
      }
    }
    LayoutFromEntries(q, {});
  }

  /** Seen from p, only page v has changed. */
  lemma EnterImageStep(p: Paging, q: Paging, v: PageNo, l: PageNo, w: Word)
    requires |p.roles| == |q.roles| == 0x100000 && Rooted(p) && Rooted(q) && v < HEAP
    requires Installed(p, q, v, w, {}) && 1 <= l && InTables(l, q.T) && q.roles[l] == Free && p.roles[l] == Free
    ensures HeapStep(p, EnterImage(q, v, l), v, v as nat + 1)
    ensures VirtualEntry(EnterImage(q, v, l), v) == w
  {
    hide VirtualEntry, Cell, Lin, Available, LinearEntry, Entry, Rooted, InTables, LinAvailable;
    NotAvailableFlags(v);
    WriteLinearEffect(q, l, Entry(v, LINEAR_ALLOCATED));
    var m := WriteLinear(q, l, Entry(v, LINEAR_ALLOCATED));
    var r := EnterImage(q, v, l);
    EntriesOfRoles(m, r);
    EnterImageRooted(m, v, l);
    NewTablesLow(p, q);
    forall h: PageNo | InTables(h, p.T)
      ensures Lin(r, h) == Lin(p, h) || !LinAvailable(Lin(r, h))
    {
      NotAvailableFlags(h);
      assert h != l ==> Lin(r, h) == Lin(q, h);
    }
    NoneOfferedByLinear(p, r);
    TablesWritten(p, q, v);
  }

  lemma TablesWritten(p: Paging, q: Paging, v: PageNo)
    requires |p.roles| == 0x100000 && Grown(p, q, v, {})
    ensures forall f: PageNo, i: Slot {:trigger Cell(q.mem, f, i)} ::
              p.roles[f].Data? || p.roles[f].Reserved? ==> Cell(q.mem, f, i) == Cell(p.mem, f, i)
  {
    hide VirtualEntry, Lin, Cell;
    forall f: PageNo, i: Slot | p.roles[f].Data? || p.roles[f].Reserved?
      ensures Cell(q.mem, f, i) == Cell(p.mem, f, i)
    {
      assert q.roles[f] == p.roles[f];
    }
  }

  /** From p to r: page v has been mapped to frame l, the tables of `chain` have been created for that, and
      other pages have changed only as the tables' identity pages. */
  ghost predicate ImageMapped(p: Paging, r: Paging, v: PageNo, l: PageNo, chain: seq<PageNo>)
    requires |p.roles| == |r.roles| == 0x100000
  {
    && VirtualEntry(r, v) == Entry(l, IMAGE) && r.roles[l] == Data(v) && p.roles[l] == Free
    && (forall f: PageNo {:trigger r.roles[f]} :: f != l ==>
          r.roles[f] == p.roles[f] || (p.roles[f] == Free && r.roles[f].VirTab? && f in chain))
    && (forall f: PageNo {:trigger Lin(r, f)} :: InTables(f, p.T) && f != l ==>
          Lin(r, f) == if f in chain then Entry(f, LINEAR_ALLOCATED) else Lin(p, f))
    && (forall f: PageNo {:trigger f in chain} :: f in chain ==> p.roles[f] == Free && r.roles[f].VirTab?)
    && (forall u: PageNo {:trigger VirtualEntry(r, u)} :: u != v ==>
          VirtualEntry(r, u) == if u !in chain then VirtualEntry(p, u)
                                else if LeavesBare(p, v, chain, u) then 0 else Entry(u, MAPPED))
  }

  lemma MappedBy(p: Paging, q: Paging, v: PageNo, l: PageNo, chain: seq<PageNo>)
    requires Rooted(p) && Rooted(q) && |p.roles| == |q.roles| == 0x100000 && v < HEAP
    requires Installed(p, q, v, Entry(l, IMAGE), {}) && Chain(p, q, v, chain)
    requires 1 <= l && InTables(l, q.T) && q.roles[l] == Free && p.roles[l] == Free && l !in chain
    ensures ImageMapped(p, EnterImage(q, v, l), v, l, chain)
  {
    hide VirtualEntry, Cell, Lin, Available, LinearEntry, Rooted, InTables, Entry, Dir;
    var r := EnterImage(q, v, l);
    WriteLinearEffect(q, l, Entry(v, LINEAR_ALLOCATED));
    EntriesOfRoles(WriteLinear(q, l, Entry(v, LINEAR_ALLOCATED)), r);
    forall f: PageNo
      ensures f in chain ==> Lin(r, f) == Entry(f, LINEAR_ALLOCATED) && p.roles[f] == Free && q.roles[f].VirTab?
      ensures f !in chain && f != l && InTables(f, p.T) ==> Lin(r, f) == Lin(p, f)
      ensures f !in chain ==> q.roles[f] == p.roles[f]
    {
      assert NewTable(p, q, f) <==> f in chain;
      TablesInRange(q, f);
    }
    forall u: PageNo | u != v
      ensures VirtualEntry(r, u) == if u !in chain then VirtualEntry(p, u)
                                    else if LeavesBare(p, v, chain, u) then 0 else Entry(u, MAPPED)
    {
      if u in chain {
        var j :| 0 <= j < |chain| && chain[j] == u;
      } else {
        assert !NewTable(p, q, u);
      }
    }
  }

  /** Frame l is full of zeros. */
  ghost predicate Zeroed(p: Paging, l: PageNo) {
    forall i: Slot :: Cell(p.mem, l, i) == 0
  }

  /** One step of the loop: set_virtual_entry, set_linear_entry and clear_pages for one page. `clash` is true
      when the frame has been taken for a page table; what the code does then, which clears that table, is
      not followed. */
  method MapImagePage(k: Kernel, v: PageNo, l: PageNo) returns (ok: bool, clash: bool, ghost chain: seq<PageNo>)
    requires AllocatorOk(k) && Layout(Now(k), {}, {}) && |k.roles| == 0x100000 && v < HEAP && RunFrame(Now(k), l)
    modifies k.ram, k`zones, k`roles
    ensures AllocatorOk(k)
    ensures ok && !clash ==>
              && Layout(Now(k), {}, {}) && |k.roles| == 0x100000 && HeapStep(old(Now(k)), Now(k), v, v as nat + 1)
              && ImageMapped(old(Now(k)), Now(k), v, l, chain) && Takes(old(Now(k)), old(k.zones), v, chain)
              && Zeroed(Now(k), l)
    ensures ok && clash ==> |k.roles| == 0x100000 && k.roles[l].VirTab? && VirtualEntry(Now(k), v) == Entry(l, IMAGE)
    ensures !ok ==> forall h: PageNo :: h >= 1 ==> !Available(k.Mem(), k.linearDir, h)
  {
    hide VirtualEntry, Cell, Lin, Available, LinearEntry, Rooted, Layout, Installed, HeapStep, Dir, Tab, Chain, Takes,
         Wiped, Wipes, ImageMapped, Grown, Entry;
    ghost var p := Now(k);
    LayoutRooted(p, {}, {});
    ok, chain := SetVirtualEntry(k, v, l, IMAGE, {});
    clash := false;
    if !ok {
      return;
    }
    ghost var q := Now(k);
    LayoutRooted(q, {}, {v});
    LinearRead(q, l);
    clash := k.Load(Frame(k.Load(k.linearDir, Dir(l))), Tab(l)) == Entry(l, LINEAR_ALLOCATED);
    FrameAfter(p, q, v, l, chain);
    InstalledValue(p, q, v, Entry(l, IMAGE));
    if clash {
      return;
    }
    EnterImageLayout(q, v, l);
    EnterImageStep(p, q, v, l, Entry(l, IMAGE));
    MappedBy(p, q, v, l, chain);
    SetLinearEntry(k, v, l, LINEAR_ALLOCATED);
    k.roles := k.roles[l := Data(v)];
    assert Now(k) == EnterImage(q, v, l);
    ClearServed(p, Now(k), v, l);
    MappedCleared(p, Now(k), v, l, chain);
    k.ClearPage(l);
    ClearedZero(EnterImage(q, v, l).mem, l);
  }

  lemma ClearedZero(m: Ram, l: PageNo)
    ensures forall i: Slot :: Cell(Clear(m, l), l, i) == 0
  {
    hide Cell, Clear;
  }

  lemma LinearRead(p: Paging, l: PageNo)
    ensures Lin(p, l) == Cell(p.mem, Frame(Cell(p.mem, p.ld, Dir(l))), Tab(l))
  {
  }

  lemma InstalledValue(p: Paging, q: Paging, v: PageNo, w: Word)
    requires |p.roles| == 0x100000 && Installed(p, q, v, w, {})
    ensures VirtualEntry(q, v) == w && q.T == p.T
  {
  }

  /** After set_virtual_entry the frame is a page table exactly if its linear entry says so. */
  lemma FrameAfter(p: Paging, q: Paging, v: PageNo, l: PageNo, chain: seq<PageNo>)
    requires |p.roles| == |q.roles| == 0x100000 && RunFrame(p, l) && Rooted(q)
    requires Installed(p, q, v, Entry(l, IMAGE), {}) && Chain(p, q, v, chain)
    ensures InTables(l, q.T) && 1 <= l
    ensures if Lin(q, l) == Entry(l, LINEAR_ALLOCATED) then q.roles[l].VirTab?
            else q.roles[l] == Free && p.roles[l] == Free && l !in chain
  {
    hide VirtualEntry, Cell, Rooted, Entry, Dir, LinearEntry, Lin;
    assert NewTable(p, q, l) <==> l in chain;
  }

  lemma MappedCleared(p: Paging, q: Paging, v: PageNo, l: PageNo, chain: seq<PageNo>)
    requires |p.roles| == |q.roles| == 0x100000 && Layout(q, {}, {}) && ImageMapped(p, q, v, l, chain) && q.T == p.T
    ensures ImageMapped(p, q.(mem := Clear(q.mem, l)), v, l, chain)
  {
    hide VirtualEntry, Cell, Lin, LinearEntry, Entry, InTables, Layout, LeavesBare;
    DataWriteKeepsLayout(q, q.(mem := Clear(q.mem, l)), v, l);
    LayoutRooted(q, {}, {});
    DataStoreEffect(q, q.(mem := Clear(q.mem, l)));
  }

  // ------------------------------------------------------- all pages of a segment

  /** A search for several frames marks the last one; the others stay on offer. */
  function Marked(p: Paging, l: PageNo): Paging {
    WriteLinear(p, l, LINEAR_ALLOCATED)
  }

  lemma TakenKeepsLayout(p: Paging, l: PageNo, lo: nat)
    requires Layout(p, {}, {}) && |p.roles| == 0x100000 && 1 <= l && InTables(l, p.T) && Available(p.mem, p.ld, l)
    ensures var q := Marked(p, l);
            && Layout(q, {}, {}) && HeapStep(p, q, lo, lo)
            && Lin(q, l) == LINEAR_ALLOCATED
            && forall h: PageNo {:trigger Lin(q, h)} :: InTables(h, p.T) && h != l ==> Lin(q, h) == Lin(p, h)
  {
    hide VirtualEntry, Cell, Lin, Available, LinearEntry, Rooted, Layout, GoodEntry, InTables, Dir, LinAvailable;
    LayoutRooted(p, {}, {});
    AvailableFree(p, l);
    WriteLinearEffect(p, l, LINEAR_ALLOCATED);
    var q := Marked(p, l);
    NoneOfferedByLinear(p, q);
    forall u: PageNo | Dir(u) !in {}
      ensures GoodEntry(q, u)
    {
      LayoutEntry(p, {}, {}, u);
      GoodEntryKept(p, q, u, {l});
    }
    LayoutFromEntries(q, {});
  }

  lemma AvailableLinear(p: Paging, l: PageNo)
    requires Available(p.mem, p.ld, l)
    ensures Lin(p, l) != Entry(l, LINEAR_ALLOCATED)
  {
    NotAvailableFlags(l);
  }

  /** After the search each frame of the run is free, and its linear entry does not name it. */
  lemma RunTaken(p: Paging, g: PageNo, count: nat, lo: nat)
    requires Layout(p, {}, {}) && |p.roles| == 0x100000 && count >= 1 && 1 <= g && g + count <= p.T * 1024 <= 0x10000
    requires forall j: PageNo :: g <= j < g + count ==> Available(p.mem, p.ld, j)
    ensures var q := Marked(p, g + count - 1);
            && Layout(q, {}, {}) && HeapStep(p, q, lo, lo)
            && forall l: PageNo :: g <= l < g + count ==> RunFrame(q, l) && p.roles[l] == Free
  {
    hide Available, Lin, Layout, HeapStep, Rooted;
    var q := Marked(p, g + count - 1);
    LayoutRooted(p, {}, {});
    TakenKeepsLayout(p, g + count - 1, lo);
    forall l: PageNo | g <= l < g + count
      ensures RunFrame(q, l) && p.roles[l] == Free
    {
      AvailableFree(p, l);
      AvailableLinear(p, l);
    }
  }

  /** Frames of the run that are still to be mapped stay frames of the run. */
  lemma RunFrameKept(p: Paging, q: Paging, v: PageNo, l: PageNo, chain: seq<PageNo>, f: PageNo)
    requires |p.roles| == |q.roles| == 0x100000 && q.T == p.T && ImageMapped(p, q, v, l, chain)
    requires RunFrame(p, f) && f != l
    ensures RunFrame(q, f)
  {
    hide VirtualEntry, Lin, InTables, LeavesBare, Entry;
  }

  /** One step of the loop: the state before it and the frames that it takes for page tables. */
  datatype Mapping = Mapping(before: Paging, zones: seq<Zone>, chain: seq<PageNo>)

  /** The steps lead from p to q and map the pages from `first` on to the frames from g on; each takes the
      frames told from the state before it. */
  ghost predicate Mappings(p: Paging, steps: seq<Mapping>, q: Paging, first: nat, g: nat)
    requires first + |steps| <= 0x100000 && g + |steps| <= 0x100000
  {
    && p == StateBefore(steps, 0, q)
    && forall i :: 0 <= i < |steps| ==> TrueMapping(steps[i], StateBefore(steps, i + 1, q), first + i, g + i)
  }

  ghost function StateBefore(steps: seq<Mapping>, i: nat, q: Paging): Paging {
    if i < |steps| then steps[i].before else q
  }

  ghost predicate TrueMapping(c: Mapping, after: Paging, v: PageNo, l: PageNo) {
    && |c.before.roles| == |after.roles| == 0x100000
    && Takes(c.before, c.zones, v, c.chain) && ImageMapped(c.before, after, v, l, c.chain)
  }

  lemma MappingsMore(p: Paging, steps: seq<Mapping>, q: Paging, first: nat, g: nat, c: Mapping, r: Paging)
    requires first + |steps| < 0x100000 && g + |steps| < 0x100000
    requires Mappings(p, steps, q, first, g) && c.before == q && TrueMapping(c, r, first + |steps|, g + |steps|)
    ensures Mappings(p, steps + [c], r, first, g)
  {
    hide TrueMapping;
    var more := steps + [c];
    forall i | 0 <= i < |more|
      ensures TrueMapping(more[i], StateBefore(more, i + 1, r), first + i, g + i)
    {
      if i < |steps| {
        assert TrueMapping(steps[i], StateBefore(steps, i + 1, q), first + i, g + i);
        assert StateBefore(more, i + 1, r) == StateBefore(steps, i + 1, q);
      }
    }
  }

  /** A step after step i takes the frame with the number of page first + i for a page table. */
  ghost predicate TakenLater(steps: seq<Mapping>, first: nat, i: nat) {
    exists j :: i < j < |steps| && first + i in steps[j].chain
  }

  lemma TakenLaterMore(steps: seq<Mapping>, c: Mapping, first: nat, i: nat)
    requires i < |steps|
    ensures TakenLater(steps + [c], first, i) <==> TakenLater(steps, first, i) || first + i in c.chain
  {
    var more := steps + [c];
    if TakenLater(steps, first, i) {
      var j :| i < j < |steps| && first + i in steps[j].chain;
      assert first + i in more[j].chain;
    }
    assert first + i in c.chain ==> first + i in more[|steps|].chain;
  }

  /** Frame l is page v's own and full of zeros. The page is mapped to it unless it has been overwritten by the
      identity page of a page table. */
  ghost predicate ImagePage(p: Paging, q: Paging, v: PageNo, l: PageNo, overwritten: bool)
    requires |p.roles| == |q.roles| == 0x100000
  {
    && p.roles[l] == Free && q.roles[l] == Data(v) && Zeroed(q, l)
    && VirtualEntry(q, v) == (if overwritten then Entry(v, MAPPED) else Entry(l, IMAGE))
    && (overwritten ==> q.roles[v].VirTab?)
  }

  /** A page of the image that has been mapped before. */
  lemma ImagePageKept(p: Paging, q: Paging, r: Paging, u: PageNo, f: PageNo, was: bool,
                      v: PageNo, l: PageNo, chain: seq<PageNo>)
    requires |p.roles| == |q.roles| == |r.roles| == 0x100000
    requires ImagePage(p, q, u, f, was) && HeapStep(q, r, v, v as nat + 1) && ImageMapped(q, r, v, l, chain) && u != v
    ensures ImagePage(p, r, u, f, was || u in chain)
  {
    hide Lin, InTables, Cell, Entry;
    forall i: Slot
      ensures Cell(r.mem, f, i) == 0
    {
      assert Cell(q.mem, f, i) == 0;
    }
    CoveredPage(q, v, chain, u);
    MappedNonzero(u);
    ImageNonzero(f);
  }

  lemma ImageNonzero(l: PageNo)
    ensures Entry(l, IMAGE) != 0
  {
  }

  lemma CoveredPage(p: Paging, v: PageNo, chain: seq<PageNo>, u: PageNo)
    requires VirtualEntry(p, u) != 0
    ensures !LeavesBare(p, v, chain, u)
  {
  }

  /** Page i of an image. */
  ghost predicate ImageAt(p: Paging, r: Paging, steps: seq<Mapping>, first: nat, g: nat, i: nat)
    requires |p.roles| == |r.roles| == 0x100000 && first + i < 0x100000 && g + i < 0x100000
  {
    ImagePage(p, r, first + i, g + i, TakenLater(steps, first, i))
  }

  /** Between the steps of the loop: what has been mapped and what is still to come. The state p is that before
      the search. */
  ghost predicate Loading(p: Paging, q: Paging, r: Paging, steps: seq<Mapping>, first: nat, g: nat, count: nat)
    requires first + count <= 0x100000 && g + count <= 0x100000 && |steps| <= count
  {
    && |p.roles| == |r.roles| == 0x100000 && Layout(r, {}, {}) && r.T == p.T
    && HeapStep(p, r, first, first + |steps|) && Mappings(q, steps, r, first, g)
    && (forall l: PageNo :: g + |steps| <= l < g + count ==> RunFrame(r, l) && p.roles[l] == Free)
    && (forall i :: 0 <= i < |steps| ==> ImageAt(p, r, steps, first, g, i))
  }

  lemma LoadingBegins(p: Paging, first: nat, g: PageNo, count: nat)
    requires Layout(p, {}, {}) && |p.roles| == 0x100000 && count >= 1 && 1 <= g && g + count <= p.T * 1024 <= 0x10000
    requires first + count <= 0x100000
    requires forall j: PageNo :: g <= j < g + count ==> Available(p.mem, p.ld, j)
    ensures var q := Marked(p, g + count - 1); Loading(p, q, q, [], first, g, count)
  {
    hide Available, Lin, Layout, HeapStep, RunFrame;
    RunTaken(p, g, count, first);
  }

  lemma LoadingStep(p: Paging, q: Paging, r: Paging, steps: seq<Mapping>, first: nat, g: nat, count: nat,
                    c: Mapping, s: Paging)
    requires first + count <= 0x100000 && g + count <= 0x100000 && |steps| < count
    requires Loading(p, q, r, steps, first, g, count) && c.before == r && |s.roles| == 0x100000
    requires Layout(s, {}, {}) && HeapStep(r, s, first + |steps|, first + |steps| + 1) && s.T == r.T
    requires TrueMapping(c, s, first + |steps|, g + |steps|) && Zeroed(s, g + |steps|)
    ensures Loading(p, q, s, steps + [c], first, g, count)
  {
    hide Layout, HeapStep, RunFrame, ImagePage, TakenLater, Mappings, Takes, ImageMapped;
    var n := |steps|;
    HeapStepChain(p, r, s, first, first + n, first + n + 1);
    MappingsMore(q, steps, r, first, g, c, s);
    forall l: PageNo | g + n + 1 <= l < g + count
      ensures RunFrame(s, l)
    {
      RunFrameKept(r, s, first + n, g + n, c.chain, l);
    }
    forall i | 0 <= i < n
      ensures ImageAt(p, s, steps + [c], first, g, i)
    {
      assert ImageAt(p, r, steps, first, g, i);
      TakenLaterMore(steps, c, first, i);
      ImagePageKept(p, r, s, first + i, g + i, TakenLater(steps, first, i), first + n, g + n, c.chain);
    }
    LastPage(p, r, s, steps, c, first, g);
  }

  lemma LastPage(p: Paging, r: Paging, s: Paging, steps: seq<Mapping>, c: Mapping, first: nat, g: nat)
    requires first + |steps| < 0x100000 && g + |steps| < 0x100000
    requires |p.roles| == |r.roles| == |s.roles| == 0x100000 && c.before == r && p.roles[g + |steps|] == Free
    requires TrueMapping(c, s, first + |steps|, g + |steps|) && Zeroed(s, g + |steps|)
    ensures ImageAt(p, s, steps + [c], first, g, |steps|)
  {
    hide Takes, Cell, VirtualEntry;
  }

  /** All pages of a segment have been mapped; the search that gave the frames has marked the last one. */
  ghost predicate Segment(p: Paging, r: Paging, steps: seq<Mapping>, first: nat, g: nat, count: nat) {
    && 1 <= count && first + count <= 0x100000 && g + count <= 0x100000 && |steps| == count
    && Loading(p, Marked(p, g + count - 1), r, steps, first, g, count)
  }

  /** A page of the image is mapped to a frame that has become a page table. */
  ghost predicate Clashed(p: Paging, first: nat, count: nat) {
    exists v: PageNo :: first <= v < first + count && ClashedPage(p, v)
  }

  ghost predicate ClashedPage(p: Paging, v: PageNo) {
    var l := Frame(VirtualEntry(p, v));
    |p.roles| == 0x100000 && VirtualEntry(p, v) == Entry(l, IMAGE) && p.roles[l].VirTab?
  }

  lemma ClashFound(p: Paging, first: nat, count: nat, v: PageNo, l: PageNo)
    requires first <= v < first + count && |p.roles| == 0x100000
    requires VirtualEntry(p, v) == Entry(l, IMAGE) && p.roles[l].VirTab?
    ensures Clashed(p, first, count)
  {
    hide VirtualEntry;
    assert Frame(VirtualEntry(p, v)) == l;
    assert ClashedPage(p, v);
  }

  /** The frames for a segment of `count` pages, and the loop that maps the pages from `first` on to them.
      When it ends, every page has a frame of its own, and exactly the pages whose numbers are those of
      frames taken later for page tables have been overwritten. */
  method MapImage(k: Kernel, first: PageNo, count: nat)
    returns (ok: bool, clash: bool, g: PageNo, ghost steps: seq<Mapping>)
    requires AllocatorOk(k) && Layout(Now(k), {}, {}) && first + count <= HEAP
    requires |k.zones| == 3 && TableCount(k.upper) <= 64
    requires !RunWraps(k.Mem(), k.linearDir, k.zones, TableCount(k.upper), count, ZONE_NORMAL)
    modifies k.ram, k`zones, k`roles
    ensures AllocatorOk(k) && |old(k.roles)| == 0x100000 && |old(k.zones)| == 3
    ensures ok ==>
              && count >= 1 && 1 <= g && g + count <= TableCount(k.upper) * 1024 <= 0x10000
              && forall j: PageNo :: g <= j < g + count ==> Available(old(k.Mem()), k.linearDir, j)
    ensures ok && !clash ==> Segment(old(Now(k)), Now(k), steps, first, g, count)
    ensures ok && clash ==> Clashed(Now(k), first, count)
    ensures !ok ==> (Now(k) == old(Now(k)) && Exhausted(k.Mem(), k.linearDir, k.zones, TableCount(k.upper), count,
                                                        ZONE_NORMAL))
                    || forall h: PageNo :: h >= 1 ==> !Available(k.Mem(), k.linearDir, h)
  {
    hide Available, Rooted, LinearOk, Layout, PokeLinear, Exhausted, Allocates, ZonesOk, RunWraps, HeapStep, RunFrame,
         ImagePage, TakenLater, Mappings, Takes, ImageMapped, VirtualEntry, Cell, Entry, Clashed;
    ghost var p, zs := Now(k), k.zones;
    LayoutRooted(p, {}, {});
    RootedLinear(p);
    LinearTables(k.Mem(), k.linearDir, TableCount(k.upper));
    var address: nat;
    ghost var z: nat;
    ghost var e: nat;
    clash, g, steps := false, 0, [];
    ok, address, z, e := GetFreePages(k, count, ZONE_NORMAL, TableCount(k.upper));
    if !ok {
      return;
    }
    RunSound(p.mem, k.linearDir, zs, k.upper, count, ZONE_NORMAL, k.Mem(), k.zones, address, z, e);
    g := address / 4096;
    ghost var q := Now(k);
    assert q == Marked(p, g + count - 1);
    LoadingBegins(p, first, g, count);
    var j := 0;
    while j < count
      invariant 0 <= j <= count && |steps| == j && AllocatorOk(k) && ok && !clash
      invariant Loading(p, q, Now(k), steps, first, g, count)
    {
      ghost var r, moved := Now(k), k.zones;
      ghost var chain;
      ok, clash, chain := MapImagePage(k, first + j, g + j);
      if !ok {
        return;
      }
      if clash {
        ClashFound(Now(k), first, count, first + j, g + j);
        return;
      }
      LoadingStep(p, q, r, steps, first, g, count, Mapping(r, moved, chain), Now(k));
      steps := steps + [Mapping(r, moved, chain)];
      j := j + 1;
    }
  }

  // ------------------------------------------------- what becomes of image pages

  /** The translation that the page tables give. */
  ghost function Translation(p: Paging): map<nat, nat> {
    map v: PageNo | v < 0x100000 && Present(VirtualEntry(p, v)) :: Frame(VirtualEntry(p, v))
  }

  lemma Translated(p: Paging, v: PageNo, w: PageNo)
    requires VirtualEntry(p, v) == Entry(w, IMAGE) || VirtualEntry(p, v) == Entry(w, MAPPED)
    ensures v in Translation(p) && Translation(p)[v] == w
  {
    hide VirtualEntry;
  }

  lemma PageTranslated(p: Paging, r: Paging, steps: seq<Mapping>, first: nat, g: nat, i: nat)
    requires Segment(p, r, steps, first, g, |steps|) && i < |steps|
    ensures first + i in Translation(r) && (Translation(r)[first + i] == g + i <==> !TakenLater(steps, first, i))
  {
    hide Layout, HeapStep, Mappings, VirtualEntry, Translation, TakenLater, RunFrame, Entry, Zeroed;
    assert ImageAt(p, r, steps, first, g, i);
    Translated(r, first + i, if TakenLater(steps, first, i) then first + i else g + i);
  }

  /** The segment is mapped to its run of frames, as module Elf has it, exactly when none of its page numbers is
      that of a frame taken for a page table after the page was mapped. */
  lemma RunMappedIff(p: Paging, r: Paging, steps: seq<Mapping>, first: nat, g: nat)
    requires Segment(p, r, steps, first, g, |steps|)
    ensures Elf.Maps(Translation(r), first, g, |steps|) <==>
              forall i :: 0 <= i < |steps| ==> !TakenLater(steps, first, i)
  {
    hide Segment, Translation, TakenLater;
    forall i | 0 <= i < |steps|
      ensures first + i in Translation(r) && (Translation(r)[first + i] == g + i <==> !TakenLater(steps, first, i))
    {
      PageTranslated(p, r, steps, first, g, i);
    }
    if Elf.Maps(Translation(r), first, g, |steps|) {
      forall i | 0 <= i < |steps|
        ensures !TakenLater(steps, first, i)
      {
        assert Translation(r)[first + i] == g + (first + i - first);
      }
    } else {
      var u :| first <= u < first + |steps| && !(u in Translation(r) && Translation(r)[u] == g + (u - first));
      assert u == first + (u - first) && TakenLater(steps, first, u - first);
    }
  }

  /** Before a call of set_virtual_entry for page v: frame f will be taken for a page table. */
  ghost predicate WillTake(p: Paging, zones: seq<Zone>, v: PageNo, f: PageNo)
    requires |p.roles| == 0x100000
  {
    exists frames :: Takes(p, zones, v, frames) && f in frames
  }

  lemma WillTakeIff(p: Paging, zones: seq<Zone>, v: PageNo, f: PageNo, chain: seq<PageNo>)
    requires |p.roles| == 0x100000 && Takes(p, zones, v, chain)
    ensures WillTake(p, zones, v, f) <==> f in chain
  {
    hide Takes;
    if WillTake(p, zones, v, f) {
      var frames :| Takes(p, zones, v, frames) && f in frames;
      TakesUnique(p, zones, v, frames, chain);
    }
  }

  /** Mapping page g to itself overwrites a page of an image exactly when that is page g or its number is that of
      a frame that the call will take for a page table. The frame it had keeps its contents and is lost. */
  lemma OverwrittenIff(p: Paging, zones: seq<Zone>, q: Paging, g: PageNo, chain: seq<PageNo>, u: PageNo)
    requires Layout(p, {}, {}) && |p.roles| == |q.roles| == 0x100000 && HeapKept(p, q)
    requires VirtualEntry(p, u) == Entry(Frame(VirtualEntry(p, u)), IMAGE)
    requires Takes(p, zones, g, chain) && Charted(p, q, g, chain) && VirtualEntry(q, g) == Entry(g, MAPPED)
    ensures VirtualEntry(q, u) == if u == g || WillTake(p, zones, g, u) then Entry(u, MAPPED) else VirtualEntry(p, u)
    ensures var l := Frame(VirtualEntry(p, u));
            q.roles[l] == Data(u) && Contents(q.mem, l) == Contents(p.mem, l)
  {
    WillTakeIff(p, zones, g, u, chain);
    ImageHolds(p, u);
    hide Takes, Layout, Cell;
    ImageNonzero(Frame(VirtualEntry(p, u)));
    CoveredPage(p, g, chain, u);
    var l := Frame(VirtualEntry(p, u));
    forall i: Slot
      ensures Cell(q.mem, l, i) == Cell(p.mem, l, i)
    {
      assert p.roles[l] == Data(u);
    }
    assert Contents(q.mem, l) == Contents(p.mem, l);
  }

  lemma ImageHolds(p: Paging, u: PageNo)
    requires Layout(p, {}, {}) && |p.roles| == 0x100000
    requires VirtualEntry(p, u) == Entry(Frame(VirtualEntry(p, u)), IMAGE)
    ensures p.roles[Frame(VirtualEntry(p, u))] == Data(u) && u < HEAP
  {
    LayoutEntry(p, {}, {}, u);
    hide VirtualEntry, Layout, Lin, InTables;
    var l := Frame(VirtualEntry(p, u));
    assert Flags(Entry(l, IMAGE)) == IMAGE && Flags(Entry(u, MAPPED)) == MAPPED && Flags(Entry(l, MAPPED)) == MAPPED;
  }
}
