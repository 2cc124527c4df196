/** The page-table walks of the virtual heap: assigning and releasing a range of pages. */
module HeapPaging {
  import opened Machine
  import opened FrameAllocator
  import opened FrameSearch
  import opened PageTables
  import opened IdentityMap

  /** From p to q only the heap pages lo..hi have changed: no other heap page and no mapped
      identity page has, directory entries stay, frames in use keep their use, and the frames
      with contents keep them. */
  ghost predicate HeapStep(p: Paging, q: Paging, lo: nat, hi: nat)
    requires |p.roles| == 0x100000
  {
    && q.ld == p.ld && q.vd == p.vd && q.T == p.T && |q.roles| == 0x100000
    && (forall s: Slot {:trigger Cell(q.mem, q.vd, s)} :: Cell(p.mem, p.vd, s) != 0 ==>
          Cell(q.mem, q.vd, s) == Cell(p.mem, p.vd, s))
    && (forall u: PageNo {:trigger VirtualEntry(q, u)} ::
          (u >= HEAP || VirtualEntry(p, u) != 0) && !(lo <= u < hi) ==>
            VirtualEntry(q, u) == VirtualEntry(p, u) || (u < HEAP && VirtualEntry(q, u) == Entry(u, MAPPED)))
    && (forall f: PageNo {:trigger q.roles[f]} :: p.roles[f] != Free ==> q.roles[f] == p.roles[f])
    && (forall f: PageNo, i: Slot {:trigger Cell(q.mem, f, i)} ::
          p.roles[f].Data? || p.roles[f].Reserved? ==> Cell(q.mem, f, i) == Cell(p.mem, f, i))
    && NoneOffered(p, q)
  }

  lemma StepNoneOffered(p: Paging, q: Paging, lo: nat, hi: nat)
    requires |p.roles| == 0x100000 && HeapStep(p, q, lo, hi)
    ensures NoneOffered(p, q)
  {
  }

  lemma HeapStepChain(p: Paging, q: Paging, r: Paging, lo: nat, mid: nat, hi: nat)
    requires |p.roles| == |q.roles| == 0x100000 && lo <= mid <= hi
    requires HeapStep(p, q, lo, mid) && HeapStep(q, r, mid, hi)
    ensures HeapStep(p, r, lo, hi)
  {
    hide VirtualEntry, Cell;
    forall s: Slot | Cell(p.mem, p.vd, s) != 0
      ensures Cell(r.mem, r.vd, s) == Cell(p.mem, p.vd, s)
    {
      assert Cell(q.mem, q.vd, s) == Cell(p.mem, p.vd, s);
    }
    forall u: PageNo | (u >= HEAP || VirtualEntry(p, u) != 0) && !(lo <= u < hi)
      ensures VirtualEntry(r, u) == VirtualEntry(p, u) || (u < HEAP && VirtualEntry(r, u) == Entry(u, MAPPED))
    {
      MappedNonzero(u);
      assert VirtualEntry(q, u) == VirtualEntry(p, u) || (u < HEAP && VirtualEntry(q, u) == Entry(u, MAPPED));
    }
    forall f: PageNo | p.roles[f] != Free
      ensures r.roles[f] == p.roles[f]
    {
      assert q.roles[f] == p.roles[f];
    }
    forall f: PageNo, i: Slot | p.roles[f].Data? || p.roles[f].Reserved?
      ensures Cell(r.mem, f, i) == Cell(p.mem, f, i)
    {
      assert q.roles[f] == p.roles[f];
      assert Cell(q.mem, f, i) == Cell(p.mem, f, i);
    }
  }

  lemma HeapKeptIsStep(p: Paging, q: Paging, lo: nat)
    requires |p.roles| == 0x100000 && HeapKept(p, q)
    ensures HeapStep(p, q, lo, lo)
  {
  }

  // ----------------------------------------------------------- single pages

  /** A heap entry that maps nothing: unused, or awaiting its first touch. */
  predicate Unmapped(w: Word) {
    w == 0 || w == ASSIGNED || w == ASSIGNED_ZERO
  }

  lemma AssignKeepsLayout(p: Paging, v: PageNo, w: Word)
    requires Layout(p, {}, {}) && v >= HEAP && Cell(p.mem, p.vd, Dir(v)) != 0 && Unmapped(w)
    ensures |p.roles| == 0x100000
    ensures var q := WriteEntry(p, v, w);
            && Layout(q, {}, {}) && HeapStep(p, q, v, v as nat + 1)
            && VirtualEntry(q, v) == w && Cell(q.mem, q.vd, Dir(v)) != 0
  {
    hide VirtualEntry, Cell, Lin, Rooted, Layout, GoodEntry, InTables, Dir;
    LayoutRooted(p, {}, {});
    var q := WriteEntry(p, v, w);
    WriteEntryEffect(p, v, w);
    InstallKeepsLayout(p, v, w, {});
    LayoutRooted(q, {}, {v});
    NoneOfferedByLinear(p, q);
    forall u: PageNo | Dir(u) !in {}
      ensures GoodEntry(q, u)
    {
      if u == v {
        UnmappedGood(q, v);
      } else {
        LayoutEntry(q, {}, {v}, u);
      }
    }
    LayoutFromEntries(q, {});
  }

  lemma UnmappedGood(p: Paging, v: PageNo)
    requires |p.roles| == 0x100000 && v >= HEAP && Unmapped(VirtualEntry(p, v))
    ensures GoodEntry(p, v)
  {
  }

  /** The misplaced call that is meant to give a frame back rewrites the linear entry of frame 0. */
  lemma ScrapKeepsLayout(p: Paging, f: PageNo, lo: nat)
    requires Layout(p, {}, {})
    ensures |p.roles| == 0x100000
    ensures var q := WriteLinear(p, 0, Entry(f, LINEAR_AVAILABLE));
            && Layout(q, {}, {}) && HeapStep(p, q, lo, lo)
            && (forall v: PageNo {:trigger VirtualEntry(q, v)} :: VirtualEntry(q, v) == VirtualEntry(p, v))
            && (forall s: Slot {:trigger Cell(q.mem, q.vd, s)} :: Cell(q.mem, q.vd, s) == Cell(p.mem, p.vd, s))
  {
    hide VirtualEntry, Cell, Lin, Rooted, Layout, GoodEntry, Dir, Entry;
    LayoutRooted(p, {}, {});
    RootedRoles(p);
    var q := WriteLinear(p, 0, Entry(f, LINEAR_AVAILABLE));
    WriteLinearEffect(p, 0, Entry(f, LINEAR_AVAILABLE));
    forall u: PageNo | Dir(u) !in {}
      ensures GoodEntry(q, u)
    {
      LayoutEntry(p, {}, {}, u);
      GoodBesidesZero(p, q, u);
    }
    LayoutFromEntries(q, {});
  }

  lemma GoodBesidesZero(p: Paging, q: Paging, u: PageNo)
    requires |p.roles| == |q.roles| == 0x100000 && q.T == p.T && q.roles == p.roles
    requires GoodEntry(p, u) && VirtualEntry(q, u) == VirtualEntry(p, u)
    requires forall h: PageNo {:trigger Lin(q, h)} :: InTables(h, p.T) && h != 0 ==> Lin(q, h) == Lin(p, h)
    ensures GoodEntry(q, u)
  {
    hide VirtualEntry, Lin, InTables, Entry, Frame;
  }

  // ------------------------------------------------------- tables of the heap

  /** Frame g, already mapped to itself, is cleared and becomes the table of heap slot s. */
  function PlaceTable(p: Paging, s: Slot, g: PageNo): Paging
    requires |p.roles| == 0x100000
  {
    p.(mem := Poke(Clear(p.mem, g), p.vd, s, Entry(g, MAPPED)), roles := p.roles[g := VirTab(s)])
  }

  lemma PlaceTableRooted(p: Paging, s: Slot, g: PageNo)
    requires Rooted(p) && Cell(p.mem, p.vd, s) == 0 && |p.roles| == 0x100000
    requires 1 <= g && InTables(g, p.T) && p.roles[g] == Reserved
    ensures var q := PlaceTable(p, s, g);
            && Rooted(q)
            && (forall h: PageNo {:trigger Lin(q, h)} :: InTables(h, p.T) ==> Lin(q, h) == Lin(p, h))
  {
    var q := PlaceTable(p, s, g);
    LinearReadsKept(p, q);
    hide LinearEntry, Available, Lin, PlaceTable, TablesPresent;
    PlacedDirectory(p, q, s, g);
  }

  lemma PlacedDirectory(p: Paging, q: Paging, s: Slot, g: PageNo)
    requires Rooted(p) && |p.roles| == 0x100000 && 1 <= g && InTables(g, p.T) && p.roles[g] == Reserved
    requires q == p.(mem := q.mem, roles := p.roles[g := VirTab(s)])
    requires TablesPresent(q.mem, q.ld, q.T)
    requires forall t: Slot {:trigger Cell(q.mem, q.ld, t)} :: Cell(q.mem, q.ld, t) == Cell(p.mem, p.ld, t)
    requires forall h: PageNo {:trigger Available(q.mem, q.ld, h)} ::
               Available(q.mem, q.ld, h) == Available(p.mem, p.ld, h)
    requires Cell(q.mem, q.vd, s) == Entry(g, MAPPED)
    requires forall t: Slot {:trigger Cell(q.mem, q.vd, t)} :: t != s ==> Cell(q.mem, q.vd, t) == Cell(p.mem, p.vd, t)
    ensures Rooted(q)
  {
    hide LinearEntry, Available, Cell, TablesPresent;
  }

  lemma PlaceTableEntries(p: Paging, s: Slot, g: PageNo)
    requires Rooted(p) && Cell(p.mem, p.vd, s) == 0 && |p.roles| == 0x100000
    requires p.roles[g] == Reserved
    ensures var q := PlaceTable(p, s, g);
            && Cell(q.mem, q.vd, s) == Entry(g, MAPPED)
            && (forall t: Slot {:trigger Cell(q.mem, q.vd, t)} ::
                  t != s ==> Cell(q.mem, q.vd, t) == Cell(p.mem, p.vd, t))
            && (forall v: PageNo {:trigger VirtualEntry(q, v)} :: VirtualEntry(q, v) == VirtualEntry(p, v))
            && (forall f: PageNo, i: Slot {:trigger Cell(q.mem, f, i)} ::
                  f != p.vd && f != g ==> Cell(q.mem, f, i) == Cell(p.mem, f, i))
  {
    hide LinearEntry, Available, Lin, TablesPresent;
    var q := PlaceTable(p, s, g);
    forall v: PageNo
      ensures VirtualEntry(q, v) == VirtualEntry(p, v)
    {
      assert Dir(v) != s ==> Cell(q.mem, q.vd, Dir(v)) == Cell(p.mem, p.vd, Dir(v));
    }
  }

  lemma PlaceTableKeepsLayout(p: Paging, s: Slot, g: PageNo)
    requires Layout(p, {}, {}) && Cell(p.mem, p.vd, s) == 0 && |p.roles| == 0x100000
    requires 1 <= g && InTables(g, p.T) && p.roles[g] == Reserved
    ensures Layout(PlaceTable(p, s, g), {}, {})
  {
    hide VirtualEntry, Cell, Lin, Rooted, Layout, GoodEntry, InTables, Dir, Entry;
    LayoutRooted(p, {}, {});
    PlaceTableRooted(p, s, g);
    PlaceTableEntries(p, s, g);
    var q := PlaceTable(p, s, g);
    forall u: PageNo | Dir(u) !in {}
      ensures GoodEntry(q, u)
    {
      LayoutEntry(p, {}, {}, u);
      GoodWithTable(p, q, u, s, g);
    }
    LayoutFromEntries(q, {});
  }

  lemma GoodWithTable(p: Paging, q: Paging, u: PageNo, s: Slot, g: PageNo)
    requires |p.roles| == 0x100000 && q.T == p.T && q.roles == p.roles[g := VirTab(s)] && p.roles[g] == Reserved
    requires GoodEntry(p, u) && VirtualEntry(q, u) == VirtualEntry(p, u)
    requires forall h: PageNo {:trigger Lin(q, h)} :: InTables(h, p.T) ==> Lin(q, h) == Lin(p, h)
    ensures GoodEntry(q, u)
  {
    hide VirtualEntry, Lin, InTables, Entry, Frame;
  }

  /** From p, where g was free, to q, where it is mapped to itself, to the state in which it is a
      cleared heap table: seen from p, no page has changed. */
  lemma PlaceTableIsStep(p: Paging, q: Paging, s: Slot, g: PageNo, lo: nat)
    requires |p.roles| == |q.roles| == 0x100000 && HeapKept(p, q) && p.roles[g] == Free
    requires Rooted(q) && Cell(q.mem, q.vd, s) == 0
    requires 1 <= g && InTables(g, q.T) && q.roles[g] == Reserved
    requires p.roles[p.vd] == VirDir
    ensures HeapStep(p, PlaceTable(q, s, g), lo, lo)
  {
    hide VirtualEntry, Cell, Lin, Rooted, InTables, Entry, Available;
    PlaceTableRooted(q, s, g);
    PlaceTableEntries(q, s, g);
    var r := PlaceTable(q, s, g);
    NoneOfferedByLinear(q, r);
    NoneOfferedTransitive(p, q, r);
    forall t: Slot | Cell(p.mem, p.vd, t) != 0
      ensures Cell(r.mem, r.vd, t) == Cell(p.mem, p.vd, t)
    {
      assert Cell(q.mem, q.vd, t) == Cell(p.mem, p.vd, t);
    }
    forall u: PageNo | u >= HEAP || VirtualEntry(p, u) != 0
      ensures VirtualEntry(r, u) == VirtualEntry(p, u) || (u < HEAP && VirtualEntry(r, u) == Entry(u, MAPPED))
    {
      assert VirtualEntry(q, u) == VirtualEntry(p, u) || (u < HEAP && VirtualEntry(q, u) == Entry(u, MAPPED));
    }
    forall f: PageNo | p.roles[f] != Free
      ensures r.roles[f] == p.roles[f]
    {
      assert q.roles[f] == p.roles[f];
    }
    forall f: PageNo, i: Slot | p.roles[f].Data? || p.roles[f].Reserved?
      ensures Cell(r.mem, f, i) == Cell(p.mem, f, i)
    {
      assert Cell(q.mem, f, i) == Cell(p.mem, f, i);
    }
  }

  // -------------------------------------------------------------- the walks

  /** The table of heap slot s is allocated, mapped to itself, cleared and entered. */
  method MakeHeapTable(k: Kernel, s: Slot) returns (ok: bool)
    requires AllocatorOk(k) && Layout(Now(k), {}, {}) && s >= 64 && Cell(k.Mem(), k.virtualDir, s) == 0
    modifies k.ram, k`zones, k`roles
    ensures AllocatorOk(k)
    ensures ok ==>
              && Layout(Now(k), {}, {}) && |old(k.roles)| == |k.roles| == 0x100000
              && HeapStep(old(Now(k)), Now(k), 0, 0)
              && Cell(k.Mem(), k.virtualDir, s) != 0
    ensures !ok ==> forall h: PageNo :: h >= 1 ==> !Available(k.Mem(), k.linearDir, h)
  {
    hide VirtualEntry, Cell, Lin, Rooted, Layout, GoodEntry, InTables, Dir, Available, HeapStep;
    ghost var p := Now(k);
    LayoutRooted(p, {}, {});
    RootedDirs(p);
    var g: PageNo;
    ok, g := ClaimFrame(k, ZONE_NORMAL);
    if !ok {
      return;
    }
    ghost var q := Now(k);
    ghost var chain;
    ok, chain := MapIdentity(k, g);
    if !ok {
      return;
    }
    HeapKeptTransitive(p, q, Now(k));
    ghost var r := Now(k);
    LayoutRooted(r, {}, {});
    PlaceTableKeepsLayout(r, s, g);
    PlaceTableIsStep(p, r, s, g, 0);
    PlaceTableEntries(r, s, g);
    k.ClearPage(g);
    k.Store(k.virtualDir, s, Entry(g, MAPPED));
    k.roles := k.roles[g := VirTab(s)];
    assert Now(k) == PlaceTable(r, s, g);
  }

  /** The pages of a finished part of the walk hold their flags. */
  ghost predicate Filled(p: Paging, from: nat, to: nat, flags: Word) {
    forall v: PageNo {:trigger VirtualEntry(p, v)} :: from <= v < to ==>
      Cell(p.mem, p.vd, Dir(v)) != 0 && VirtualEntry(p, v) == flags
  }

  lemma StepKeepsAssigned(p: Paging, q: Paging, from: nat, to: nat, lo: nat, hi: nat, flags: Word)
    requires |p.roles| == 0x100000 && HeapStep(p, q, lo, hi) && HEAP <= from
    requires hi <= from || to <= lo
    requires Filled(p, from, to, flags)
    ensures Filled(q, from, to, flags)
  {
    hide VirtualEntry, Cell, Dir;
    forall v: PageNo | from <= v < to
      ensures Cell(q.mem, q.vd, Dir(v)) != 0 && VirtualEntry(q, v) == flags
    {
      assert VirtualEntry(p, v) == flags;
    }
  }

  lemma FilledNext(p: Paging, from: nat, v: PageNo, flags: Word)
    requires Filled(p, from, v, flags)
    requires Cell(p.mem, p.vd, Dir(v)) != 0 && VirtualEntry(p, v) == flags
    ensures Filled(p, from, v as nat + 1, flags)
  {
    hide VirtualEntry, Cell, Dir;
    forall u: PageNo | from <= u <= v
      ensures Cell(p.mem, p.vd, Dir(u)) != 0 && VirtualEntry(p, u) == flags
    {
      assert u != v ==> VirtualEntry(p, u) == flags;
    }
  }

  /** Where the walk of kmemory_virtual_page_allocate ends. The counter is decremented before it is
      tested, so that a count of 0 goes on to the end of the address space. */
  function WalkEnd(page: nat, count: nat): nat {
    if 1 <= count && page + count <= 0x100000 then page + count else 0x100000
  }

  /** The 32-bit counter after n decrements. */
  function CountLeft(count: Word, n: nat): Word
    requires n < 0x100000
  {
    if n <= count then count - n else count - n + 0x1_0000_0000
  }

  lemma CountDown(page: nat, count: Word, v: nat)
    requires page <= v < WalkEnd(page, count) && v < page + 0x100000
    ensures var left := CountLeft(count, v - page);
            var next: Word := if left == 0 then 0xFFFF_FFFF else left - 1;
            && (next == 0 <==> v + 1 == WalkEnd(page, count) && page + count == v + 1)
            && (next != 0 && v + 1 < page + 0x100000 ==> next == CountLeft(count, v + 1 - page))
            && (next != 0 ==> v + 1 < WalkEnd(page, count) || v + 1 == 0x100000)
  {
  }

  /** The walk of kmemory_virtual_page_allocate: every page of the range gets the flags. */
  method AssignPages(k: Kernel, page: nat, count: Word, flags: Word) returns (ok: bool)
    requires AllocatorOk(k) && Layout(Now(k), {}, {})
    requires HEAP <= page < 0x100000 && Unmapped(flags)
    modifies k.ram, k`zones, k`roles
    ensures AllocatorOk(k)
    ensures ok ==>
              && Layout(Now(k), {}, {}) && |old(k.roles)| == |k.roles| == 0x100000
              && HeapStep(old(Now(k)), Now(k), page, WalkEnd(page, count))
              && Filled(Now(k), page, WalkEnd(page, count), flags)
    ensures !ok ==> forall h: PageNo :: h >= 1 ==> !Available(k.Mem(), k.linearDir, h)
  {
    hide VirtualEntry, Cell, Lin, Rooted, Layout, GoodEntry, InTables, Available, HeapStep, WriteEntry, Dir, Tab,
         Filled;
    ghost var p := Now(k);
    LayoutRooted(p, {}, {});
    HeapStepReflexive(p, page);
    FilledNone(p, page, flags);
    var countLocal := count;
    var i1: nat := Dir(page);
    var i2: nat := Tab(page);
    PageSplit(page);
    ok := true;
    while i1 < 1024
      invariant 64 <= i1 <= 1024 && 0 <= i2 < 1024 && ok
      invariant page <= i1 * 1024 + i2 <= WalkEnd(page, count) && (i1 == 1024 ==> i2 == 0)
      invariant i1 < 1024 ==> i1 * 1024 + i2 < WalkEnd(page, count)
      invariant i1 < 1024 ==> countLocal == CountLeft(count, i1 * 1024 + i2 - page)
      invariant AllocatorOk(k) && Layout(Now(k), {}, {}) && |k.roles| == 0x100000
      invariant HeapStep(p, Now(k), page, i1 * 1024 + i2)
      invariant Filled(Now(k), page, i1 * 1024 + i2, flags)
      decreases 1024 - i1
    {
      ghost var done := i1 * 1024 + i2;
      if k.Load(k.virtualDir, i1) == 0 {
        ghost var q := Now(k);
        ok := MakeHeapTable(k, i1);
        if !ok {
          return;
        }
        StepKeepsAssigned(q, Now(k), page, done, 0, 0, flags);
        WidenStep(q, Now(k), done);
        HeapStepChain(p, q, Now(k), page, done, done);
      }
      while i2 < 1024
        invariant 0 <= i2 <= 1024 && page <= i1 * 1024 + i2 <= WalkEnd(page, count)
        invariant i1 * 1024 + i2 < 0x100000 ==>
                    i1 * 1024 + i2 < WalkEnd(page, count) && countLocal == CountLeft(count, i1 * 1024 + i2 - page)
        invariant AllocatorOk(k) && Layout(Now(k), {}, {}) && |k.roles| == 0x100000
        invariant Cell(k.Mem(), k.virtualDir, i1) != 0
        invariant HeapStep(p, Now(k), page, i1 * 1024 + i2)
        invariant Filled(Now(k), page, i1 * 1024 + i2, flags)
        decreases 1024 - i2
      {
        ghost var v: nat := i1 * 1024 + i2;
        CountDown(page, count, v);
        AssignOne(k, i1, i2, page, flags, p);
        countLocal := if countLocal == 0 then 0xFFFF_FFFF else countLocal - 1;
        if countLocal == 0 {
          return;
        }
        i2 := i2 + 1;
      }
      i2 := 0;
      i1 := i1 + 1;
    }
  }

  /** One entry of the walk. */
  method AssignOne(k: Kernel, i1: Slot, i2: Slot, ghost page: nat, flags: Word, ghost p: Paging)
    requires AllocatorOk(k) && Layout(Now(k), {}, {}) && |k.roles| == |p.roles| == 0x100000
    requires i1 >= 64 && HEAP <= page <= i1 * 1024 + i2 && Unmapped(flags) && Cell(k.Mem(), k.virtualDir, i1) != 0
    requires HeapStep(p, Now(k), page, i1 * 1024 + i2) && Filled(Now(k), page, i1 * 1024 + i2, flags)
    modifies k.ram
    ensures AllocatorOk(k) && Layout(Now(k), {}, {}) && Cell(k.Mem(), k.virtualDir, i1) != 0
    ensures HeapStep(p, Now(k), page, i1 * 1024 + i2 + 1) && Filled(Now(k), page, i1 * 1024 + i2 + 1, flags)
  {
    hide VirtualEntry, Cell, Lin, Rooted, Layout, GoodEntry, InTables, Available, HeapStep, WriteEntry, Dir, Tab,
         Filled;
    ghost var q := Now(k);
    ghost var v: nat := PageAt(i1, i2);
    LayoutRooted(q, {}, {});
    AssignKeepsLayout(q, v, flags);
    StoreEntry(k, PageAt(i1, i2), flags);
    StepKeepsAssigned(q, Now(k), page, v, v, v + 1, flags);
    FilledNext(Now(k), page, v, flags);
    HeapStepChain(p, q, Now(k), page, v, v + 1);
  }

  lemma FilledNone(p: Paging, from: nat, flags: Word)
    ensures Filled(p, from, from, flags)
  {
  }

  lemma PageSplit(page: PageNo)
    ensures Dir(page) * 1024 + Tab(page) == page && (page >= HEAP ==> Dir(page) >= 64)
  {
  }

  lemma HeapStepReflexive(p: Paging, lo: nat)
    requires |p.roles| == 0x100000
    ensures HeapStep(p, p, lo, lo)
  {
  }

  lemma WidenStep(p: Paging, q: Paging, lo: nat)
    requires |p.roles| == 0x100000 && HeapStep(p, q, 0, 0)
    ensures HeapStep(p, q, lo, lo)
  {
  }

  /** Every page of the range lies in a table that exists. */
  ghost predicate HasTables(p: Paging, from: nat, to: nat) {
    forall v: PageNo {:trigger Dir(v)} :: from <= v < to ==> Cell(p.mem, p.vd, Dir(v)) != 0
  }

  lemma StepKeepsTables(p: Paging, q: Paging, from: nat, to: nat, lo: nat, hi: nat)
    requires |p.roles| == 0x100000 && HeapStep(p, q, lo, hi) && HasTables(p, from, to)
    ensures HasTables(q, from, to)
  {
    hide VirtualEntry, Cell, Dir;
  }

  /** One step of the release walk: give the frame of a mapped page back (which only rewrites the
      linear entry of frame 0) and empty the entry. */
  method ReleasePage(k: Kernel, v: PageNo)
    requires AllocatorOk(k) && Layout(Now(k), {}, {}) && v >= HEAP
    requires Cell(k.Mem(), k.virtualDir, Dir(v)) != 0
    modifies k.ram
    ensures AllocatorOk(k) && Layout(Now(k), {}, {}) && |k.roles| == 0x100000
    ensures HeapStep(old(Now(k)), Now(k), v, v as nat + 1)
    ensures VirtualEntry(Now(k), v) == 0 && Cell(k.Mem(), k.virtualDir, Dir(v)) != 0
  {
    hide VirtualEntry, Cell, Lin, Rooted, Layout, GoodEntry, InTables, Available, HeapStep, WriteEntry, WriteLinear;
    ghost var p := Now(k);
    LayoutRooted(p, {}, {});
    HeapStepReflexive(p, v);
    var entry := k.Load(Frame(k.Load(k.virtualDir, Dir(v))), Tab(v));
    if Present(entry) {
      ScrapKeepsLayout(p, Frame(entry), v);
      SetLinearEntry(k, Frame(entry), 0, LINEAR_AVAILABLE);
      assert Cell(k.Mem(), k.virtualDir, Dir(v)) != 0;
    }
    ghost var q := Now(k);
    LayoutRooted(q, {}, {});
    AssignKeepsLayout(q, v, 0);
    WriteEntryEffect(q, v, 0);
    StoreEntry(k, v, 0);
    assert Cell(k.Mem(), k.virtualDir, Dir(v)) == Cell(q.mem, q.vd, Dir(v));
    HeapStepChain(p, q, Now(k), v, v, v as nat + 1);
  }

  /** The walk of kmemory_virtual_page_unallocate: every page of the range is emptied. */
  method ReleasePages(k: Kernel, page: nat, count: nat)
    requires AllocatorOk(k) && Layout(Now(k), {}, {})
    requires HEAP <= page && 1 <= count && page + count <= 0x100000
    requires HasTables(Now(k), page, page + count)
    modifies k.ram
    ensures AllocatorOk(k) && Layout(Now(k), {}, {}) && |k.roles| == 0x100000
    ensures HeapStep(old(Now(k)), Now(k), page, page + count)
    ensures Filled(Now(k), page, page + count, 0)
  {
    hide VirtualEntry, Cell, Lin, Rooted, Layout, GoodEntry, InTables, Available, HeapStep, Dir, Tab;
    ghost var p := Now(k);
    LayoutRooted(p, {}, {});
    HeapStepReflexive(p, page);
    var countLocal := count;
    var i1: nat := Dir(page);
    var i2: nat := Tab(page);
    PageSplit(page);
    while i1 < 1024
      invariant 64 <= i1 <= 1024 && 0 <= i2 < 1024
      invariant 1 <= countLocal <= count && i1 * 1024 + i2 == page + count - countLocal
      invariant AllocatorOk(k) && Layout(Now(k), {}, {}) && |k.roles| == 0x100000
      invariant HasTables(Now(k), page, page + count)
      invariant HeapStep(p, Now(k), page, page + count - countLocal)
      invariant Filled(Now(k), page, page + count - countLocal, 0)
      decreases 1024 - i1
    {
      while i2 < 1024
        invariant 0 <= i2 <= 1024 && 1 <= countLocal <= count && i1 * 1024 + i2 == page + count - countLocal
        invariant AllocatorOk(k) && Layout(Now(k), {}, {}) && |k.roles| == 0x100000
        invariant HasTables(Now(k), page, page + count)
        invariant HeapStep(p, Now(k), page, page + count - countLocal)
        invariant Filled(Now(k), page, page + count - countLocal, 0)
        decreases 1024 - i2
      {
        ghost var q := Now(k);
        ghost var v: nat := PageAt(i1, i2);
        ReleasePage(k, PageAt(i1, i2));
        StepKeepsAssigned(q, Now(k), page, v, v, v + 1, 0);
        StepKeepsTables(q, Now(k), page, page + count, v, v + 1);
        FilledNext(Now(k), page, v, 0);
        HeapStepChain(p, q, Now(k), page, v, v + 1);
        countLocal := countLocal - 1;
        if countLocal == 0 {
          return;
        }
        i2 := i2 + 1;
      }
      i2 := 0;
      i1 := i1 + 1;
    }
  }

  /** Clearing a frame that was free in p keeps the invariant, and seen from p nothing changes. */
  lemma ClearReserved(p: Paging, q: Paging, g: PageNo)
    requires |p.roles| == |q.roles| == 0x100000 && Layout(q, {}, {})
    requires HeapKept(p, q) && p.roles[g] == Free && q.roles[g] == Reserved
    ensures var r := q.(mem := Clear(q.mem, g));
            Layout(r, {}, {}) && HeapStep(p, r, 0, 0)
  {
    hide Cell, Lin, Rooted, Layout, GoodEntry, InTables, Dir;
    var r := q.(mem := Clear(q.mem, g));
    LayoutRooted(q, {}, {});
    DataStoreEffect(q, r);
    NoneOfferedByLinear(q, r);
    NoneOfferedTransitive(p, q, r);
    hide VirtualEntry, Available;
    forall u: PageNo | Dir(u) !in {}
      ensures GoodEntry(r, u)
    {
      LayoutEntry(q, {}, {}, u);
      GoodEntryKept(q, r, u, {});
    }
    LayoutFromEntries(r, {});
  }

  /** Stores into frames that hold neither directories nor tables change no entry. */
  lemma DataStoreEffect(p: Paging, q: Paging)
    requires Rooted(p) && |p.roles| == 0x100000 && q == p.(mem := q.mem)
    requires forall f: PageNo, i: Slot {:trigger Cell(q.mem, f, i)} ::
               !p.roles[f].Data? && !p.roles[f].Reserved? ==> Cell(q.mem, f, i) == Cell(p.mem, f, i)
    ensures Rooted(q)
    ensures forall t: Slot {:trigger Cell(q.mem, q.vd, t)} :: Cell(q.mem, q.vd, t) == Cell(p.mem, p.vd, t)
    ensures forall h: PageNo {:trigger Lin(q, h)} :: InTables(h, p.T) ==> Lin(q, h) == Lin(p, h)
    ensures forall v: PageNo {:trigger VirtualEntry(q, v)} :: VirtualEntry(q, v) == VirtualEntry(p, v)
  {
    StructureKept(p, q);
    hide LinearEntry, Available, Lin;
    forall v: PageNo
      ensures VirtualEntry(q, v) == VirtualEntry(p, v)
    {
      assert Cell(q.mem, q.vd, Dir(v)) == Cell(p.mem, p.vd, Dir(v));
    }
  }
}
