/** Pages mapped to the frame of the same number: set_virtual_entry(x, x) and set_linear_entry(x, x). */
module IdentityMap {
  import opened Machine
  import opened FrameAllocator
  import opened FrameSearch
  import opened FrameRuns
  import opened PageTables

  /** From p to q the heap has not changed: its tables, entries and frames are the same, pages below the heap
      that were mapped are mapped as before or, by now, to themselves, and frames in use keep their use. */
  ghost predicate HeapKept(p: Paging, q: Paging)
    requires |p.roles| == 0x100000
  {
    && q.ld == p.ld && q.vd == p.vd && q.T == p.T && |q.roles| == 0x100000
    && (forall s: Slot {:trigger Cell(q.mem, q.vd, s)} :: s >= 64 || Cell(p.mem, p.vd, s) != 0 ==>
          Cell(q.mem, q.vd, s) == Cell(p.mem, p.vd, s))
    && (forall u: PageNo {:trigger VirtualEntry(q, u)} :: u >= HEAP || VirtualEntry(p, u) != 0 ==>
          VirtualEntry(q, u) == VirtualEntry(p, u) || (u < HEAP && VirtualEntry(q, u) == Entry(u, MAPPED)))
    && (forall f: PageNo {:trigger q.roles[f]} :: p.roles[f] != Free ==> q.roles[f] == p.roles[f])
    && (forall f: PageNo, i: Slot {:trigger Cell(q.mem, f, i)} ::
          p.roles[f].Data? || p.roles[f].Reserved? || p.roles[f].LinDir? ==> Cell(q.mem, f, i) == Cell(p.mem, f, i))
    && NoneOffered(p, q)
  }

  /** No frame but frame 0 has become available. */
  ghost predicate NoneOffered(p: Paging, q: Paging) {
    forall h: PageNo {:trigger Available(q.mem, q.ld, h)} ::
        h >= 1 && Available(q.mem, q.ld, h) ==> Available(p.mem, p.ld, h)
  }

  lemma NoneOfferedByLinear(p: Paging, q: Paging)
    requires Rooted(p) && Rooted(q) && q.ld == p.ld && q.T == p.T
    requires forall h: PageNo {:trigger Lin(q, h)} ::
               InTables(h, p.T) ==> Lin(q, h) == Lin(p, h) || !LinAvailable(Lin(q, h))
    ensures NoneOffered(p, q)
  {
    RootedLinear(p);
    RootedLinear(q);
    hide Rooted, LinAvailable, LinearEntry, Cell, LinAllocated;
    forall h: PageNo | h >= 1 && Available(q.mem, q.ld, h)
      ensures Available(p.mem, p.ld, h)
    {
      PresentTable(q.mem, q.ld, q.T, h);
      PresentTable(p.mem, p.ld, p.T, h);
      assert Lin(q, h) == Lin(p, h);
    }
  }

  lemma PresentTable(m: Ram, ld: PageNo, T: nat, h: PageNo)
    requires LinearOk(m, ld, T)
    ensures LinAllocated(Cell(m, ld, Dir(h))) <==> InTables(h, T)
  {
    hide Cell, LinAllocated;
    TableThere(m, ld, T, Dir(h));
  }

  lemma KeptNoneOffered(p: Paging, q: Paging)
    requires |p.roles| == 0x100000 && HeapKept(p, q)
    ensures NoneOffered(p, q)
  {
  }

  lemma NoneOfferedTransitive(p: Paging, q: Paging, r: Paging)
    requires NoneOffered(p, q) && NoneOffered(q, r)
    ensures NoneOffered(p, r)
  {
    hide Available;
  }

  lemma HeapKeptTransitive(p: Paging, q: Paging, r: Paging)
    requires |p.roles| == |q.roles| == 0x100000 && HeapKept(p, q) && HeapKept(q, r)
    ensures HeapKept(p, r)
  {
    hide VirtualEntry, Cell;
    forall s: Slot | s >= 64 || Cell(p.mem, p.vd, s) != 0
      ensures Cell(r.mem, r.vd, s) == Cell(p.mem, p.vd, s)
    {
      assert Cell(q.mem, q.vd, s) == Cell(p.mem, p.vd, s);
    }
    forall u: PageNo | u >= HEAP || VirtualEntry(p, u) != 0
      ensures VirtualEntry(r, u) == VirtualEntry(p, u) || (u < HEAP && VirtualEntry(r, u) == Entry(u, MAPPED))
    {
      MappedNonzero(u);
      assert VirtualEntry(q, u) == VirtualEntry(p, u) || (u < HEAP && VirtualEntry(q, u) == Entry(u, MAPPED));
    }
    forall f: PageNo | p.roles[f] != Free
      ensures r.roles[f] == p.roles[f]
    {
      assert q.roles[f] == p.roles[f];
    }
    forall f: PageNo, i: Slot | p.roles[f].Data? || p.roles[f].Reserved? || p.roles[f].LinDir?
      ensures Cell(r.mem, f, i) == Cell(p.mem, f, i)
    {
      assert q.roles[f] == p.roles[f];
      assert Cell(q.mem, f, i) == Cell(p.mem, f, i);
    }
  }

  lemma HeapKeptReflexive(p: Paging)
    requires |p.roles| == 0x100000
    ensures HeapKept(p, p)
  {
  }

  /** Installing an identity page does not touch the heap. */
  lemma InstalledKeepsHeap(p: Paging, q: Paging, g: PageNo)
    requires |p.roles| == 0x100000 && Layout(p, {}, {}) && Rooted(q) && g < HEAP
    requires Installed(p, q, g, Entry(g, MAPPED), {})
    ensures HeapKept(p, q)
  {
    hide VirtualEntry, Cell, Lin, Available, LinearEntry, Entry, Rooted, Layout, GoodEntry;
    NewTablesLow(p, q);
    assert Dir(g) < 64;
    forall u: PageNo | u >= HEAP || VirtualEntry(p, u) != 0
      ensures VirtualEntry(q, u) == VirtualEntry(p, u) || (u < HEAP && VirtualEntry(q, u) == Entry(u, MAPPED))
    {
    }
    LayoutRooted(p, {}, {});
    forall h: PageNo | InTables(h, p.T)
      ensures Lin(q, h) == Lin(p, h) || !LinAvailable(Lin(q, h))
    {
      NotAvailableFlags(h);
    }
    NoneOfferedByLinear(p, q);
  }

  lemma NewTablesLow(p: Paging, q: Paging)
    requires |p.roles| == 0x100000 && Rooted(q)
    ensures forall f: PageNo {:trigger q.roles[f]} :: q.roles[f].VirTab? ==> f < HEAP
  {
  }

  /** The identity page g has been installed; once its linear entry is written the invariant holds. */
  function Enter(p: Paging, g: PageNo, role: Role): Paging
    requires |p.roles| == 0x100000
  {
    WriteLinear(p, g, Entry(g, LINEAR_ALLOCATED)).(roles := p.roles[g := role])
  }

  lemma EnterKeepsLayout(p: Paging, g: PageNo, role: Role)
    requires Layout(p, {}, {g}) && InTables(g, p.T) && g < HEAP && |p.roles| == 0x100000
    requires VirtualEntry(p, g) == Entry(g, MAPPED)
    requires if p.roles[g] == Free then role == Reserved else role == p.roles[g] && !role.Data?
    ensures Layout(Enter(p, g, role), {}, {})
  {
    hide VirtualEntry, Cell, Lin, Available, LinearEntry, Rooted, Layout, GoodEntry, InTables, Dir;
    LayoutRooted(p, {}, {g});
    var m := WriteLinear(p, g, Entry(g, LINEAR_ALLOCATED));
    NotAvailableFlags(g);
    WriteLinearEffect(p, g, Entry(g, LINEAR_ALLOCATED));
    var q := Enter(p, g, role);
    EntriesOfRoles(m, q);
    ReserveKeepsRooted(m, g, role);
    forall u: PageNo | Dir(u) !in {}
      ensures GoodEntry(q, u)
    {
      if u == g {
        GoodIdentity(q, g);
      } else {
        LayoutEntry(p, {}, {g}, u);
        EntryOutside(p, q, u, g);
      }
    }
    LayoutFromEntries(q, {});
  }

  lemma NotAvailableFlags(g: PageNo)
    ensures !LinAvailable(Entry(g, LINEAR_ALLOCATED))
  {
  }

  lemma EntriesOfRoles(p: Paging, q: Paging)
    requires q == p.(roles := q.roles)
    ensures forall u: PageNo {:trigger VirtualEntry(q, u)} :: VirtualEntry(q, u) == VirtualEntry(p, u)
    ensures forall h: PageNo {:trigger Lin(q, h)} :: Lin(q, h) == Lin(p, h)
  {
  }

  lemma GoodIdentity(p: Paging, g: PageNo)
    requires |p.roles| == 0x100000 && g < HEAP && InTables(g, p.T)
    requires VirtualEntry(p, g) == Entry(g, MAPPED) && Lin(p, g) == Entry(g, LINEAR_ALLOCATED)
    requires p.roles[g] != Free && !p.roles[g].Data?
    ensures GoodEntry(p, g)
  {
  }

  /** Giving a frame that is not available a use keeps the structure. */
  lemma ReserveKeepsRooted(p: Paging, g: PageNo, role: Role)
    requires Rooted(p) && |p.roles| == 0x100000 && !Available(p.mem, p.ld, g)
    requires if p.roles[g] == Free then role == Reserved else role == p.roles[g]
    ensures Rooted(p.(roles := p.roles[g := role]))
  {
    hide Available, Cell, LinearEntry, TablesPresent;
  }

  lemma EntryOutside(p: Paging, q: Paging, u: PageNo, g: PageNo)
    requires |p.roles| == |q.roles| == 0x100000 && q.T == p.T
    requires GoodEntry(p, u) && VirtualEntry(q, u) == VirtualEntry(p, u) && u != g
    requires forall h: PageNo {:trigger Lin(q, h)} :: InTables(h, p.T) && h != g ==> Lin(q, h) == Lin(p, h)
    requires forall f: PageNo {:trigger q.roles[f]} :: f != g ==> q.roles[f] == p.roles[f]
    requires !p.roles[g].Data?
    ensures GoodEntry(q, u)
  {
    hide VirtualEntry, Lin, InTables, Entry, Frame;
  }

  lemma EnterEffect(p: Paging, g: PageNo, role: Role)
    requires Rooted(p) && InTables(g, p.T) && |p.roles| == 0x100000
    requires p.roles[g] == Free || role == p.roles[g]
    ensures HeapKept(p, Enter(p, g, role))
    ensures Lin(Enter(p, g, role), g) == Entry(g, LINEAR_ALLOCATED)
    ensures VirtualEntry(Enter(p, g, role), g) == VirtualEntry(p, g)
  {
    hide VirtualEntry, Cell, Lin, Available, LinearEntry, Rooted, InTables, Entry;
    WriteLinearEffect(p, g, Entry(g, LINEAR_ALLOCATED));
    EntriesOfRoles(WriteLinear(p, g, Entry(g, LINEAR_ALLOCATED)), Enter(p, g, role));
  }

  /** Linear entries change only to record a frame that maps to itself. */
  ghost predicate LinearGrown(p: Paging, q: Paging)
    requires |q.roles| == 0x100000
  {
    forall h: PageNo {:trigger Lin(q, h)} :: InTables(h, p.T) ==>
      Lin(q, h) == Lin(p, h) || (Lin(q, h) == Entry(h, LINEAR_ALLOCATED) && q.roles[h] != Free)
  }

  lemma EnterGrown(p: Paging, q: Paging, g: PageNo, role: Role)
    requires |p.roles| == |q.roles| == 0x100000 && Rooted(q) && InTables(g, p.T) && g < HEAP
    requires Installed(p, q, g, Entry(g, MAPPED), {}) && role != Free
    ensures LinearGrown(p, Enter(q, g, role))
  {
    hide VirtualEntry, Cell, Lin, Available, LinearEntry, Rooted, InTables, Entry;
    WriteLinearEffect(q, g, Entry(g, LINEAR_ALLOCATED));
    EntriesOfRoles(WriteLinear(q, g, Entry(g, LINEAR_ALLOCATED)), Enter(q, g, role));
    forall h: PageNo | InTables(h, p.T)
      ensures var r := Enter(q, g, role);
              Lin(r, h) == Lin(p, h) || (Lin(r, h) == Entry(h, LINEAR_ALLOCATED) && r.roles[h] != Free)
    {
      assert h != g ==> Lin(Enter(q, g, role), h) == Lin(q, h);
    }
  }

  /** From p to q: page g has been mapped to itself, and the tables in `chain` have been created for that. A
      page table is left without its identity entry only if it is the last of them and uncovered. */
  ghost predicate Charted(p: Paging, q: Paging, g: PageNo, chain: seq<PageNo>)
    requires |p.roles| == |q.roles| == 0x100000
  {
    && (forall f: PageNo {:trigger f in chain} :: NewTable(p, q, f) <==> f in chain)
    && (forall f: PageNo {:trigger f in chain} :: f in chain ==> Lin(q, f) == Entry(f, LINEAR_ALLOCATED))
    && (forall f: PageNo {:trigger f in chain} :: f in chain && f != g ==>
          VirtualEntry(q, f) == if LeavesBare(p, g, chain, f) then 0 else Entry(f, MAPPED))
    && (forall u: PageNo {:trigger VirtualEntry(q, u)} ::
          u != g && u !in chain ==> VirtualEntry(q, u) == VirtualEntry(p, u))
  }

  /** The call that takes the frames of `chain` for page v leaves table f without its identity entry. */
  ghost predicate LeavesBare(p: Paging, v: PageNo, chain: seq<PageNo>, f: PageNo) {
    LastUncovered(p, v, chain) && f == chain[|chain| - 1]
  }

  lemma ChartEntered(p: Paging, q: Paging, g: PageNo, chain: seq<PageNo>, role: Role)
    requires Rooted(p) && Rooted(q) && |p.roles| == |q.roles| == 0x100000 && InTables(g, q.T)
    requires Installed(p, q, g, Entry(g, MAPPED), {}) && Chain(p, q, g, chain)
    requires if q.roles[g] == Free then role == Reserved else role == q.roles[g]
    ensures Charted(p, Enter(q, g, role), g, chain)
  {
    hide VirtualEntry, Cell, Lin, Available, LinearEntry, Rooted, InTables, Entry, Dir;
    var r := Enter(q, g, role);
    WriteLinearEffect(q, g, Entry(g, LINEAR_ALLOCATED));
    EntriesOfRoles(WriteLinear(q, g, Entry(g, LINEAR_ALLOCATED)), r);
    forall f: PageNo
      ensures NewTable(p, r, f) <==> f in chain
      ensures f in chain ==> Lin(r, f) == Entry(f, LINEAR_ALLOCATED)
    {
      assert NewTable(p, q, f) <==> f in chain;
      TablesInRange(q, f);
    }
    forall f: PageNo | f in chain && f != g
      ensures VirtualEntry(r, f) == if LeavesBare(p, g, chain, f) then 0 else Entry(f, MAPPED)
    {
      var j :| 0 <= j < |chain| && chain[j] == f;
    }
  }

  lemma InstalledEntry(p: Paging, q: Paging, v: PageNo, w: Word, dirty: set<Slot>)
    requires |p.roles| == 0x100000 && Installed(p, q, v, w, dirty)
    ensures VirtualEntry(q, v) == w && q.ld == p.ld && q.vd == p.vd && q.T == p.T && |q.roles| == 0x100000
    ensures forall f: PageNo {:trigger q.roles[f]} :: q.roles[f] == p.roles[f] || NewTable(p, q, f)
  {
  }

  /** set_virtual_entry(x, x) followed by set_linear_entry(x, x). A frame that may still be handed out can be
      taken for a page table by the very call that maps it. */
  method MapIdentity(k: Kernel, g: PageNo) returns (ok: bool, ghost chain: seq<PageNo>)
    requires AllocatorOk(k) && Layout(Now(k), {}, {}) && InTables(g, TableCount(k.upper))
    requires |k.roles| == 0x100000 && !k.roles[g].Data?
    modifies k.ram, k`zones, k`roles
    ensures AllocatorOk(k)
    ensures ok ==>
              && Layout(Now(k), {}, {}) && |k.roles| == |old(k.roles)| == 0x100000
              && HeapKept(old(Now(k)), Now(k))
              && VirtualEntry(Now(k), g) == Entry(g, MAPPED)
              && Lin(Now(k), g) == Entry(g, LINEAR_ALLOCATED)
              && (if old(k.roles[g]) == Free then k.roles[g] == Reserved || k.roles[g].VirTab?
                  else k.roles[g] == old(k.roles[g]))
              && (forall f: PageNo {:trigger k.roles[f]} :: f != g ==>
                    k.roles[f] == old(k.roles[f]) || (old(k.roles[f]) == Free && k.roles[f].VirTab?))
              && LinearGrown(old(Now(k)), Now(k))
              && Takes(old(Now(k)), old(k.zones), g, chain) && Charted(old(Now(k)), Now(k), g, chain)
    ensures !ok ==> forall h: PageNo :: h >= 1 ==> !Available(k.Mem(), k.linearDir, h)
  {
    hide VirtualEntry, Cell, Lin, Available, LinearEntry, Rooted, Entry, Layout, Installed, HeapKept, Dir, WriteLinear,
         LinearGrown, Charted, Takes, Chain, Wiped, Wipes;
    ghost var p := Now(k);
    assert g < HEAP by {
      LayoutRooted(p, {}, {});
      RootedRoles(p);
    }
    ok, chain := SetVirtualEntry(k, g, g, MAPPED, {});
    if !ok {
      return;
    }
    ghost var q := Now(k);
    LayoutRooted(q, {}, {g});
    InstalledEntry(p, q, g, Entry(g, MAPPED), {});
    InstalledKeepsHeap(p, q, g);
    ghost var role := if k.roles[g] == Free then Reserved else k.roles[g];
    EnterKeepsLayout(q, g, role);
    EnterEffect(q, g, role);
    EnterGrown(p, q, g, role);
    LayoutRooted(p, {}, {});
    ChartEntered(p, q, g, chain, role);
    HeapKeptTransitive(p, q, Enter(q, g, role));
    SetLinearEntry(k, g, g, LINEAR_ALLOCATED);
    k.roles := k.roles[g := role];
    assert Now(k) == Enter(q, g, role);
  }

  // ------------------------------------------------- allocating and mapping frames

  /** The available frame g is taken for the kernel's own use. */
  function Claim(p: Paging, g: PageNo, role: Role): Paging
    requires |p.roles| == 0x100000
  {
    WriteLinear(p, g, LINEAR_ALLOCATED).(roles := p.roles[g := role])
  }

  lemma ClaimKeepsLayout(p: Paging, g: PageNo, role: Role)
    requires Layout(p, {}, {}) && |p.roles| == 0x100000
    requires 1 <= g && InTables(g, p.T) && Available(p.mem, p.ld, g)
    requires role.Reserved? || role.Data?
    ensures p.roles[g] == Free
    ensures Layout(Claim(p, g, role), {}, {}) && HeapKept(p, Claim(p, g, role))
  {
    hide VirtualEntry, Cell, Lin, Available, LinearEntry, Rooted, Layout, GoodEntry, InTables, Dir;
    LayoutRooted(p, {}, {});
    AvailableFree(p, g);
    var m := WriteLinear(p, g, LINEAR_ALLOCATED);
    WriteLinearEffect(p, g, LINEAR_ALLOCATED);
    var q := Claim(p, g, role);
    EntriesOfRoles(m, q);
    ClaimKeepsRooted(m, g, role);
    forall u: PageNo | Dir(u) !in {}
      ensures GoodEntry(q, u)
    {
      LayoutEntry(p, {}, {}, u);
      GoodEntryKept(p, q, u, {g});
    }
    LayoutFromEntries(q, {});
  }

  lemma ClaimKeepsRooted(p: Paging, g: PageNo, role: Role)
    requires Rooted(p) && |p.roles| == 0x100000 && !Available(p.mem, p.ld, g) && p.roles[g] == Free
    requires 1 <= g && InTables(g, p.T) && (role.Reserved? || role.Data?)
    ensures Rooted(p.(roles := p.roles[g := role]))
  {
    hide Available, Cell, LinearEntry, TablesPresent;
  }

  /** get_free_pages(1) for a frame the kernel keeps for itself. */
  method ClaimFrame(k: Kernel, first: nat) returns (ok: bool, g: PageNo)
    requires AllocatorOk(k) && Layout(Now(k), {}, {}) && first < 3
    modifies k.ram, k`zones, k`roles
    ensures AllocatorOk(k)
    ensures ok ==>
              && 1 <= g && InTables(g, TableCount(k.upper))
              && |old(k.roles)| == |k.roles| == 0x100000
              && old(k.roles[g]) == Free && k.roles[g] == Reserved
              && Layout(Now(k), {}, {}) && HeapKept(old(Now(k)), Now(k))
    ensures !ok ==> Now(k) == old(Now(k)) && Exhausted(k.Mem(), k.linearDir, k.zones, TableCount(k.upper), 1, first)
    ensures !ok && first == ZONE_NORMAL ==> forall h: PageNo :: h >= 1 ==> !Available(k.Mem(), k.linearDir, h)
  {
    hide Available, Rooted, InTables, LinearOk, Layout, HeapKept, PokeLinear, Exhausted;
    LayoutRooted(Now(k), {}, {});
    RootedLinear(Now(k));
    ghost var p := Now(k);
    ok, g := GetFreePage(k, first);
    if ok {
      ClaimKeepsLayout(p, g, Reserved);
      k.roles := k.roles[g := Reserved];
      assert Now(k) == Claim(p, g, Reserved);
    }
  }

  /** kmemory_linear_page_map: `count` pages from page `first` are mapped to themselves. A frame that was
      free is reserved by this, unless it has become a page table meanwhile. */
  method LinearPageMap(k: Kernel, first: PageNo, count: nat) returns (ok: bool)
    requires AllocatorOk(k) && Layout(Now(k), {}, {}) && first + count <= TableCount(k.upper) * 1024
    requires |k.roles| == 0x100000
    requires forall g: PageNo :: first <= g < first + count ==> !k.roles[g].Data?
    modifies k.ram, k`zones, k`roles
    ensures AllocatorOk(k)
    ensures ok ==>
              && Layout(Now(k), {}, {}) && |old(k.roles)| == |k.roles| == 0x100000
              && HeapKept(old(Now(k)), Now(k))
              && (forall g: PageNo :: first <= g < first + count ==>
                    VirtualEntry(Now(k), g) == Entry(g, MAPPED) && Mapped(old(k.roles[g]), k.roles[g]))
    ensures !ok ==> forall h: PageNo :: h >= 1 ==> !Available(k.Mem(), k.linearDir, h)
  {
    hide Available, Rooted, Layout, VirtualEntry, Lin, Cell, Dir, Entry;
    ghost var p := Now(k);
    HeapKeptReflexive(p);
    var i := 0;
    ok := true;
    while i < count
      invariant 0 <= i <= count && AllocatorOk(k) && Layout(Now(k), {}, {}) && |k.roles| == 0x100000
      invariant HeapKept(p, Now(k))
      invariant forall g: PageNo {:trigger k.roles[g]} :: first + i <= g < first + count ==>
                  k.roles[g] == p.roles[g] || (p.roles[g] == Free && k.roles[g].VirTab?)
      invariant forall g: PageNo :: first <= g < first + i ==>
                  VirtualEntry(Now(k), g) == Entry(g, MAPPED) && Mapped(p.roles[g], k.roles[g])
    {
      ghost var q := Now(k);
      ghost var chain;
      ok, chain := MapIdentity(k, first + i);
      if !ok {
        return;
      }
      MappedKept(p, q, Now(k), first, i);
      HeapKeptTransitive(p, q, Now(k));
      i := i + 1;
    }
  }

  /** What mapping a frame to itself does to its role. */
  predicate Mapped(was: Role, now: Role) {
    if was == Free then now == Reserved || now.VirTab? else now == was
  }

  /** Pages that have been mapped stay mapped. */
  lemma MappedKept(p: Paging, q: Paging, r: Paging, first: PageNo, n: nat)
    requires |p.roles| == |q.roles| == |r.roles| == 0x100000 && HeapKept(q, r)
    requires forall g: PageNo :: first <= g < first + n ==>
               VirtualEntry(q, g) == Entry(g, MAPPED) && Mapped(p.roles[g], q.roles[g])
    ensures forall g: PageNo :: first <= g < first + n ==>
              VirtualEntry(r, g) == Entry(g, MAPPED) && Mapped(p.roles[g], r.roles[g])
  {
    hide VirtualEntry, Cell, Available;
  }

  /** A run of frames is taken from zone z; its last one is the kernel's own from now on. */
  method ClaimRun(k: Kernel, count: nat, first: nat) returns (ok: bool, g: PageNo, ghost z: nat)
    requires AllocatorOk(k) && Layout(Now(k), {}, {}) && first < 3
    requires |k.zones| == 3 && TableCount(k.upper) <= 64
    requires !RunWraps(k.Mem(), k.linearDir, k.zones, TableCount(k.upper), count, first)
    modifies k.ram, k`zones, k`roles
    ensures AllocatorOk(k) && |old(k.roles)| == |k.roles| == 0x100000 && |old(k.zones)| == 3
    ensures ok ==>
              && count >= 1 && 1 <= g && g + count <= TableCount(k.upper) * 1024 <= 0x10000
              && (forall j: PageNo :: g <= j < g + count ==> Available(old(k.Mem()), k.linearDir, j))
              && Now(k) == Claim(old(Now(k)), g + count - 1, Reserved)
    ensures ok ==> first <= z < 3 && old(k.zones)[z].next != 0
    ensures ok ==> forall j: PageNo :: g <= j < g + count ==> j in Order(old(k.zones)[z], TableCount(k.upper))
    ensures ok ==> forall i :: first <= i < z && old(k.zones)[i].next != 0 ==>
              NoRun(ZoneMarks(old(k.Mem()), k.linearDir, old(k.zones)[i], TableCount(k.upper)), count)
    ensures !ok ==> Now(k) == old(Now(k)) && Exhausted(k.Mem(), k.linearDir, k.zones, TableCount(k.upper), count, first)
    ensures ok && count == 1 ==>
              var r := PickFrom(old(k.Mem()), k.linearDir, old(k.zones), TableCount(k.upper), first);
              r.Picked? && r.frame == g
  {
    hide Available, Rooted, LinearOk, Layout, PokeLinear, Exhausted, Allocates, ZonesOk, RunWraps, PickFrom;
    LayoutRooted(Now(k), {}, {});
    RootedLinear(Now(k));
    LinearTables(k.Mem(), k.linearDir, TableCount(k.upper));
    ghost var m, zs := k.Mem(), k.zones;
    var address: nat;
    ghost var e: nat;
    ok, address, z, e := GetFreePages(k, count, first, TableCount(k.upper));
    g := 0;
    if ok {
      AllocatedIn(m, k.linearDir, zs, TableCount(k.upper), count, first, k.Mem(), k.zones, address, z, e);
      RunSound(m, k.linearDir, zs, k.upper, count, first, k.Mem(), k.zones, address, z, e);
      if count == 1 {
        AllocatesPicked(m, k.linearDir, zs, TableCount(k.upper), first, k.Mem(), k.zones, address, z, e);
      }
      g := address / 4096;
      k.roles := k.roles[g + count - 1 := Reserved];
    }
  }

  /** A search takes its frames in the first zone that has a run. */
  lemma AllocatedIn(m: Ram, ld: PageNo, zones: seq<Zone>, T: nat, count: nat, first: nat,
                    m': Ram, zones': seq<Zone>, address: nat, z: nat, e: nat)
    requires |zones| == 3 && T <= 64 && Allocates(m, ld, zones, T, count, first, m', zones', address, z, e)
    ensures first <= z < 3 && zones[z].next != 0
    ensures forall i :: first <= i < z && zones[i].next != 0 ==> NoRun(ZoneMarks(m, ld, zones[i], T), count)
  {
    hide NoRun, ZoneMarks, Order, FirstRunAt;
  }

  /** kmemory_linear_page_allocate: a run of frames, each mapped to its own address. The run is a block unless
      the search may straddle a wrap. A page of it that is not reserved afterwards has been taken for a page
      table while the run was being mapped: all but the last were still on offer. */
  method LinearPageAllocate(k: Kernel, count: nat, dma: bool) returns (ok: bool, g: PageNo, ghost z: nat)
    requires AllocatorOk(k) && Layout(Now(k), {}, {})
    requires |k.zones| == 3 && TableCount(k.upper) <= 64
    requires !RunWraps(k.Mem(), k.linearDir, k.zones, TableCount(k.upper), count, if dma then ZONE_DMA else ZONE_NORMAL)
    modifies k.ram, k`zones, k`roles
    ensures AllocatorOk(k) && |old(k.roles)| == 0x100000 && |old(k.zones)| == 3
    ensures ok ==>
              && count >= 1 && 1 <= g && g + count <= TableCount(k.upper) * 1024 && |k.roles| == 0x100000
              && Layout(Now(k), {}, {}) && HeapKept(old(Now(k)), Now(k))
              && k.roles[g + count - 1] == Reserved
              && (forall j: PageNo :: g <= j < g + count ==>
                    && Available(old(k.Mem()), k.linearDir, j) && old(k.roles[j]) == Free
                    && VirtualEntry(Now(k), j) == Entry(j, MAPPED) && (k.roles[j] == Reserved || k.roles[j].VirTab?))
    ensures !ok ==> (Now(k) == old(Now(k)) && Exhausted(k.Mem(), k.linearDir, k.zones, TableCount(k.upper), count,
                                                        if dma then ZONE_DMA else ZONE_NORMAL))
                    || forall h: PageNo :: h >= 1 ==> !Available(k.Mem(), k.linearDir, h)
    ensures !ok && !dma && count == 1 ==> forall h: PageNo :: h >= 1 ==> !Available(k.Mem(), k.linearDir, h)
    ensures ok ==> (dma ==> z == ZONE_DMA || z == ZONE_KERNEL) && z < 3 && old(k.zones)[z].next != 0
    ensures ok ==> forall j: PageNo :: g <= j < g + count ==> j in Order(old(k.zones)[z], TableCount(k.upper))
    ensures ok ==> forall i :: (if dma then ZONE_DMA else ZONE_NORMAL) <= i < z && old(k.zones)[i].next != 0 ==>
              NoRun(ZoneMarks(old(k.Mem()), k.linearDir, old(k.zones)[i], TableCount(k.upper)), count)
    ensures ok && count == 1 ==>
              var r := PickFrom(old(k.Mem()), k.linearDir, old(k.zones), TableCount(k.upper),
                                if dma then ZONE_DMA else ZONE_NORMAL);
              r.Picked? && r.frame == g
    ensures ok && count == 1 && dma ==>
              (g >= 0x1000 <==> DmaFindsAbove(old(k.Mem()), k.linearDir, old(k.zones), TableCount(k.upper)))
  {
    hide DmaFindsAbove, Available, Rooted, Layout, HeapKept, VirtualEntry, Lin, Cell, Dir, Entry, Exhausted, RunWraps,
         PickFrom, Claim, NoRun, ZoneMarks, Order, ZonesOk, LinearOk, TablesPresent;
    ghost var p := Now(k);
    LayoutRooted(p, {}, {});
    RootedLinear(p);
    LinearTables(p.mem, p.ld, p.T);
    ghost var zs := k.zones;
    ok, g, z := ClaimRun(k, count, if dma then ZONE_DMA else ZONE_NORMAL);
    if !ok && !dma && count == 1 {
      SingleFrameComplete(k.Mem(), k.linearDir, k.zones, k.upper);
    }
    if ok {
      if count == 1 && dma {
        DmaAboveIff(p.mem, p.ld, zs, p.T);
      }
      ghost var q := Now(k);
      RunRoles(p, g, count);
      ok := LinearPageMap(k, g, count);
      if ok {
        HeapKeptTransitive(p, q, Now(k));
      }
    }
  }

  /** After the search the last frame of the run is reserved and the others are free. */
  lemma RunRoles(p: Paging, g: PageNo, count: nat)
    requires Layout(p, {}, {}) && |p.roles| == 0x100000 && count >= 1 && 1 <= g && g + count <= p.T * 1024 <= 0x10000
    requires forall j: PageNo :: g <= j < g + count ==> Available(p.mem, p.ld, j)
    ensures var q := Claim(p, g + count - 1, Reserved);
            && Layout(q, {}, {}) && HeapKept(p, q) && |q.roles| == 0x100000 && q.roles[g + count - 1] == Reserved
            && forall j: PageNo :: g <= j < g + count ==>
                 p.roles[j] == Free && (j != g + count - 1 ==> q.roles[j] == Free)
  {
    hide Available, Rooted, Layout, HeapKept, VirtualEntry, Cell;
    ClaimKeepsLayout(p, g + count - 1, Reserved);
    LayoutRooted(p, {}, {});
    forall j: PageNo | g <= j < g + count
      ensures p.roles[j] == Free
    {
      AvailableFree(p, j);
    }
  }
}
