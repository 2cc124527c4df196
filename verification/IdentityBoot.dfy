/** kmemory_virtual_setup: every frame in use at boot is mapped to its own address. */
module IdentityBoot {
  import opened Machine
  import opened FrameAllocator
  import opened FrameSearch
  import opened PageTables
  import opened IdentityMap

  /** Frame g is marked as allocated in the linear table. */
  predicate Claimed(p: Paging, g: PageNo) {
    LinAllocated(Lin(p, g))
  }

  /** The linear entries of the claimed frames hold their own frame number, and no frame is used
      for a heap page yet. */
  ghost predicate BootOk(p: Paging) {
    && Layout(p, {}, {}) && |p.roles| == 0x100000
    && (forall g: PageNo {:trigger Claimed(p, g)} :: InTables(g, p.T) && Claimed(p, g) ==>
          Frame(Lin(p, g)) == g && p.roles[g] != Free)
    && (forall f: PageNo {:trigger p.roles[f]} :: !p.roles[f].Data?)
  }

  /** The claimed frames of p among those below `to` are mapped to themselves in q. */
  ghost predicate IdentityBelow(p: Paging, q: Paging, to: nat) {
    forall g: PageNo {:trigger Claimed(p, g)} :: InTables(g, p.T) && g < to && Claimed(p, g) ==>
      VirtualEntry(q, g) == Entry(g, MAPPED)
  }

  /** What every step of the loops keeps: the boot invariant, and the identity pages made so far. */
  ghost predicate Progress(p: Paging, q: Paging, to: nat)
    requires |p.roles| == 0x100000
  {
    BootOk(q) && HeapKept(p, q) && StillClaimed(p, q) && IdentityBelow(p, q, to)
  }

  /** The frames claimed in p are claimed in q. */
  ghost predicate StillClaimed(p: Paging, q: Paging) {
    forall g: PageNo {:trigger Claimed(p, g)} :: InTables(g, p.T) && Claimed(p, g) ==> Claimed(q, g)
  }

  lemma ClaimedEntry(g: PageNo)
    ensures LinAllocated(Entry(g, LINEAR_ALLOCATED))
  {
  }

  lemma GrownKeepsBoot(p: Paging, q: Paging)
    requires BootOk(p) && Layout(q, {}, {}) && |q.roles| == 0x100000
    requires HeapKept(p, q) && LinearGrown(p, q)
    requires forall f: PageNo {:trigger q.roles[f]} :: q.roles[f].Data? ==> p.roles[f].Data?
    ensures BootOk(q) && StillClaimed(p, q)
  {
    hide VirtualEntry, Cell, Lin, Layout, InTables, Entry, LinAllocated;
    forall g: PageNo | InTables(g, p.T)
      ensures Claimed(p, g) ==> Claimed(q, g)
      ensures Claimed(q, g) ==> Frame(Lin(q, g)) == g && q.roles[g] != Free
    {
      ClaimedEntry(g);
      assert Lin(q, g) == Lin(p, g) ==> Claimed(q, g) == Claimed(p, g);
      assert Lin(q, g) == Lin(p, g) || (Lin(q, g) == Entry(g, LINEAR_ALLOCATED) && q.roles[g] != Free);
      assert q.roles[g] == p.roles[g] || p.roles[g] == Free;
    }
  }

  lemma ProgressStep(p: Paging, q: Paging, r: Paging, to: nat)
    requires |p.roles| == |q.roles| == 0x100000 && Progress(p, q, to)
    requires BootOk(r) && HeapKept(q, r) && StillClaimed(q, r)
    ensures Progress(p, r, to)
  {
    hide VirtualEntry, Cell, Lin, Layout, InTables, LinAllocated, Claimed, BootOk;
    HeapKeptTransitive(p, q, r);
    forall g: PageNo | InTables(g, p.T) && Claimed(p, g)
      ensures Claimed(r, g)
    {
      assert Claimed(q, g);
    }
    forall g: PageNo | InTables(g, p.T) && g < to && Claimed(p, g)
      ensures VirtualEntry(r, g) == Entry(g, MAPPED)
    {
      MappedNonzero(g);
      assert VirtualEntry(r, g) == VirtualEntry(q, g);
    }
  }

  // -------------------------------------------- the tables created during boot

  /** One call of set_virtual_entry by the boot loops: the state before it, the page it maps, the frames it
      takes, and how far the loops have come. */
  datatype Call = Call(before: Paging, zones: seq<Zone>, page: PageNo, chain: seq<PageNo>, at: nat)

  /** The call leaves table f without its identity entry, and the loops have passed f. */
  ghost predicate Loses(c: Call, f: PageNo) {
    f < c.at && LeavesBare(c.before, c.page, c.chain, f)
  }

  ghost predicate Lost(calls: seq<Call>, f: PageNo) {
    exists i :: 0 <= i < |calls| && Loses(calls[i], f)
  }

  /** The calls lead from p to q, and each takes the frames told from the state before it. */
  ghost predicate Calls(p: Paging, calls: seq<Call>, q: Paging) {
    && (forall i :: 0 <= i < |calls| ==> TrueCall(calls[i], Before(calls, i + 1, q)))
    && p == Before(calls, 0, q)
  }

  /** The state before call i, or the last one. */
  ghost function Before(calls: seq<Call>, i: nat, q: Paging): Paging {
    if i < |calls| then calls[i].before else q
  }

  ghost predicate TrueCall(c: Call, after: Paging) {
    && |c.before.roles| == |after.roles| == 0x100000
    && Takes(c.before, c.zones, c.page, c.chain) && Charted(c.before, after, c.page, c.chain)
  }

  lemma CallsMore(p: Paging, calls: seq<Call>, q: Paging, c: Call, r: Paging)
    requires Calls(p, calls, q) && c.before == q && TrueCall(c, r)
    ensures Calls(p, calls + [c], r)
  {
    hide TrueCall;
    var more := calls + [c];
    forall i | 0 <= i < |more|
      ensures TrueCall(more[i], Before(more, i + 1, r))
    {
      if i < |calls| {
        assert TrueCall(calls[i], Before(calls, i + 1, q));
        assert Before(more, i + 1, r) == Before(calls, i + 1, q);
      }
    }
  }

  /** What is known of the tables created since p: all are claimed, and of those that the loops have passed
      exactly the lost ones have no identity entry. */
  ghost predicate TablesTold(p: Paging, q: Paging, calls: seq<Call>, to: nat)
    requires |p.roles| == |q.roles| == 0x100000
  {
    && (forall f: PageNo {:trigger NewTable(p, q, f)} :: NewTable(p, q, f) ==> Claimed(q, f))
    && (forall f: PageNo {:trigger Lost(calls, f)} :: NewTable(p, q, f) && f < to ==>
          VirtualEntry(q, f) == Entry(f, MAPPED) || Lost(calls, f))
    && (forall f: PageNo {:trigger Lost(calls, f)} :: Lost(calls, f) ==>
          q.roles[f].VirTab? && VirtualEntry(q, f) == 0 && f < to)
  }

  lemma LostMore(calls: seq<Call>, c: Call, f: PageNo)
    ensures Lost(calls + [c], f) <==> Lost(calls, f) || Loses(c, f)
  {
    hide Loses;
    var more := calls + [c];
    if Lost(calls, f) {
      var i :| 0 <= i < |calls| && Loses(calls[i], f);
      assert more[i] == calls[i];
    }
    assert more[|calls|] == c;
  }

  /** A call for a page that the loops have not passed, or that is no page table, keeps this. */
  lemma TablesStep(p: Paging, q: Paging, r: Paging, calls: seq<Call>, c: Call)
    requires |p.roles| == |q.roles| == |r.roles| == 0x100000 && TablesTold(p, q, calls, c.at)
    requires c.before == q && TrueCall(c, r) && HeapKept(q, r) && StillClaimed(q, r) && Rooted(q) && q.T == p.T
    requires q.roles[c.page] != Free && (c.page >= c.at || !q.roles[c.page].VirTab?)
    ensures TablesTold(p, r, calls + [c], c.at)
  {
    hide VirtualEntry, Cell, Lin, Available, Rooted, InTables, Entry, LinAllocated, Takes, LeavesBare, Lost,
         LastUncovered;
    forall f: PageNo | NewTable(p, r, f)
      ensures Claimed(r, f)
    {
      if q.roles[f] == Free {
        ClaimedEntry(f);
        assert f in c.chain;
      } else {
        TablesInRange(q, f);
        assert NewTable(p, q, f);
      }
    }
    forall f: PageNo
      ensures NewTable(p, r, f) && f < c.at ==> VirtualEntry(r, f) == Entry(f, MAPPED) || Lost(calls + [c], f)
      ensures Lost(calls + [c], f) ==> r.roles[f].VirTab? && VirtualEntry(r, f) == 0 && f < c.at
    {
      LostMore(calls, c, f);
      if LeavesBare(c.before, c.page, c.chain, f) {
        BareInChain(c.before, c.page, c.chain, f);
      }
      MappedNonzero(f);
      assert NewTable(q, r, f) <==> f in c.chain;
      assert q.roles[f] != Free && NewTable(p, r, f) ==> NewTable(p, q, f);
    }
  }

  lemma BareInChain(p: Paging, v: PageNo, chain: seq<PageNo>, f: PageNo)
    requires LeavesBare(p, v, chain, f)
    ensures f in chain && f != v
  {
  }

  /** One identity mapping of the boot loops. */
  method MapAtBoot(k: Kernel, g: PageNo, ghost p: Paging, ghost to: nat, ghost calls: seq<Call>)
    returns (ok: bool, ghost call: Call)
    requires AllocatorOk(k) && InTables(g, TableCount(k.upper))
    requires |p.roles| == |k.roles| == 0x100000 && Progress(p, Now(k), to) && k.roles[g] != Free
    requires Calls(p, calls, Now(k)) && TablesTold(p, Now(k), calls, to) && (g >= to || !k.roles[g].VirTab?)
    modifies k.ram, k`zones, k`roles
    ensures AllocatorOk(k)
    ensures ok ==> |k.roles| == 0x100000 && Progress(p, Now(k), to) && VirtualEntry(Now(k), g) == Entry(g, MAPPED)
    ensures ok ==> Calls(p, calls + [call], Now(k)) && TablesTold(p, Now(k), calls + [call], to)
    ensures !ok ==> forall h: PageNo :: h >= 1 ==> !Available(k.Mem(), k.linearDir, h)
  {
    hide VirtualEntry, Cell, Lin, Layout, InTables, Entry, LinAllocated, HeapKept, LinearGrown, StillClaimed,
         IdentityBelow, Available, Dir, TablesTold, Calls, Takes, Charted;
    ghost var q, zs := Now(k), k.zones;
    BootRooted(q);
    KeptTables(p, q, to);
    ghost var chain;
    ok, chain := MapIdentity(k, g);
    call := Call(q, zs, g, chain, to);
    if ok {
      GrownKeepsBoot(q, Now(k));
      ProgressStep(p, q, Now(k), to);
      CallsMore(p, calls, q, call, Now(k));
      TablesStep(p, q, Now(k), calls, call);
    }
  }

  lemma KeptTables(p: Paging, q: Paging, to: nat)
    requires |p.roles| == 0x100000 && Progress(p, q, to)
    ensures q.T == p.T
  {
  }

  lemma BootStart(p: Paging)
    requires BootOk(p)
    ensures |p.roles| == 0x100000 && Progress(p, p, 0) && Calls(p, [], p) && TablesTold(p, p, [], 0)
  {
    hide VirtualEntry, Cell, Layout;
    HeapKeptReflexive(p);
  }

  /** The linear directory never changes. */
  lemma DirectoryKept(p: Paging, q: Paging, s: Slot)
    requires |p.roles| == 0x100000 && Rooted(p) && HeapKept(p, q)
    ensures q.ld == p.ld && Cell(q.mem, q.ld, s) == Cell(p.mem, p.ld, s)
  {
    hide VirtualEntry, Available;
  }

  lemma LinearTableFrame(p: Paging, s: Slot)
    requires Rooted(p) && LinAllocated(Cell(p.mem, p.ld, s))
    ensures |p.roles| == 0x100000 && p.roles[Frame(Cell(p.mem, p.ld, s))] == LinTab(s)
    ensures s < p.T && InTables(Frame(Cell(p.mem, p.ld, s)), p.T)
  {
    hide Available, VirtualEntry, LinAllocated;
  }

  lemma BootRooted(p: Paging)
    requires BootOk(p)
    ensures Rooted(p) && |p.roles| == 0x100000
  {
    LayoutRooted(p, {}, {});
  }

  /** The entry the inner loop reads is the linear entry of the frame it stands for. */
  lemma EntryRead(p: Paging, q: Paging, s: Slot, t: Slot, to: nat)
    requires |p.roles| == |q.roles| == 0x100000 && Progress(p, q, to)
    requires LinAllocated(Cell(q.mem, q.ld, s)) && s < q.T && q.T == p.T
    ensures var w := Cell(q.mem, Frame(Cell(q.mem, q.ld, s)), t);
            var g := PageAt(s, t);
            && InTables(g, p.T)
            && (LinAllocated(w) ==> Frame(w) == g && q.roles[g] != Free)
            && (!LinAllocated(w) ==> !Claimed(p, g) && !Claimed(q, g))
  {
    hide VirtualEntry, Cell, Layout, HeapKept, LinAllocated;
    var g := PageAt(s, t);
    assert InTables(g, p.T);
    assert Lin(q, g) == Cell(q.mem, Frame(Cell(q.mem, q.ld, s)), t);
    assert Claimed(q, g) == LinAllocated(Lin(q, g));
    assert Claimed(p, g) ==> Claimed(q, g);
  }

  lemma ExtendProgress(p: Paging, q: Paging, g: PageNo)
    requires |p.roles| == 0x100000 && Progress(p, q, g)
    requires Claimed(p, g) ==> VirtualEntry(q, g) == Entry(g, MAPPED)
    ensures Progress(p, q, g as nat + 1)
  {
    hide VirtualEntry, Cell, Lin, Layout, InTables, Entry, LinAllocated, HeapKept, BootOk, StillClaimed;
    forall h: PageNo | InTables(h, p.T) && h <= g && Claimed(p, h)
      ensures VirtualEntry(q, h) == Entry(h, MAPPED)
    {
    }
  }

  /** The loops pass frame g. */
  lemma TablesPass(p: Paging, q: Paging, calls: seq<Call>, g: PageNo)
    requires |p.roles| == |q.roles| == 0x100000 && TablesTold(p, q, calls, g)
    requires Claimed(q, g) ==> VirtualEntry(q, g) == Entry(g, MAPPED)
    ensures TablesTold(p, q, calls, g as nat + 1)
  {
    hide VirtualEntry, Lin, Entry, LinAllocated, Lost;
  }

  /** They pass frames beyond the last table. */
  lemma TablesSkip(p: Paging, q: Paging, calls: seq<Call>, s: Slot)
    requires |p.roles| == |q.roles| == 0x100000 && TablesTold(p, q, calls, s * 1024) && Rooted(q) && s >= q.T
    ensures TablesTold(p, q, calls, s * 1024 + 1024)
  {
    hide VirtualEntry, Lin, Entry, LinAllocated, Lost, Rooted;
    forall f: PageNo | NewTable(p, q, f)
      ensures f < s * 1024
    {
      TablesInRange(q, f);
    }
  }

  lemma SkipTable(p: Paging, q: Paging, s: Slot)
    requires |p.roles| == 0x100000 && Progress(p, q, s * 1024) && s >= p.T
    ensures Progress(p, q, s * 1024 + 1024)
  {
    hide VirtualEntry, Cell, Lin, Layout, Entry, LinAllocated, HeapKept, BootOk, StillClaimed;
    forall h: PageNo | InTables(h, p.T) && h < s * 1024 + 1024 && Claimed(p, h)
      ensures VirtualEntry(q, h) == Entry(h, MAPPED)
    {
    }
  }

  /** A table the linear directory does not have lies beyond the last one. */
  lemma AbsentLinearTable(p: Paging, s: Slot)
    requires Rooted(p) && !LinAllocated(Cell(p.mem, p.ld, s))
    ensures s >= p.T
  {
    hide Available, VirtualEntry, LinAllocated;
  }

  lemma ProgressBoot(p: Paging, q: Paging, to: nat)
    requires |p.roles| == 0x100000 && Progress(p, q, to)
    ensures BootOk(q) && HeapKept(p, q) && q.T == p.T && |q.roles| == 0x100000
  {
  }

  /** kmemory_virtual_setup. The tables the loops read change under them, because mapping a page may
      create a table; still, every frame claimed at entry is mapped to itself at exit. A table that is
      created meanwhile is mapped to itself at exit exactly if no call left it without its identity entry
      when the loops had passed it. */
  method VirtualSetup(k: Kernel) returns (ok: bool, ghost calls: seq<Call>)
    requires AllocatorOk(k) && BootOk(Now(k))
    modifies k.ram, k`zones, k`roles
    ensures AllocatorOk(k)
    ensures ok ==>
              && BootOk(Now(k)) && |old(k.roles)| == |k.roles| == 0x100000
              && HeapKept(old(Now(k)), Now(k))
              && (forall g: PageNo :: InTables(g, TableCount(k.upper)) && Claimed(old(Now(k)), g) ==>
                    VirtualEntry(Now(k), g) == Entry(g, MAPPED))
    ensures ok ==>
              && Calls(old(Now(k)), calls, Now(k))
              && forall f: PageNo :: NewTable(old(Now(k)), Now(k), f) ==>
                   (VirtualEntry(Now(k), f) == Entry(f, MAPPED) <==> !Lost(calls, f))
    ensures !ok ==> forall h: PageNo :: h >= 1 ==> !Available(k.Mem(), k.linearDir, h)
  {
    hide VirtualEntry, Cell, Lin, Layout, InTables, Entry, LinAllocated, HeapKept, Available, BootOk, Dir, Tab,
         LinearEntry, StillClaimed, IdentityBelow, Rooted, Claimed, Progress, TablesTold, Calls;
    ghost var p := Now(k);
    BootStart(p);
    BootRooted(p);
    var i1 := 0;
    ok, calls := true, [];
    while i1 < 1024
      invariant 0 <= i1 <= 1024 && ok && AllocatorOk(k) && |k.roles| == 0x100000
      invariant Progress(p, Now(k), i1 * 1024)
      invariant Calls(p, calls, Now(k)) && TablesTold(p, Now(k), calls, i1 * 1024)
    {
      ProgressBoot(p, Now(k), i1 * 1024);
      BootRooted(Now(k));
      DirectoryKept(p, Now(k), i1);
      var tableWord := k.Load(k.linearDir, i1);
      if LinAllocated(tableWord) {
        ok, calls := MapTable(k, i1, Frame(tableWord), p, calls);
        if !ok {
          return;
        }
      } else {
        AbsentLinearTable(Now(k), i1);
        SkipTable(p, Now(k), i1);
        TablesSkip(p, Now(k), calls, i1);
      }
      i1 := i1 + 1;
    }
    ProgressEnd(p, Now(k));
    TablesEnd(p, Now(k), calls);
  }

  /** One linear table: its own frame, then the frames it has as allocated. */
  method MapTable(k: Kernel, i1: Slot, pt: PageNo, ghost p: Paging, ghost calls0: seq<Call>)
    returns (ok: bool, ghost calls: seq<Call>)
    requires AllocatorOk(k) && |p.roles| == |k.roles| == 0x100000 && Progress(p, Now(k), i1 * 1024)
    requires Calls(p, calls0, Now(k)) && TablesTold(p, Now(k), calls0, i1 * 1024)
    requires Rooted(p) && LinAllocated(Cell(k.Mem(), k.linearDir, i1)) && pt == Frame(Cell(k.Mem(), k.linearDir, i1))
    modifies k.ram, k`zones, k`roles
    ensures AllocatorOk(k)
    ensures ok ==> |k.roles| == 0x100000 && Progress(p, Now(k), i1 * 1024 + 1024)
    ensures ok ==> Calls(p, calls, Now(k)) && TablesTold(p, Now(k), calls, i1 * 1024 + 1024)
    ensures !ok ==> forall h: PageNo :: h >= 1 ==> !Available(k.Mem(), k.linearDir, h)
  {
    hide VirtualEntry, Cell, Lin, Layout, InTables, Entry, LinAllocated, HeapKept, Available, BootOk, Dir, Tab,
         LinearEntry, StillClaimed, IdentityBelow, Rooted, Claimed, Progress, TablesTold, Calls;
    calls := calls0;
    ProgressBoot(p, Now(k), i1 * 1024);
    BootRooted(Now(k));
    DirectoryKept(p, Now(k), i1);
    LinearTableFrame(Now(k), i1);
    ghost var call;
    ok, call := MapAtBoot(k, pt, p, i1 * 1024, calls);
    if !ok {
      return;
    }
    calls := calls + [call];
    var i2 := 0;
    while i2 < 1024
      invariant 0 <= i2 <= 1024 && ok && AllocatorOk(k) && |k.roles| == 0x100000
      invariant Progress(p, Now(k), i1 * 1024 + i2)
      invariant Calls(p, calls, Now(k)) && TablesTold(p, Now(k), calls, i1 * 1024 + i2)
    {
      ProgressBoot(p, Now(k), i1 * 1024 + i2);
      DirectoryKept(p, Now(k), i1);
      TableInReach(p, i1);
      EntryRead(p, Now(k), i1, i2, i1 * 1024 + i2);
      var addr := k.Load(pt, i2);
      if LinAllocated(addr) {
        ok, call := MapAtBoot(k, Frame(addr), p, i1 * 1024 + i2, calls);
        if !ok {
          return;
        }
        calls := calls + [call];
      }
      ExtendProgress(p, Now(k), PageAt(i1, i2));
      TablesPass(p, Now(k), calls, PageAt(i1, i2));
      i2 := i2 + 1;
    }
  }

  lemma TableInReach(p: Paging, s: Slot)
    requires Rooted(p) && LinAllocated(Cell(p.mem, p.ld, s))
    ensures s < p.T
  {
    hide Available, VirtualEntry, LinAllocated;
  }

  lemma TablesEnd(p: Paging, q: Paging, calls: seq<Call>)
    requires |p.roles| == |q.roles| == 0x100000 && TablesTold(p, q, calls, 0x100000)
    ensures forall f: PageNo :: NewTable(p, q, f) ==> (VirtualEntry(q, f) == Entry(f, MAPPED) <==> !Lost(calls, f))
  {
    hide VirtualEntry, Lin, LinAllocated, Lost;
    forall f: PageNo | NewTable(p, q, f)
      ensures VirtualEntry(q, f) == Entry(f, MAPPED) <==> !Lost(calls, f)
    {
      MappedNonzero(f);
    }
  }

  lemma ProgressEnd(p: Paging, q: Paging)
    requires |p.roles| == 0x100000 && Progress(p, q, 0x100000)
    ensures BootOk(q) && HeapKept(p, q)
    ensures forall g: PageNo :: InTables(g, p.T) && Claimed(p, g) ==> VirtualEntry(q, g) == Entry(g, MAPPED)
  {
    hide VirtualEntry, Cell, Layout, Entry, LinAllocated, HeapKept, BootOk, StillClaimed, InTables, Lin;
    forall g: PageNo | InTables(g, p.T) && Claimed(p, g)
      ensures VirtualEntry(q, g) == Entry(g, MAPPED)
    {
    }
  }
}
