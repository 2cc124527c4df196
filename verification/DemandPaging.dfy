/** Demand paging: the page-fault handler, and the refinement of the kernel's memory to FlatMemory. */
module DemandPaging {
  import opened Machine
  import opened FrameAllocator
  import opened FrameSearch
  import opened PageTables
  import opened IdentityMap
  import opened HeapPaging
  import opened VirtualHeap
  import opened FlatMemory

  // ------------------------------------------------------------ abstraction

  ghost function StateOf(p: Paging, v: PageNo): PageState {
    var w := VirtualEntry(p, v);
    if Present(w) then Held(Contents(p.mem, Frame(w))) else Fresh(ZeroFill(w))
  }

  /** The live pages of the heap and what a client knows about them. */
  ghost function Pages(p: Paging): map<PageNo, PageState> {
    map v: PageNo | HEAP <= v < 0x100000 && VirtualEntry(p, v) != 0 :: StateOf(p, v)
  }

  ghost function Blocks(used: seq<Span>): set<(nat, nat)> {
    set i | 0 <= i < |used| :: (used[i].page, used[i].length)
  }

  /** The client's view of the kernel state. */
  ghost function Abs(k: Kernel): Flat
    requires k.ram.Length == RAM_WORDS && ListsOk(k)
    reads k, k.ram
  {
    Flat(Pages(Now(k)), Blocks(UsedSpans(k)))
  }

  // --------------------------------------------------- pages that are not touched

  /** A page whose entry has not changed and whose frame has not been written looks the same. */
  lemma StateKept(p: Paging, q: Paging, v: PageNo)
    requires |p.roles| == 0x100000 && GoodEntry(p, v) && v >= HEAP
    requires VirtualEntry(q, v) == VirtualEntry(p, v)
    requires forall f: PageNo, i: Slot {:trigger Cell(q.mem, f, i)} ::
               p.roles[f] == Data(v) ==> Cell(q.mem, f, i) == Cell(p.mem, f, i)
    ensures StateOf(q, v) == StateOf(p, v)
  {
    hide VirtualEntry, Cell, Lin, InTables;
    var w := VirtualEntry(p, v);
    if Present(w) {
      assert p.roles[Frame(w)] == Data(v);
      assert Contents(q.mem, Frame(w)) == Contents(p.mem, Frame(w));
    }
  }

  lemma StepKeepsPage(p: Paging, q: Paging, lo: nat, hi: nat, v: PageNo)
    requires Layout(p, {}, {}) && |p.roles| == 0x100000 && HeapStep(p, q, lo, hi)
    requires v >= HEAP && !(lo <= v < hi)
    ensures v in Pages(q) <==> v in Pages(p)
    ensures v in Pages(p) ==> Pages(q)[v] == Pages(p)[v]
  {
    hide VirtualEntry, Cell, Lin, InTables, GoodEntry, Layout, StateOf;
    LayoutEntry(p, {}, {}, v);
    StateKept(p, q, v);
  }

  // ------------------------------------------------------------- allocation

  lemma FilledPages(p: Paging, page: nat, count: nat, zero: bool, v: PageNo)
    requires Filled(p, page, page + count, if zero then ASSIGNED_ZERO else ASSIGNED) && HEAP <= page
    requires Within(v, page, count)
    ensures v in Pages(p) && Pages(p)[v] == Fresh(zero)
  {
    hide VirtualEntry, Cell, Dir, Present, ZeroFill;
    AssignedWord(zero);
    assert VirtualEntry(p, v) == if zero then ASSIGNED_ZERO else ASSIGNED;
  }

  lemma AssignedWord(zero: bool)
    ensures var w := if zero then ASSIGNED_ZERO else ASSIGNED; w != 0 && !Present(w) && ZeroFill(w) == zero
  {
  }

  /** The pages an allocation takes belong to no other allocation. */
  lemma TakenUnused(free: seq<Span>, used: seq<Span>, next: nat, count: nat, i: nat, page: nat, v: nat)
    requires Shape(free, used, next) && FirstFit(free, count, i)
    requires page == if i < |free| then free[i].page else next
    requires Within(v, page, count)
    ensures !InUse(used, v)
  {
    forall j | 0 <= j < |used|
      ensures !(used[j].page <= v < used[j].page + used[j].length)
    {
      UsedSpanInHeap(free, used, next, j);
      if i < |free| {
        assert Apart((free + used)[i], (free + used)[|free| + j]);
      }
    }
  }

  lemma BlocksPush(used: seq<Span>, x: Span)
    ensures Blocks([x] + used) == Blocks(used) + {(x.page, x.length)}
  {
    var s := [x] + used;
    forall b | b in Blocks(used)
      ensures b in Blocks(s)
    {
      var i :| 0 <= i < |used| && b == (used[i].page, used[i].length);
      assert s[i + 1] == used[i];
    }
    assert s[0] == x;
  }

  lemma BlockInUse(free: seq<Span>, used: seq<Span>, next: nat, page: nat, length: nat)
    requires Shape(free, used, next) && (page, length) in Blocks(used)
    ensures InUse(used, page)
  {
    var i :| 0 <= i < |used| && (page, length) == (used[i].page, used[i].length);
    UsedSpanInHeap(free, used, next, i);
  }

  lemma EntryInUse(p: Paging, used: seq<Span>, v: PageNo)
    requires EntriesAgree(p, used) && v >= HEAP
    ensures v in Pages(p) <==> InUse(used, v)
  {
    hide VirtualEntry, StateOf;
    assert VirtualEntry(p, v) != 0 <==> InUse(used, v);
  }

  lemma LowPagesNotLive(p: Paging, v: PageNo)
    requires v < HEAP
    ensures v !in Pages(p)
  {
  }

  lemma AllocationStep(p: Paging, q: Paging, free: seq<Span>, used: seq<Span>, next: nat, count: nat, i: nat,
                       free': seq<Span>, used': seq<Span>, next': nat, page: nat, zero: bool)
    requires Layout(p, {}, {}) && |p.roles| == 0x100000 && 1 <= count
    requires Shape(free, used, next) && EntriesAgree(p, used)
    requires TakesRange(free, used, next, count, i, free', used', next', page)
    requires HEAP <= page && page + count <= 0x100000
    requires HeapStep(p, q, page, page + count)
    requires Filled(q, page, page + count, if zero then ASSIGNED_ZERO else ASSIGNED)
    ensures Step(Flat(Pages(p), Blocks(used)), Allocated(page, count, zero), Flat(Pages(q), Blocks(used')))
  {
    hide VirtualEntry, Cell, Layout, Shape, EntriesAgree, HeapStep, Filled, Pages, InUse, Blocks;
    forall v: PageNo | Within(v, page, count)
      ensures v !in Pages(p) && v in Pages(q) && Pages(q)[v] == Fresh(zero)
    {
      TakenUnused(free, used, next, count, i, page, v);
      EntryInUse(p, used, v);
      FilledPages(q, page, count, zero, v);
    }
    forall v: PageNo | !Within(v, page, count)
      ensures v in Pages(q) <==> v in Pages(p)
      ensures v in Pages(p) ==> Pages(q)[v] == Pages(p)[v]
    {
      if v < HEAP {
        LowPagesNotLive(p, v);
        LowPagesNotLive(q, v);
      } else {
        StepKeepsPage(p, q, page, page + count, v);
      }
    }
    BlocksPush(used, used'[0]);
    if (page, count) in Blocks(used) {
      BlockInUse(free, used, next, page, count);
      TakenUnused(free, used, next, count, i, page, page);
    }
  }

  // ---------------------------------------------------------------- release

  lemma EmptiedPages(p: Paging, from: nat, to: nat, v: PageNo)
    requires Filled(p, from, to, 0) && from <= v < to
    ensures v !in Pages(p)
  {
    hide VirtualEntry, Cell, Dir, StateOf;
    assert VirtualEntry(p, v) == 0;
  }

  /** Of the pages of a used range, those beyond its length are not in use. */
  lemma BeyondLength(free: seq<Span>, used: seq<Span>, next: nat, i: nat, v: nat)
    requires Shape(free, used, next) && i < |used|
    requires used[i].page <= v < used[i].page + used[i].count
    ensures InUse(used, v) <==> v < used[i].page + used[i].length
  {
    UsedSpanInHeap(free, used, next, i);
    forall j | 0 <= j < |used| && j != i
      ensures !(used[j].page <= v < used[j].page + used[j].length)
    {
      UsedSpanInHeap(free, used, next, j);
      assert Apart((free + used)[|free| + i], (free + used)[|free| + j]);
    }
  }

  lemma BlocksWithout(free: seq<Span>, used: seq<Span>, next: nat, i: nat)
    requires Shape(free, used, next) && i < |used|
    ensures (used[i].page, used[i].length) in Blocks(used)
    ensures Blocks(Without(used, i)) == Blocks(used) - {(used[i].page, used[i].length)}
  {
    var w := Without(used, i);
    forall b | b in Blocks(w)
      ensures b in Blocks(used) && b != (used[i].page, used[i].length)
    {
      var j :| 0 <= j < |w| && b == (w[j].page, w[j].length);
      var k := if j < i then j else j + 1;
      assert w[j] == used[k];
      assert Apart((free + used)[|free| + i], (free + used)[|free| + k]);
      UsedSpanInHeap(free, used, next, i);
      UsedSpanInHeap(free, used, next, k);
    }
    forall b | b in Blocks(used) && b != (used[i].page, used[i].length)
      ensures b in Blocks(w)
    {
      var k :| 0 <= k < |used| && b == (used[k].page, used[k].length);
      assert w[if k < i then k else k - 1] == used[k];
    }
  }

  lemma ReleaseStep(p: Paging, q: Paging, free: seq<Span>, used: seq<Span>, next: nat, i: nat)
    requires Layout(p, {}, {}) && |p.roles| == 0x100000
    requires Shape(free, used, next) && EntriesAgree(p, used) && i < |used|
    requires HeapStep(p, q, used[i].page, used[i].page + used[i].count)
    requires Filled(q, used[i].page, used[i].page + used[i].count, 0)
    ensures Step(Flat(Pages(p), Blocks(used)), Freed(used[i].page, used[i].length),
                 Flat(Pages(q), Blocks(Without(used, i))))
  {
    hide VirtualEntry, Cell, Layout, Shape, EntriesAgree, HeapStep, Filled, Pages, InUse, Blocks, Without;
    var x := used[i];
    UsedSpanInHeap(free, used, next, i);
    BlocksWithout(free, used, next, i);
    forall v: PageNo | x.page <= v < x.page + x.count
      ensures v !in Pages(q) && (v in Pages(p) <==> Within(v, x.page, x.length))
    {
      EmptiedPages(q, x.page, x.page + x.count, v);
      BeyondLength(free, used, next, i, v);
      EntryInUse(p, used, v);
    }
    forall v: PageNo | !(x.page <= v < x.page + x.count)
      ensures v in Pages(q) <==> v in Pages(p)
      ensures v in Pages(p) ==> Pages(q)[v] == Pages(p)[v]
    {
      if v < HEAP {
        LowPagesNotLive(p, v);
        LowPagesNotLive(q, v);
      } else {
        StepKeepsPage(p, q, x.page, x.page + x.count, v);
      }
    }
  }

  // -------------------------------------------------------------- page faults

  /** The state after a fault at v has been served with frame l, before l is cleared. */
  function Serve(p: Paging, v: PageNo, l: PageNo): Paging
    requires |p.roles| == 0x100000
  {
    WriteLinear(WriteEntry(Claim(p, l, Data(v)), v, Entry(l, MAPPED)), l, Entry(v, LINEAR_ALLOCATED))
  }

  /** The linear entry of the frame that holds page v has been written: the page is complete. */
  lemma EnterDataKeepsLayout(p: Paging, v: PageNo, l: PageNo)
    requires Layout(p, {}, {v}) && |p.roles| == 0x100000 && v >= HEAP
    requires VirtualEntry(p, v) == Entry(l, MAPPED) && p.roles[l] == Data(v) && 1 <= l && InTables(l, p.T)
    ensures Layout(WriteLinear(p, l, Entry(v, LINEAR_ALLOCATED)), {}, {})
  {
    hide VirtualEntry, Cell, Lin, Rooted, Layout, GoodEntry, InTables, Dir, Entry, LinAvailable;
    LayoutRooted(p, {}, {v});
    NotAvailableFlags(v);
    WriteLinearEffect(p, l, Entry(v, LINEAR_ALLOCATED));
    var q := WriteLinear(p, l, Entry(v, LINEAR_ALLOCATED));
    forall u: PageNo | Dir(u) !in {}
      ensures GoodEntry(q, u)
    {
      if u == v {
        GoodData(q, v, l);
      } else {
        LayoutEntry(p, {}, {v}, u);
        GoodBesidesData(p, q, u, v, l);
      }
    }
    LayoutFromEntries(q, {});
  }

  lemma GoodData(p: Paging, v: PageNo, l: PageNo)
    requires |p.roles| == 0x100000 && v >= HEAP && VirtualEntry(p, v) == Entry(l, MAPPED)
    requires 1 <= l && InTables(l, p.T) && Lin(p, l) == Entry(v, LINEAR_ALLOCATED) && p.roles[l] == Data(v)
    ensures GoodEntry(p, v)
  {
  }

  lemma GoodBesidesData(p: Paging, q: Paging, u: PageNo, v: PageNo, l: PageNo)
    requires |p.roles| == 0x100000 && q.T == p.T && q.roles == p.roles && u != v && p.roles[l] == Data(v)
    requires GoodEntry(p, u) && VirtualEntry(q, u) == VirtualEntry(p, u)
    requires forall h: PageNo {:trigger Lin(q, h)} :: InTables(h, p.T) && h != l ==> Lin(q, h) == Lin(p, h)
    ensures GoodEntry(q, u)
  {
    hide VirtualEntry, Lin, InTables, Entry, Frame;
  }

  lemma ServeEffect(p: Paging, v: PageNo, l: PageNo)
    requires Layout(p, {}, {}) && |p.roles| == 0x100000 && v >= HEAP && Cell(p.mem, p.vd, Dir(v)) != 0
    requires 1 <= l && InTables(l, p.T) && Available(p.mem, p.ld, l)
    ensures p.roles[l] == Free
    ensures var q := Serve(p, v, l);
            && Layout(q, {}, {}) && q == p.(mem := q.mem, roles := p.roles[l := Data(v)])
            && HeapStep(p, q, v, v as nat + 1)
            && VirtualEntry(q, v) == Entry(l, MAPPED)
            && (forall i: Slot {:trigger Cell(q.mem, l, i)} :: Cell(q.mem, l, i) == Cell(p.mem, l, i))
  {
    hide VirtualEntry, Cell, Lin, Rooted, Layout, GoodEntry, InTables, Dir, Entry, Available;
    LayoutRooted(p, {}, {});
    AvailableFree(p, l);
    ClaimKeepsLayout(p, l, Data(v));
    var a := Claim(p, l, Data(v));
    LayoutRooted(a, {}, {});
    assert Cell(a.mem, a.vd, Dir(v)) != 0;
    InstallKeepsLayout(a, v, Entry(l, MAPPED), {});
    WriteEntryEffect(a, v, Entry(l, MAPPED));
    var b := WriteEntry(a, v, Entry(l, MAPPED));
    LayoutRooted(b, {}, {v});
    EnterDataKeepsLayout(b, v, l);
    WriteLinearEffect(b, l, Entry(v, LINEAR_ALLOCATED));
    WriteLinearEffect(p, l, LINEAR_ALLOCATED);
    NotAvailableFlags(v);
    NoneOfferedByLinear(a, WriteLinear(b, l, Entry(v, LINEAR_ALLOCATED)));
    ServeIsStep(p, a, b, WriteLinear(b, l, Entry(v, LINEAR_ALLOCATED)), v, l);
  }

  lemma ServeIsStep(p: Paging, a: Paging, b: Paging, q: Paging, v: PageNo, l: PageNo)
    requires |p.roles| == |a.roles| == 0x100000 && HeapKept(p, a) && NoneOffered(a, q)
    requires b == a.(mem := b.mem) && q == b.(mem := q.mem)
    requires forall t: Slot {:trigger Cell(q.mem, q.vd, t)} :: Cell(q.mem, q.vd, t) == Cell(a.mem, a.vd, t)
    requires forall u: PageNo {:trigger VirtualEntry(q, u)} :: u != v ==> VirtualEntry(q, u) == VirtualEntry(a, u)
    requires forall f: PageNo, i: Slot {:trigger Cell(q.mem, f, i)} ::
               !a.roles[f].VirTab? && !a.roles[f].LinTab? ==> Cell(q.mem, f, i) == Cell(a.mem, f, i)
    ensures HeapStep(p, q, v, v as nat + 1)
  {
    NoneOfferedTransitive(p, a, q);
    hide VirtualEntry, Cell, Available;
    forall s: Slot | Cell(p.mem, p.vd, s) != 0
      ensures Cell(q.mem, q.vd, s) == Cell(p.mem, p.vd, s)
    {
      assert Cell(a.mem, a.vd, s) == Cell(p.mem, p.vd, s);
    }
    forall u: PageNo | (u >= HEAP || VirtualEntry(p, u) != 0) && u != v
      ensures VirtualEntry(q, u) == VirtualEntry(p, u) || (u < HEAP && VirtualEntry(q, u) == Entry(u, MAPPED))
    {
      assert VirtualEntry(q, u) == VirtualEntry(a, u);
    }
    forall f: PageNo, i: Slot | p.roles[f].Data? || p.roles[f].Reserved?
      ensures Cell(q.mem, f, i) == Cell(p.mem, f, i)
    {
      assert a.roles[f] == p.roles[f];
      assert Cell(a.mem, f, i) == Cell(p.mem, f, i);
    }
  }

  /** Stores into the frame of a heap page change no entry. */
  lemma DataWriteKeepsLayout(p: Paging, q: Paging, v: PageNo, l: PageNo)
    requires Layout(p, {}, {}) && |p.roles| == 0x100000 && p.roles[l] == Data(v) && q == p.(mem := q.mem)
    requires forall f: PageNo, i: Slot {:trigger Cell(q.mem, f, i)} :: f != l ==> Cell(q.mem, f, i) == Cell(p.mem, f, i)
    ensures Layout(q, {}, {}) && NoneOffered(p, q)
    ensures forall u: PageNo {:trigger VirtualEntry(q, u)} :: VirtualEntry(q, u) == VirtualEntry(p, u)
    ensures forall t: Slot {:trigger Cell(q.mem, q.vd, t)} :: Cell(q.mem, q.vd, t) == Cell(p.mem, p.vd, t)
  {
    hide VirtualEntry, Cell, Lin, Rooted, Layout, GoodEntry, InTables, Dir;
    LayoutRooted(p, {}, {});
    DataStoreEffect(p, q);
    NoneOfferedByLinear(p, q);
    forall u: PageNo | Dir(u) !in {}
      ensures GoodEntry(q, u)
    {
      LayoutEntry(p, {}, {}, u);
      GoodEntryKept(p, q, u, {});
    }
    LayoutFromEntries(q, {});
  }

  /** Clearing the frame that has just been put in place. */
  lemma ClearServed(p: Paging, q: Paging, v: PageNo, l: PageNo)
    requires |p.roles| == |q.roles| == 0x100000 && Layout(q, {}, {})
    requires HeapStep(p, q, v, v as nat + 1) && p.roles[l] == Free && q.roles[l] == Data(v)
    ensures var r := q.(mem := Clear(q.mem, l));
            && Layout(r, {}, {}) && HeapStep(p, r, v, v as nat + 1)
            && VirtualEntry(r, v) == VirtualEntry(q, v)
  {
    hide VirtualEntry, Cell, Layout, Available;
    var r := q.(mem := Clear(q.mem, l));
    DataWriteKeepsLayout(q, r, v, l);
    NoneOfferedTransitive(p, q, r);
    forall s: Slot | Cell(p.mem, p.vd, s) != 0
      ensures Cell(r.mem, r.vd, s) == Cell(p.mem, p.vd, s)
    {
      assert Cell(q.mem, q.vd, s) == Cell(p.mem, p.vd, s);
    }
    forall u: PageNo | (u >= HEAP || VirtualEntry(p, u) != 0) && u != v
      ensures VirtualEntry(r, u) == VirtualEntry(p, u) || (u < HEAP && VirtualEntry(r, u) == Entry(u, MAPPED))
    {
      assert VirtualEntry(r, u) == VirtualEntry(q, u);
    }
    forall f: PageNo, i: Slot | p.roles[f].Data? || p.roles[f].Reserved?
      ensures Cell(r.mem, f, i) == Cell(p.mem, f, i)
    {
      assert Cell(q.mem, f, i) == Cell(p.mem, f, i);
    }
  }

  /** A step on page v alone that keeps it live keeps the agreement with the lists. */
  lemma FaultAgrees(p: Paging, q: Paging, free: seq<Span>, used: seq<Span>, v: PageNo)
    requires |p.roles| == 0x100000 && HeapStep(p, q, v, v as nat + 1) && v >= HEAP
    requires EntriesAgree(p, used) && TablesExist(p, free + used)
    requires VirtualEntry(p, v) != 0 && VirtualEntry(q, v) != 0
    ensures EntriesAgree(q, used) && TablesExist(q, free + used)
  {
    hide VirtualEntry, Cell, HasTables, Dir;
    forall u: PageNo | u >= HEAP
      ensures VirtualEntry(q, u) != 0 <==> InUse(used, u)
    {
      assert VirtualEntry(p, u) != 0 <==> InUse(used, u);
    }
    forall i | 0 <= i < |free + used|
      ensures HasTables(q, (free + used)[i].page, (free + used)[i].page + (free + used)[i].count)
    {
      StepKeepsTables(p, q, (free + used)[i].page, (free + used)[i].page + (free + used)[i].count, v, v as nat + 1);
    }
  }

  /** Seen by a client, a served fault turns a fresh page into a held one. */
  lemma FaultPages(p: Paging, q: Paging, v: PageNo, l: PageNo)
    requires Layout(p, {}, {}) && |p.roles| == 0x100000 && HeapStep(p, q, v, v as nat + 1) && v >= HEAP
    requires VirtualEntry(p, v) != 0 && VirtualEntry(q, v) == Entry(l, MAPPED)
    ensures v in Pages(p)
    ensures Pages(q) == Pages(p)[v := Held(Contents(q.mem, l))]
  {
    hide VirtualEntry, Cell, HeapStep, Layout;
    forall u: PageNo | u != v
      ensures u in Pages(q) <==> u in Pages(p)
      ensures u in Pages(p) ==> Pages(q)[u] == Pages(p)[u]
    {
      if u >= HEAP {
        StepKeepsPage(p, q, v, v as nat + 1, u);
      }
    }
    assert v in Pages(q) && Pages(q)[v] == Held(Contents(q.mem, l));
  }

  /** A store through a mapped page changes one word of that page and no other page. */
  lemma StorePages(p: Paging, v: PageNo, i: Slot, w: Word)
    requires Layout(p, {}, {}) && |p.roles| == 0x100000 && v >= HEAP && Present(VirtualEntry(p, v))
    ensures var l := Frame(VirtualEntry(p, v));
            var q := p.(mem := Poke(p.mem, l, i, w));
            && Layout(q, {}, {})
            && (forall u: PageNo {:trigger VirtualEntry(q, u)} :: VirtualEntry(q, u) == VirtualEntry(p, u))
            && (forall t: Slot {:trigger Cell(q.mem, q.vd, t)} :: Cell(q.mem, q.vd, t) == Cell(p.mem, p.vd, t))
            && v in Pages(p) && NoneOffered(p, q)
            && Pages(q) == Pages(p)[v := Held(Contents(p.mem, l)[i := w])]
  {
    hide VirtualEntry, Cell, Layout, GoodEntry;
    var l := Frame(VirtualEntry(p, v));
    var q := p.(mem := Poke(p.mem, l, i, w));
    MappedFrame(p, v);
    DataWriteKeepsLayout(p, q, v, l);
    forall u: PageNo | u != v && u >= HEAP
      ensures StateOf(q, u) == StateOf(p, u)
    {
      LayoutEntry(p, {}, {}, u);
      StateKept(p, q, u);
    }
    assert Contents(q.mem, l) == Contents(p.mem, l)[i := w];
  }

  lemma MappedFrame(p: Paging, v: PageNo)
    requires Layout(p, {}, {}) && v >= HEAP && Present(VirtualEntry(p, v))
    ensures |p.roles| == 0x100000
    ensures var l := Frame(VirtualEntry(p, v));
            p.roles[l] == Data(v) && VirtualEntry(p, v) == Entry(l, MAPPED) && VirtualEntry(p, v) != 0
  {
    hide VirtualEntry, Lin, InTables, Rooted, Layout, Entry, Frame, Present;
    LayoutEntry(p, {}, {}, v);
    UnmappedAbsent(VirtualEntry(p, v));
  }

  lemma UnmappedAbsent(w: Word)
    ensures Unmapped(w) ==> !Present(w)
  {
  }

  // --------------------------------------------------------------- operations

  /** How an access to a page ends: it proceeds, the thread is killed, or the kernel spins in the
      frame allocator. */
  datatype Outcome = Resolved | Killed | Spins

  /** handle_page_fault. The bit that it tests is also set in the entries of mapped pages: a fault on
      one of those, which the processor does not raise, would give it another frame. */
  method HandlePageFault(k: Kernel, v: PageNo) returns (outcome: Outcome)
    requires HeapOk(k)
    modifies k.ram, k`zones, k`roles
    ensures k.ram.Length == RAM_WORDS
    ensures outcome == Killed ==> HeapOk(k) && !Assigned(VirtualEntry(old(Now(k)), v)) && Now(k) == old(Now(k))
    ensures outcome == Killed && v >= HEAP ==> VirtualEntry(old(Now(k)), v) == 0
    ensures outcome == Resolved && v >= HEAP ==> NoneOffered(old(Now(k)), Now(k))
    ensures outcome == Resolved ==> VirtualEntry(old(Now(k)), v) != 0 && (HeapOk(k) <==> v >= HEAP)
    ensures outcome == Resolved ==>
              && var l := Frame(VirtualEntry(Now(k), v));
              && |old(k.roles)| == 0x100000 && old(k.roles)[l] == Free && VirtualEntry(Now(k), v) == Entry(l, MAPPED)
              && (v >= HEAP ==> Pages(Now(k)) == Pages(old(Now(k)))[v := Held(Contents(k.Mem(), l))])
              && (ZeroFill(VirtualEntry(old(Now(k)), v)) ==> forall i: Slot :: Cell(k.Mem(), l, i) == 0)
    ensures outcome == Spins ==> forall h: PageNo :: h >= 1 ==> !Available(k.Mem(), k.linearDir, h)
  {
    hide Cell, Lin, Rooted, Layout, InTables, HeapStep, EntriesAgree, TablesExist, Shape, ZonesOk, Flags, ListAt, Spans,
         Available, LinearEntry, LinearOk, Pages, Dir, Tab;
    ghost var p := Now(k);
    LayoutRooted(p, {}, {});
    RootedLinear(p);
    FaultedEntry(p, v);
    var d := k.Load(k.virtualDir, Dir(v));
    if d == 0 {
      return Killed;
    }
    var entry := k.Load(Frame(d), Tab(v));
    assert entry == VirtualEntry(p, v);
    hide VirtualEntry;
    if !Assigned(entry) {
      return Killed;
    }
    var ok, l := GetFreePage(k, ZONE_NORMAL);
    if !ok {
      return Spins;
    }
    AvailableFree(p, l);
    k.roles := k.roles[l := Data(v)];
    assert Now(k) == Claim(p, l, Data(v));
    StoreEntry(k, v, Entry(l, MAPPED));
    SetLinearEntry(k, v, l, LINEAR_ALLOCATED);
    assert Now(k) == Serve(p, v, l);
    if v < HEAP {
      ServeBreaksLayout(p, v, l);
      return Resolved;
    }
    FinishFault(k, v, l, ZeroFill(entry), p);
    return Resolved;
  }

  /** The frame of a heap page has been entered and may have to be cleared. */
  method FinishFault(k: Kernel, v: PageNo, l: PageNo, zero: bool, ghost p: Paging)
    requires AllocatorOk(k) && ListsOk(k) && Shape(FreeSpans(k), UsedSpans(k), k.heapNext)
    requires EntriesAgree(p, UsedSpans(k)) && TablesExist(p, FreeSpans(k) + UsedSpans(k))
    requires Layout(p, {}, {}) && |p.roles| == 0x100000 && v >= HEAP && Cell(p.mem, p.vd, Dir(v)) != 0
    requires 1 <= l && InTables(l, p.T) && Available(p.mem, p.ld, l) && Now(k) == Serve(p, v, l)
    requires VirtualEntry(p, v) != 0
    modifies k.ram
    ensures HeapOk(k) && VirtualEntry(Now(k), v) == Entry(l, MAPPED)
    ensures Pages(Now(k)) == Pages(p)[v := Held(Contents(k.Mem(), l))] && NoneOffered(p, Now(k))
    ensures zero ==> forall i: Slot :: Cell(k.Mem(), l, i) == 0
  {
    hide Cell, Lin, Rooted, Layout, InTables, HeapStep, EntriesAgree, TablesExist, Shape, ZonesOk, Flags, ListAt, Spans,
         Available, LinearEntry, LinearOk, Pages, Dir, Tab, VirtualEntry, Serve;
    ServeEffect(p, v, l);
    if zero {
      ClearServed(p, Now(k), v, l);
      k.ClearPage(l);
    }
    MappedWord(l);
    StepNoneOffered(p, Now(k), v, v + 1);
    FaultAgrees(p, Now(k), FreeSpans(k), UsedSpans(k), v);
    FaultPages(p, Now(k), v, l);
  }

  /** Below the heap the page would lose its identity mapping, which the invariant demands. */
  lemma ServeBreaksLayout(p: Paging, v: PageNo, l: PageNo)
    requires Layout(p, {}, {}) && |p.roles| == 0x100000 && v < HEAP && VirtualEntry(p, v) == Entry(v, MAPPED)
    requires 1 <= l && InTables(l, p.T) && Available(p.mem, p.ld, l)
    ensures VirtualEntry(Serve(p, v, l), v) == Entry(l, MAPPED) && !Layout(Serve(p, v, l), {}, {})
  {
    hide Cell, Lin, Rooted, Layout, InTables, Available, VirtualEntry, Dir, LinAvailable, GoodEntry;
    LayoutRooted(p, {}, {});
    AvailableFree(p, l);
    ClaimKeepsLayout(p, l, Data(v));
    var a := Claim(p, l, Data(v));
    LayoutRooted(a, {}, {});
    WriteLinearEffect(p, l, LINEAR_ALLOCATED);
    MappedNonzero(v);
    EntrySlot(p, v);
    ImageWord(v);
    WriteEntryEffect(a, v, Entry(l, MAPPED));
    WriteLinearEffect(WriteEntry(a, v, Entry(l, MAPPED)), l, Entry(v, LINEAR_ALLOCATED));
    LayoutEntry(p, {}, {}, v);
    IdentityInUse(p, v);
    var q := Serve(p, v, l);
    ImageWord(l);
    if Layout(q, {}, {}) {
      LayoutEntry(q, {}, {}, v);
      IdentityInUse(q, v);
    }
  }

  lemma ImageWord(l: PageNo)
    ensures forall f: PageNo :: Entry(l, MAPPED) != Entry(f, IMAGE)
  {
    assert forall f: PageNo :: Flags(Entry(f, IMAGE)) == IMAGE;
  }

  lemma EntrySlot(p: Paging, v: PageNo)
    requires VirtualEntry(p, v) != 0
    ensures Cell(p.mem, p.vd, Dir(v)) != 0
  {
  }

  lemma IdentityInUse(p: Paging, v: PageNo)
    requires |p.roles| == 0x100000 && v < HEAP && VirtualEntry(p, v) != 0 && GoodEntry(p, v)
    requires forall f: PageNo :: VirtualEntry(p, v) != Entry(f, IMAGE)
    ensures VirtualEntry(p, v) == Entry(v, MAPPED) && p.roles[v] != Free
  {
    hide VirtualEntry;
  }

  lemma MappedWord(l: PageNo)
    ensures Present(Entry(l, MAPPED)) && Entry(l, MAPPED) != 0
  {
  }

  /** The bit that the handler tests is set in the entries of the heap and of identity pages, but not in those
      of image pages. */
  lemma FaultedEntry(p: Paging, v: PageNo)
    requires Layout(p, {}, {})
    ensures Assigned(VirtualEntry(p, v)) ==> VirtualEntry(p, v) != 0
    ensures v >= HEAP && VirtualEntry(p, v) != 0 ==> Assigned(VirtualEntry(p, v))
    ensures v < HEAP && Assigned(VirtualEntry(p, v)) ==> VirtualEntry(p, v) == Entry(v, MAPPED)
    ensures ZeroFill(VirtualEntry(p, v)) ==> v >= HEAP
  {
    hide VirtualEntry, Lin, InTables, Layout, Entry, Assigned, ZeroFill, Flags;
    LayoutEntry(p, {}, {}, v);
    MappedBits(if v < HEAP then v else Frame(VirtualEntry(p, v)));
    ImageBits(Frame(VirtualEntry(p, v)));
    UnmappedBits();
  }

  lemma MappedBits(l: PageNo)
    ensures Assigned(Entry(l, MAPPED)) && !ZeroFill(Entry(l, MAPPED)) && Entry(l, MAPPED) != 0
  {
  }

  lemma ImageBits(l: PageNo)
    ensures !Assigned(Entry(l, IMAGE)) && !ZeroFill(Entry(l, IMAGE)) && Present(Entry(l, IMAGE))
  {
  }

  lemma UnmappedBits()
    ensures Assigned(ASSIGNED) && Assigned(ASSIGNED_ZERO) && !Assigned(0) && !ZeroFill(0)
  {
  }

  /** The translation of an access: a page that is not present faults first. */
  method Touch(k: Kernel, v: PageNo) returns (outcome: Outcome, frame: PageNo)
    requires HeapOk(k) && v >= HEAP
    modifies k.ram, k`zones, k`roles
    ensures outcome != Spins ==> HeapOk(k) && NoneOffered(old(Now(k)), Now(k))
    ensures outcome == Killed ==> v !in Pages(old(Now(k))) && Pages(Now(k)) == Pages(old(Now(k)))
    ensures outcome == Resolved ==>
              && v in Pages(old(Now(k)))
              && Present(VirtualEntry(Now(k), v)) && frame == Frame(VirtualEntry(Now(k), v))
              && Touched(Pages(old(Now(k)))[v], Contents(k.Mem(), frame))
              && Pages(Now(k)) == Pages(old(Now(k)))[v := Held(Contents(k.Mem(), frame))]
    ensures outcome == Spins ==> forall h: PageNo :: h >= 1 ==> !Available(k.Mem(), k.linearDir, h)
  {
    hide Cell, Lin, Rooted, Layout, InTables, HeapStep, EntriesAgree, TablesExist, Shape, ZonesOk, Flags, ListAt, Spans,
         Available, LinearEntry, LinearOk, Dir, Tab;
    ghost var p := Now(k);
    var d := k.Load(k.virtualDir, Dir(v));
    var entry := if d == 0 then 0 else k.Load(Frame(d), Tab(v));
    assert entry == VirtualEntry(p, v);
    hide VirtualEntry;
    if Present(entry) {
      MappedFrame(p, v);
      frame := Frame(entry);
      outcome := Resolved;
      assert Pages(p)[v := Held(Contents(k.Mem(), frame))] == Pages(p);
    } else {
      outcome := HandlePageFault(k, v);
      frame := Frame(k.Load(Frame(k.Load(k.virtualDir, Dir(v))), Tab(v)));
      if outcome == Resolved {
        EntryWord(Now(k), v);
        assert StateOf(p, v) == Fresh(ZeroFill(entry));
      }
    }
  }

  lemma EntryWord(p: Paging, v: PageNo)
    requires Present(VirtualEntry(p, v))
    ensures VirtualEntry(p, v) == Cell(p.mem, Frame(Cell(p.mem, p.vd, Dir(v))), Tab(v))
  {
  }

  /** A client loads a word of the heap. */
  method LoadWord(k: Kernel, v: PageNo, i: Slot) returns (outcome: Outcome, w: Word)
    requires HeapOk(k) && v >= HEAP
    modifies k.ram, k`zones, k`roles
    ensures outcome != Spins ==> HeapOk(k) && NoneOffered(old(Now(k)), Now(k))
    ensures outcome == Killed ==> v !in old(Abs(k)).pages && Step(old(Abs(k)), Other, Abs(k))
    ensures outcome == Resolved ==> Step(old(Abs(k)), Loaded(v, i, w), Abs(k))
    ensures outcome == Spins ==> forall h: PageNo :: h >= 1 ==> !Available(k.Mem(), k.linearDir, h)
  {
    hide Available, VirtualEntry, Lin, Rooted, Layout, InTables, HeapStep, EntriesAgree, TablesExist, Shape, ZonesOk,
         ListAt, Spans, Pages, Blocks;
    w := 0;
    var frame;
    outcome, frame := Touch(k, v);
    if outcome == Resolved {
      w := k.Load(frame, i);
      ghost var words := Contents(k.Mem(), frame);
      assert w == words[i];
    }
  }

  /** A client stores a word into the heap. */
  method StoreWord(k: Kernel, v: PageNo, i: Slot, w: Word) returns (outcome: Outcome)
    requires HeapOk(k) && v >= HEAP
    modifies k.ram, k`zones, k`roles
    ensures outcome != Spins ==> HeapOk(k) && NoneOffered(old(Now(k)), Now(k))
    ensures outcome == Killed ==> v !in old(Abs(k)).pages && Step(old(Abs(k)), Other, Abs(k))
    ensures outcome == Resolved ==> Step(old(Abs(k)), Stored(v, i, w), Abs(k))
    ensures outcome == Spins ==> forall h: PageNo :: h >= 1 ==> !Available(k.Mem(), k.linearDir, h)
  {
    hide Available, VirtualEntry, Lin, Rooted, Layout, InTables, HeapStep, EntriesAgree, TablesExist, Shape, ZonesOk,
         ListAt, Spans, Pages, Blocks, Cell;
    ghost var was := Now(k);
    var frame;
    outcome, frame := Touch(k, v);
    if outcome == Resolved {
      ghost var p := Now(k);
      ghost var words := Contents(k.Mem(), frame);
      LayoutRooted(p, {}, {});
      StorePages(p, v, i, w);
      NoneOfferedTransitive(was, p, p.(mem := Poke(p.mem, frame, i, w)));
      k.Store(frame, i, w);
      SameEntriesAgree(p, Now(k), FreeSpans(k), UsedSpans(k));
    }
  }

  lemma SameEntriesAgree(p: Paging, q: Paging, free: seq<Span>, used: seq<Span>)
    requires EntriesAgree(p, used) && TablesExist(p, free + used)
    requires forall u: PageNo {:trigger VirtualEntry(q, u)} :: VirtualEntry(q, u) == VirtualEntry(p, u)
    requires forall t: Slot {:trigger Cell(q.mem, q.vd, t)} :: Cell(q.mem, q.vd, t) == Cell(p.mem, p.vd, t)
    ensures EntriesAgree(q, used) && TablesExist(q, free + used)
  {
    hide VirtualEntry, Cell, Dir, InUse;
    forall i, v: PageNo | 0 <= i < |free + used|
                          && (free + used)[i].page <= v < (free + used)[i].page + (free + used)[i].count
      ensures Cell(q.mem, q.vd, Dir(v)) != 0
    {
      assert HasTables(p, (free + used)[i].page, (free + used)[i].page + (free + used)[i].count);
    }
  }

  /** kmemory_virtual_page_allocate, as the client sees it. When there is room it is a step of flat
      memory; otherwise it breaks the invariant of the heap. */
  method AllocatePages(k: Kernel, count: Word, zero: bool) returns (ok: bool, page: nat)
    requires HeapOk(k)
    modifies k, k.ram
    ensures k.ram.Length == RAM_WORDS
    ensures ok ==> (HeapOk(k) <==> Fits(old(FreeSpans(k)), old(k.heapNext), count))
    ensures ok && HeapOk(k) ==> Step(old(Abs(k)), Allocated(page, count, zero), Abs(k))
    ensures ok ==> NoneOffered(old(Now(k)), Now(k))
    ensures !ok ==> forall h: PageNo :: h >= 1 ==> !Available(k.Mem(), k.linearDir, h)
  {
    hide Available, VirtualEntry, Lin, Rooted, Layout, InTables, HeapStep, EntriesAgree, TablesExist, Shape, ZonesOk,
         ListAt, Spans, Pages, Blocks, Cell, Filled, Fits, WalkEnd;
    ghost var i: nat;
    ghost var p, free, used, next := Now(k), FreeSpans(k), UsedSpans(k), k.heapNext;
    LayoutRooted(p, {}, {});
    ok, page, i := Allocate(k, count, zero);
    if ok {
      StepNoneOffered(p, Now(k), page, WalkEnd(page, count));
    }
    if ok && Fits(free, next, count) {
      FitsEnd(free, used, next, count, i, page);
      FitsAt(free, next, count, i);
      AllocationStep(p, Now(k), free, used, next, count, i, FreeSpans(k), UsedSpans(k), k.heapNext, page, zero);
    }
  }

  /** kmemory_virtual_page_unallocate, as the client sees it. */
  method UnallocatePages(k: Kernel, page: nat) returns (found: bool, ghost count: nat)
    requires HeapOk(k)
    modifies k, k.ram
    ensures HeapOk(k) && NoneOffered(old(Now(k)), Now(k))
    ensures found ==> Step(old(Abs(k)), Freed(page, count), Abs(k))
    ensures !found ==> Step(old(Abs(k)), Other, Abs(k)) && forall b :: b in old(Abs(k)).blocks ==> b.0 != page
  {
    hide VirtualEntry, Lin, Rooted, Layout, InTables, HeapStep, EntriesAgree, TablesExist, Shape, ZonesOk, ListAt,
         Spans, Pages, Cell, Filled;
    ghost var i: nat;
    ghost var p, free, used, next := Now(k), FreeSpans(k), UsedSpans(k), k.heapNext;
    LayoutRooted(p, {}, {});
    found, i := Unallocate(k, page);
    count := 0;
    if found {
      ReleaseStep(p, Now(k), free, used, next, i);
      StepNoneOffered(p, Now(k), page, page + used[i].count);
      count := used[i].length;
    }
  }
}
