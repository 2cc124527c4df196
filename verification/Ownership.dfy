/** What the invariants mean for owners of frames, and where the code falls short of its intent. The
    states meant are those that keep `Layout`: after boot and after every request of module Clients. */
module Ownership {
  import opened Machine
  import opened FrameAllocator
  import opened FrameSearch
  import opened PageTables
  import opened IdentityMap
  import opened HeapPaging
  import opened VirtualHeap
  import opened FlatMemory
  import opened DemandPaging
  import opened Boot

  /** The frame a present page is mapped to, 0 included. */
  function MappedTo(p: Paging, v: PageNo): PageNo {
    Frame(VirtualEntry(p, v))
  }

  /** After boot and any client requests the linear table is the reverse map of the page tables: the
      entry of a mapped frame holds the page that maps it. Frame 0 is only ever mapped to itself. */
  lemma ReverseMap(p: Paging, v: PageNo)
    requires Layout(p, {}, {}) && Present(VirtualEntry(p, v))
    ensures if MappedTo(p, v) == 0 then v == 0 else Lin(p, MappedTo(p, v)) == Entry(v, LINEAR_ALLOCATED)
  {
    hide VirtualEntry, Lin, Rooted, InTables, Layout, Entry, Frame, Present;
    LayoutEntry(p, {}, {}, v);
    UnmappedAbsent(VirtualEntry(p, v));
    assert VirtualEntry(p, v) == Entry(v, MAPPED) || VirtualEntry(p, v) == Entry(MappedTo(p, v), MAPPED)
        || VirtualEntry(p, v) == Entry(MappedTo(p, v), IMAGE);
  }

  /** Every present page may be written, and by user code too: in the terms of the processor, bits 0, 1 and 2. */
  lemma PresentOpen(p: Paging, v: PageNo)
    requires Layout(p, {}, {}) && VirtualEntry(p, v) % 2 == 1
    ensures VirtualEntry(p, v) / 2 % 2 == 1 && VirtualEntry(p, v) / 4 % 2 == 1
  {
    var g := EntryKinds(p, v);
    var w: nat := VirtualEntry(p, v);
    hide VirtualEntry, Layout;
    EntryBits(w, g, g);
  }

  lemma EntryKinds(p: Paging, v: PageNo) returns (g: PageNo)
    requires Layout(p, {}, {})
    ensures var w := VirtualEntry(p, v);
            w == 0 || w == ASSIGNED || w == ASSIGNED_ZERO || w == Entry(g, MAPPED) || w == Entry(g, IMAGE)
  {
    LayoutEntry(p, {}, {}, v);
    g := if VirtualEntry(p, v) == Entry(v, MAPPED) then v else Frame(VirtualEntry(p, v));
    hide VirtualEntry, Lin, Rooted, InTables, Layout, Entry, Frame;
  }

  lemma EntryBits(w: nat, g: PageNo, n: nat)
    requires n == g && (w == 0 || w == ASSIGNED || w == ASSIGNED_ZERO || w == Entry(g, MAPPED) || w == Entry(g, IMAGE))
    requires w % 2 == 1
    ensures w / 2 % 2 == 1 && w / 4 % 2 == 1
  {
    if w == Entry(g, MAPPED) {
      LowBits(w, 512 * n + 64);
    } else if w == Entry(g, IMAGE) {
      LowBits(w, 512 * n);
    }
  }

  lemma LowBits(w: nat, q: nat)
    requires w == 8 * q + 7
    ensures w / 2 % 2 == 1 && w / 4 % 2 == 1
  {
    assert w / 2 == 2 * (2 * q + 1) + 1 && w / 4 == 2 * q + 1;
  }

  /** After boot and any client requests no two present pages share a frame. */
  lemma SingleOwner(p: Paging, u: PageNo, v: PageNo)
    requires Layout(p, {}, {}) && u != v
    requires Present(VirtualEntry(p, u)) && Present(VirtualEntry(p, v))
    ensures MappedTo(p, u) != MappedTo(p, v)
  {
    hide VirtualEntry, Lin, Layout, Entry, Frame, Present, MappedTo;
    ReverseMap(p, u);
    ReverseMap(p, v);
    if MappedTo(p, u) == MappedTo(p, v) != 0 {
      SamePage(u, v);
    }
  }

  lemma SamePage(u: PageNo, v: PageNo)
    requires Entry(u, LINEAR_ALLOCATED) == Entry(v, LINEAR_ALLOCATED)
    ensures u == v
  {
    assert Frame(Entry(u, LINEAR_ALLOCATED)) == u;
  }

  /** The frame of a heap page is no page table or directory and cannot be handed out again. */
  lemma HeapFramePrivate(p: Paging, v: PageNo)
    requires Layout(p, {}, {}) && v >= HEAP && Present(VirtualEntry(p, v))
    ensures var l := MappedTo(p, v);
            && l != p.ld && l != p.vd
            && (forall s: Slot :: s < p.T ==> l != Frame(Cell(p.mem, p.ld, s)))
            && (forall s: Slot :: Cell(p.mem, p.vd, s) != 0 ==> l != Frame(Cell(p.mem, p.vd, s)))
            && l >= 1 && !Available(p.mem, p.ld, l)
  {
    MappedFrame(p, v);
    LayoutRooted(p, {}, {});
    DataFrameInRam(p, MappedTo(p, v));
  }

  lemma DataFrameInRam(p: Paging, l: PageNo)
    requires Rooted(p) && p.roles[l].Data?
    ensures l >= 1 && !Available(p.mem, p.ld, l)
  {
  }

  /** Behind every range of the heap, free or used, lies a page that has no entry. */
  lemma GuardPageEmpty(p: Paging, free: seq<Span>, used: seq<Span>, next: nat, i: nat)
    requires EntriesAgree(p, used) && Shape(free, used, next) && i < |free + used|
    ensures var s := (free + used)[i];
            HEAP <= s.page + s.count < 0x100000 && VirtualEntry(p, s.page + s.count) == 0
  {
    var s := (free + used)[i];
    var g: PageNo := s.page + s.count;
    forall j | 0 <= j < |used|
      ensures !(used[j].page <= g < used[j].page + used[j].length)
    {
      UsedSpanInHeap(free, used, next, j);
      assert used[j] == (free + used)[|free| + j];
      assert |free| + j != i ==> Apart((free + used)[|free| + j], s);
    }
    hide VirtualEntry;
    assert VirtualEntry(p, g) != 0 <==> InUse(used, g);
  }

  /** What happens to pages below the heap is invisible to clients of the heap, ... */
  lemma BelowHeapInvisible(p: Paging, q: Paging, lo: nat, hi: nat, free: seq<Span>, used: seq<Span>)
    requires Layout(p, {}, {}) && |p.roles| == 0x100000 && HeapStep(p, q, lo, hi) && hi <= HEAP
    requires EntriesAgree(p, used) && TablesExist(p, free + used)
    ensures EntriesAgree(q, used) && TablesExist(q, free + used)
    ensures Step(Flat(Pages(p), Blocks(used)), Other, Flat(Pages(q), Blocks(used)))
  {
    hide VirtualEntry, Cell, HasTables, Dir, Layout, StateOf, Blocks;
    forall u: PageNo | u >= HEAP
      ensures VirtualEntry(q, u) != 0 <==> InUse(used, u)
    {
      assert VirtualEntry(p, u) != 0 <==> InUse(used, u);
    }
    forall i | 0 <= i < |free + used|
      ensures HasTables(q, (free + used)[i].page, (free + used)[i].page + (free + used)[i].count)
    {
      StepKeepsTables(p, q, (free + used)[i].page, (free + used)[i].page + (free + used)[i].count, lo, hi);
    }
    forall v: PageNo
      ensures v in Pages(q) <==> v in Pages(p)
      ensures v in Pages(p) ==> Pages(q)[v] == Pages(p)[v]
    {
      if v >= HEAP {
        StepKeepsPage(p, q, lo, hi, v);
      }
    }
  }

  /** ... so allocating or mapping identity pages is ... */
  lemma IdentityMappingInvisible(p: Paging, q: Paging, free: seq<Span>, used: seq<Span>)
    requires Layout(p, {}, {}) && |p.roles| == 0x100000 && HeapKept(p, q)
    requires EntriesAgree(p, used) && TablesExist(p, free + used)
    ensures EntriesAgree(q, used) && TablesExist(q, free + used)
    ensures Step(Flat(Pages(p), Blocks(used)), Other, Flat(Pages(q), Blocks(used)))
  {
    hide VirtualEntry, Cell, HasTables, Dir, Layout, StateOf, Blocks, EntriesAgree, TablesExist, Step, HeapKept,
         HeapStep;
    HeapKeptIsStep(p, q, 0);
    BelowHeapInvisible(p, q, 0, 0, free, used);
  }

  /** ... and so is writing to the page of an image. */
  lemma ImageWriteInvisible(p: Paging, q: Paging, v: PageNo, l: PageNo, free: seq<Span>, used: seq<Span>)
    requires Layout(p, {}, {}) && |p.roles| == 0x100000 && v < HEAP && p.roles[l] == Data(v) && q == p.(mem := q.mem)
    requires forall f: PageNo, i: Slot {:trigger Cell(q.mem, f, i)} :: f != l ==> Cell(q.mem, f, i) == Cell(p.mem, f, i)
    requires EntriesAgree(p, used) && TablesExist(p, free + used)
    ensures Layout(q, {}, {}) && NoneOffered(p, q)
    ensures EntriesAgree(q, used) && TablesExist(q, free + used)
    ensures Step(Flat(Pages(p), Blocks(used)), Other, Flat(Pages(q), Blocks(used)))
  {
    hide VirtualEntry, Cell, Layout, StateOf, Blocks, EntriesAgree, TablesExist;
    DataWriteKeepsLayout(p, q, v, l);
    SameEntriesAgree(p, q, free, used);
    forall u: PageNo | u >= HEAP
      ensures StateOf(q, u) == StateOf(p, u)
    {
      LayoutEntry(p, {}, {}, u);
      StateKept(p, q, u);
    }
    assert Pages(q) == Pages(p);
  }

  // ------------------------------------------------------------- where intent and code differ

  /** The call in kmemory_virtual_page_unallocate that is meant to make frame f available passes f
      in the place of the page: it makes f available exactly when f is frame 0. */
  lemma ScrapReclaimsIff(p: Paging, f: PageNo)
    requires Rooted(p) && InTables(f, p.T) && !Available(p.mem, p.ld, f)
    ensures var q := WriteLinear(p, 0, Entry(f, LINEAR_AVAILABLE));
            && (Available(q.mem, q.ld, f) <==> f == 0)
            && (forall g: PageNo :: g >= 1 ==> Available(q.mem, q.ld, g) == Available(p.mem, p.ld, g))
  {
    hide Available, Cell, LinearEntry;
    RootedRoles(p);
    WriteLinearEffect(p, 0, Entry(f, LINEAR_AVAILABLE));
    AvailableFlags(f);
  }

  lemma AvailableFlags(f: PageNo)
    ensures LinAvailable(Entry(f, LINEAR_AVAILABLE))
  {
  }

  /** The identity pages of all frames that boot offers lie below the heap exactly when memory ends
      below 256 MiB; at exactly 256 MiB the one frame too many is the first page of the heap. */
  lemma IdentityBelowHeapIff(upper: nat)
    requires upper < 0x1_0000_0000
    ensures (forall g: PageNo :: InTables(g, TableCount(upper)) && Offered(g, upper) ==> g < HEAP)
            <==> upper < 0x1000_0000
  {
    if upper >= 0x1000_0000 {
      assert InTables(HEAP, TableCount(upper)) && Offered(HEAP, upper);
    }
  }

  /** virtual_address after a new range of `count` pages, in 32 bits. */
  function NextAddress(address: Word, count: nat): Word {
    (address + (count * 4096 + 4096)) % 0x1_0000_0000
  }

  /** The end of the heap moves past a new range and its guard page exactly when the 32-bit sum does
      not wrap. When no free range fits, Allocate keeps the invariant of the heap only then. */
  lemma HeapEndMovesIff(address: Word, count: nat)
    requires 1 <= count < 0xF_FFFF
    ensures NextAddress(address, count) > address <==> address + (count * 4096 + 4096) < 0x1_0000_0000
  {
  }
}
