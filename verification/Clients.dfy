/** Any sequence of calls that clients make to the memory manager is a run of flat memory. */
module Clients {
  import opened Machine
  import opened FrameAllocator
  import opened FrameSearch
  import opened FrameRuns
  import opened PageTables
  import opened IdentityMap
  import opened HeapPaging
  import opened VirtualHeap
  import opened FlatMemory
  import opened DemandPaging
  import opened Ownership
  import opened ImageLoad

  /** kmemory_linear_page_allocate, as the clients of the heap see it. */
  method AllocateLinear(k: Kernel, count: nat, dma: bool) returns (ok: bool, g: PageNo, ghost z: nat)
    requires HeapOk(k) && |k.zones| == 3 && TableCount(k.upper) <= 64
    requires !RunWraps(k.Mem(), k.linearDir, k.zones, TableCount(k.upper), count,
                       if dma then ZONE_DMA else ZONE_NORMAL)
    modifies k.ram, k`zones, k`roles
    ensures ok ==> HeapOk(k) && Step(old(Abs(k)), Other, Abs(k)) && NoneOffered(old(Now(k)), Now(k))
    ensures ok ==> 1 <= g && g + count <= 0x100000 &&
                   forall j: PageNo :: g <= j < g + count ==>
                     Available(old(k.Mem()), k.linearDir, j) && VirtualEntry(Now(k), j) == Entry(j, MAPPED)
    ensures ok ==> |old(k.zones)| == 3 && z < 3 && (dma ==> z == ZONE_DMA || z == ZONE_KERNEL)
    ensures ok ==> forall j: PageNo :: g <= j < g + count ==> j in Order(old(k.zones)[z], TableCount(k.upper))
    ensures ok ==> forall i :: (if dma then ZONE_DMA else ZONE_NORMAL) <= i < z && old(k.zones)[i].next != 0 ==>
              NoRun(ZoneMarks(old(k.Mem()), k.linearDir, old(k.zones)[i], TableCount(k.upper)), count)
    ensures !ok && !dma && count == 1 ==> forall h: PageNo :: h >= 1 ==> !Available(k.Mem(), k.linearDir, h)
    ensures !ok ==> AllocatorOk(k) &&
                    (Exhausted(k.Mem(), k.linearDir, k.zones, TableCount(k.upper), count,
                               if dma then ZONE_DMA else ZONE_NORMAL)
                     || forall h: PageNo :: h >= 1 ==> !Available(k.Mem(), k.linearDir, h))
  {
    hide Available, Exhausted, VirtualEntry, Lin, Rooted, Layout, InTables, HeapKept, EntriesAgree, TablesExist, Shape,
         ZonesOk, ListAt, Spans, Pages, Blocks, Cell, Step, Entry, RunWraps, PickFrom, NoRun, ZoneMarks, Order;
    ghost var p, free, used := Now(k), FreeSpans(k), UsedSpans(k);
    ok, g, z := LinearPageAllocate(k, count, dma);
    if ok {
      IdentityMappingInvisible(p, Now(k), free, used);
      KeptNoneOffered(p, Now(k));
    }
  }

  /** kmemory_linear_page_map, as the clients of the heap see it. */
  method MapLinear(k: Kernel, first: PageNo, count: nat) returns (ok: bool)
    requires HeapOk(k) && first + count <= TableCount(k.upper) * 1024 && |k.roles| == 0x100000
    requires forall g: PageNo :: first <= g < first + count ==>
               !k.roles[g].Data?
    modifies k.ram, k`zones, k`roles
    ensures ok ==> HeapOk(k) && Step(old(Abs(k)), Other, Abs(k)) && NoneOffered(old(Now(k)), Now(k))
    ensures ok ==> forall g: PageNo :: first <= g < first + count ==> VirtualEntry(Now(k), g) == Entry(g, MAPPED)
    ensures !ok ==> k.ram.Length == RAM_WORDS && forall h: PageNo :: h >= 1 ==> !Available(k.Mem(), k.linearDir, h)
  {
    hide Available, VirtualEntry, Lin, Rooted, Layout, InTables, HeapKept, EntriesAgree, TablesExist, Shape, ZonesOk,
         ListAt, Spans, Pages, Blocks, Cell, Step, Entry;
    ghost var p, free, used := Now(k), FreeSpans(k), UsedSpans(k);
    ok := LinearPageMap(k, first, count);
    if ok {
      IdentityMappingInvisible(p, Now(k), free, used);
      KeptNoneOffered(p, Now(k));
    }
  }

  /** The pages of a segment of an image, as the clients of the heap see it. */
  method LoadImage(k: Kernel, first: PageNo, count: nat)
    returns (ok: bool, clash: bool, g: PageNo, ghost steps: seq<Mapping>)
    requires HeapOk(k) && first + count <= HEAP && |k.zones| == 3 && TableCount(k.upper) <= 64
    requires !RunWraps(k.Mem(), k.linearDir, k.zones, TableCount(k.upper), count, ZONE_NORMAL)
    modifies k.ram, k`zones, k`roles
    ensures AllocatorOk(k)
    ensures ok && !clash ==> HeapOk(k) && Step(old(Abs(k)), Other, Abs(k)) && NoneOffered(old(Now(k)), Now(k))
    ensures ok && !clash ==> Segment(old(Now(k)), Now(k), steps, first, g, count)
    ensures ok && clash ==> Clashed(Now(k), first, count)
    ensures !ok ==> Exhausted(k.Mem(), k.linearDir, k.zones, TableCount(k.upper), count, ZONE_NORMAL)
                    || forall h: PageNo :: h >= 1 ==> !Available(k.Mem(), k.linearDir, h)
  {
    hide Available, Exhausted, VirtualEntry, Lin, Rooted, Layout, InTables, HeapStep, EntriesAgree, TablesExist, Shape,
         ZonesOk, ListAt, Spans, Pages, Blocks, Cell, Step, Entry, RunWraps, Segment, Clashed;
    ghost var p, free, used := Now(k), FreeSpans(k), UsedSpans(k);
    ok, clash, g, steps := MapImage(k, first, count);
    if ok && !clash {
      SegmentLoaded(p, Now(k), steps, first, g, count);
      BelowHeapInvisible(p, Now(k), first, first + count, free, used);
      StepNoneOffered(p, Now(k), first, first + count);
    }
  }

  lemma SegmentLoaded(p: Paging, r: Paging, steps: seq<Mapping>, first: nat, g: nat, count: nat)
    requires Segment(p, r, steps, first, g, count)
    ensures |p.roles| == |r.roles| == 0x100000 && Layout(r, {}, {}) && HeapStep(p, r, first, first + count)
  {
    hide Layout, HeapStep, Mappings, ImageAt, RunFrame;
  }

  /** A store to a page of an image, by read_elf itself or by the module. Another page below the heap is the
      kernel's own memory, and the store is not followed. */
  method StoreImage(k: Kernel, v: PageNo, i: Slot, w: Word) returns (ok: bool)
    requires HeapOk(k) && v < HEAP
    modifies k.ram
    ensures HeapOk(k) && Step(old(Abs(k)), Other, Abs(k)) && NoneOffered(old(Now(k)), Now(k))
    ensures ok <==> VirtualEntry(old(Now(k)), v) == Entry(Frame(VirtualEntry(old(Now(k)), v)), IMAGE)
    ensures Now(k) == if ok then old(Now(k)).(mem := Poke(old(k.Mem()), Frame(VirtualEntry(old(Now(k)), v)), i, w))
                      else old(Now(k))
  {
    hide Lin, Rooted, Layout, InTables, HeapStep, EntriesAgree, TablesExist, Shape, ZonesOk, ListAt, Spans, Pages,
         Blocks, Cell, Step, Available, Entry, Poke;
    ghost var p, free, used := Now(k), FreeSpans(k), UsedSpans(k);
    var d := k.Load(k.virtualDir, Dir(v));
    var entry := if d == 0 then 0 else k.Load(Frame(d), Tab(v));
    assert entry == VirtualEntry(p, v);
    hide VirtualEntry;
    ok := entry == Entry(Frame(entry), IMAGE);
    LayoutRooted(p, {}, {});
    if ok {
      ImageHolds(p, v);
      k.Store(Frame(entry), i, w);
      ImageWriteInvisible(p, Now(k), v, Frame(entry), free, used);
    } else {
      SameStep(Abs(k));
    }
  }

  /** Page v is mapped as a page of an image. */
  ghost predicate OfImage(p: Paging, v: PageNo) {
    VirtualEntry(p, v) == Entry(Frame(VirtualEntry(p, v)), IMAGE)
  }

  lemma SameStep(s: Flat)
    ensures Step(s, Other, s)
  {
  }

  datatype Request =
    | Allocate(count: Word, zero: bool)
    | Free(page: nat)
    | Load(at: PageNo, index: Slot)
    | Store(at: PageNo, index: Slot, word: Word)
    | LinearAllocate(count: Word, dma: bool)
    | LinearMap(first: PageNo, count: Word)
    | ImageLoad(first: PageNo, count: Word)
    | ImageStore(at: PageNo, index: Slot, word: Word)

  /** Heap accesses are to addresses of the heap, and images lie below it. */
  predicate Admissible(r: Request) {
    match r
    case Load(v, _) => v >= HEAP
    case Store(v, _, _) => v >= HEAP
    case ImageLoad(first, count) => first + count <= HEAP
    case ImageStore(v, _, _) => v < HEAP
    case _ => true
  }

  /** What a client learns: the address of an allocation, or the word it has loaded. */
  datatype Reply = Page(page: nat) | Word(word: Word) | Nothing

  /** An allocation begins at the page. */
  ghost predicate Begins(s: Flat, page: nat) {
    exists b :: b in s.blocks && b.0 == page
  }

  /** The event of flat memory that a request and its reply stand for in state s. An access kills the
      client exactly when the page is not live, and a call to free does nothing exactly when no
      allocation begins at the page. */
  ghost predicate Means(s: Flat, r: Request, a: Reply, e: Event) {
    match r
    case Allocate(count, zero) => a.Page? && e == Allocated(a.page, count, zero)
    case Free(page) => if Begins(s, page) then e.Freed? && e.page == page else e == Other
    case Load(v, i) => if v in s.pages then a.Word? && e == Loaded(v, i, a.word) else e == Other && a == Nothing
    case Store(v, i, w) => e == if v in s.pages then Stored(v, i, w) else Other
    case LinearAllocate(_, _) => e == Other
    case LinearMap(_, _) => e == Other
    case ImageLoad(_, _) => e == Other
    case ImageStore(_, _, _) => e == Other
  }

  /** Each of the pages has a linear entry, and its frame may still be handed out or is mapped to itself. */
  ghost predicate Mappable(k: Kernel, first: PageNo, count: nat)
    requires k.ram.Length == RAM_WORDS
    reads k, k.ram
  {
    first + count <= 0x100000 && forall g: PageNo :: first <= g < first + count ==> MappablePage(Now(k), g)
  }

  predicate MappablePage(p: Paging, g: PageNo) {
    && LinAllocated(Cell(p.mem, p.ld, Dir(g)))
    && (LinAvailable(LinearEntry(p.mem, p.ld, g)) || VirtualEntry(p, g) == Entry(g, MAPPED))
  }

  /** A page can be mapped exactly when its frame is available, or has a linear entry and is mapped to itself. */
  lemma MappableIff(p: Paging, g: PageNo)
    requires Layout(p, {}, {})
    ensures MappablePage(p, g) <==>
              Available(p.mem, p.ld, g) || (InTables(g, p.T) && VirtualEntry(p, g) == Entry(g, MAPPED))
  {
    hide VirtualEntry, LinearEntry, Cell, Layout, Rooted, LinAllocated, LinAvailable;
    LayoutRooted(p, {}, {});
    RootedLinear(p);
    PresentTable(p.mem, p.ld, p.T, g);
  }

  method CanMap(k: Kernel, first: PageNo, count: nat) returns (can: bool)
    requires k.ram.Length == RAM_WORDS
    ensures can == Mappable(k, first, count)
  {
    hide MappablePage;
    if first + count > 0x100000 {
      return false;
    }
    var i := 0;
    while i < count
      invariant 0 <= i <= count
      invariant forall g: PageNo :: first <= g < first + i ==> MappablePage(Now(k), g)
    {
      var mappable := CanMapPage(k, first + i);
      if !mappable {
        assert !MappablePage(Now(k), first + i);
        return false;
      }
      i := i + 1;
    }
    can := true;
  }

  method CanMapPage(k: Kernel, g: PageNo) returns (can: bool)
    requires k.ram.Length == RAM_WORDS
    ensures can == MappablePage(Now(k), g)
  {
    hide Cell, LinAvailable, LinAllocated, Frame;
    var d := k.Load(k.virtualDir, Dir(g));
    var l := k.Load(k.linearDir, Dir(g));
    if !LinAllocated(l) {
      return false;
    }
    var linear := k.Load(Frame(l), Tab(g));
    var entry := if d == 0 then 0 else k.Load(Frame(d), Tab(g));
    can := LinAvailable(linear) || entry == Entry(g, MAPPED);
  }

  /** Such a frame does not hold a heap page. */
  lemma MappableFrame(p: Paging, g: PageNo)
    requires Layout(p, {}, {}) && |p.roles| == 0x100000 && MappablePage(p, g)
    ensures InTables(g, p.T) && !p.roles[g].Data?
  {
    hide VirtualEntry, Lin, LinearEntry, Layout, Cell;
    LayoutRooted(p, {}, {});
    LayoutEntry(p, {}, {}, g);
    AvailableNotData(p, g);
  }

  lemma AvailableNotData(p: Paging, g: PageNo)
    requires Rooted(p) && LinAllocated(Cell(p.mem, p.ld, Dir(g)))
    ensures InTables(g, p.T) && g < HEAP && |p.roles| == 0x100000
    ensures LinAvailable(LinearEntry(p.mem, p.ld, g)) ==> !p.roles[g].Data?
  {
    hide LinearEntry, Cell, LinAllocated, LinAvailable;
    assert Dir(g) < p.T;
  }

  /** The address space has room for the range. */
  ghost predicate Room(k: Kernel, count: nat)
    requires ListsOk(k)
    reads k
  {
    Fits(FreeSpans(k), k.heapNext, count)
  }

  method HasRoom(k: Kernel, count: nat) returns (room: bool)
    requires ListsOk(k)
    ensures room == Room(k, count)
  {
    var prev, current;
    ghost var i;
    prev, current, i := FindFit(k, count);
    FitsAt(FreeSpans(k), k.heapNext, count, i);
    room := count >= 1 && (current != Null || k.heapNext + count + 1 < 0x100000);
  }

  /** What ends a run: every frame but frame 0 is taken and the frame allocator spins, or an allocation finds
      no room in the address space. For a run of frames its zones may hold none, or one that goes across a
      wrap, and pages that are to be mapped must be mappable. The frame of an image's page may have been
      taken for a page table, and a store may go to the kernel's own memory. */
  ghost predicate Stuck(k: Kernel, r: Request)
    requires k.ram.Length == RAM_WORDS
    reads k, k.ram
  {
    || (forall h: PageNo :: h >= 1 ==> !Available(k.Mem(), k.linearDir, h))
    || (r.Allocate? && ListsOk(k) && !Room(k, r.count))
    || (r.LinearAllocate? && AllocatorOk(k) && NoRunFor(k, r.count, if r.dma then ZONE_DMA else ZONE_NORMAL))
    || (r.LinearMap? && !Mappable(k, r.first, r.count))
    || (r.ImageLoad? && AllocatorOk(k) && (NoRunFor(k, r.count, ZONE_NORMAL) || Clashed(Now(k), r.first, r.count)))
    || (r.ImageStore? && !OfImage(Now(k), r.at))
  }

  ghost predicate NoRunFor(k: Kernel, count: nat, first: nat)
    requires AllocatorOk(k) && first <= 3
    reads k, k.ram
  {
    || Exhausted(k.Mem(), k.linearDir, k.zones, TableCount(k.upper), count, first)
    || RunWraps(k.Mem(), k.linearDir, k.zones, TableCount(k.upper), count, first)
  }

  /** As long as a frame is left, accesses and releases are survived, and allocations that find room. */
  lemma Survived(k: Kernel, r: Request, h: PageNo)
    requires HeapOk(k) && h >= 1 && Available(k.Mem(), k.linearDir, h)
    requires r.Load? || r.Store? || r.Free? || (r.Allocate? && Fits(FreeSpans(k), k.heapNext, r.count))
    ensures !Stuck(k, r)
  {
    hide Layout, ListsOk, Shape, EntriesAgree, TablesExist, ZonesOk, FreeSpans, Available, Mappable, NoRunFor, Clashed;
  }

  /** A request for a run of frames. */
  method PerformLinear(k: Kernel, count: nat, dma: bool) returns (ok: bool)
    requires HeapOk(k)
    modifies k.ram, k`zones, k`roles
    ensures ok ==> HeapOk(k) && Step(old(Abs(k)), Other, Abs(k)) && NoneOffered(old(Now(k)), Now(k))
    ensures !ok ==> AllocatorOk(k) &&
                    (NoRunFor(k, count, if dma then ZONE_DMA else ZONE_NORMAL)
                     || forall h: PageNo :: h >= 1 ==> !Available(k.Mem(), k.linearDir, h))
  {
    LinearSound(k);
    hide Layout, ListsOk, Shape, EntriesAgree, TablesExist, ZonesOk, FreeSpans, Available, Exhausted, Pages, Blocks,
         RunWraps, LinearOk, Step;
    var wraps := WillWrap(k, count, if dma then ZONE_DMA else ZONE_NORMAL);
    ok := !wraps;
    if ok {
      var g;
      ghost var z;
      ok, g, z := AllocateLinear(k, count, dma);
    }
  }

  /** A request for the pages of an image. */
  method PerformImage(k: Kernel, first: PageNo, count: nat) returns (ok: bool)
    requires HeapOk(k) && first + count <= HEAP
    modifies k.ram, k`zones, k`roles
    ensures ok ==> HeapOk(k) && Step(old(Abs(k)), Other, Abs(k)) && NoneOffered(old(Now(k)), Now(k))
    ensures !ok ==> AllocatorOk(k) &&
                    (NoRunFor(k, count, ZONE_NORMAL) || Clashed(Now(k), first, count)
                     || forall h: PageNo :: h >= 1 ==> !Available(k.Mem(), k.linearDir, h))
  {
    LinearSound(k);
    hide Layout, ListsOk, Shape, EntriesAgree, TablesExist, ZonesOk, FreeSpans, Available, Exhausted, Pages, Blocks,
         RunWraps, LinearOk, Step, Clashed, Segment;
    var wraps := WillWrap(k, count, ZONE_NORMAL);
    ok := !wraps;
    if ok {
      var clash, g;
      ghost var steps;
      ok, clash, g, steps := LoadImage(k, first, count);
      ok := ok && !clash;
    }
  }

  /** One request. */
  method Perform(k: Kernel, r: Request) returns (ok: bool, a: Reply, ghost e: Event)
    requires HeapOk(k) && Admissible(r)
    modifies k, k.ram
    ensures ok ==> HeapOk(k) && Step(old(Abs(k)), e, Abs(k)) && Means(old(Abs(k)), r, a, e)
    ensures ok ==> NoneOffered(old(Now(k)), Now(k))
    ensures !ok ==> k.ram.Length == RAM_WORDS && Stuck(k, r)
  {
    hide Layout, ListsOk, Shape, EntriesAgree, TablesExist, ZonesOk, FreeSpans, Available, Exhausted, Mappable, Pages,
         Blocks, NoRunFor, Clashed;
    ok, a, e := true, Nothing, Other;
    match r
    case Allocate(count, zero) =>
      ok := HasRoom(k, count);
      if ok {
        var page;
        ok, page := AllocatePages(k, count, zero);
        a, e := Page(page), Allocated(page, count, zero);
      }
    case Free(page) =>
      var found;
      ghost var count;
      found, count := UnallocatePages(k, page);
      if found {
        e := Freed(page, count);
      }
    case Load(v, i) =>
      var outcome, w := LoadWord(k, v, i);
      ok := outcome != Spins;
      if outcome == Resolved {
        a, e := Word(w), Loaded(v, i, w);
      }
    case Store(v, i, w) =>
      var outcome := StoreWord(k, v, i, w);
      ok := outcome != Spins;
      if outcome == Resolved {
        e := Stored(v, i, w);
      }
    case LinearAllocate(count, dma) =>
      ok := PerformLinear(k, count, dma);
    case LinearMap(first, count) =>
      ok := CanMap(k, first, count);
      if ok {
        MappableRange(k, first, count);
        if count > 0 {
          ok := MapLinear(k, first, count);
        }
      }
    case ImageLoad(first, count) =>
      ok := PerformImage(k, first, count);
    case ImageStore(v, i, w) =>
      ok := StoreImage(k, v, i, w);
  }

  lemma LinearSound(k: Kernel)
    requires HeapOk(k)
    ensures LinearOk(k.Mem(), k.linearDir, TableCount(k.upper))
  {
    LayoutRooted(Now(k), {}, {});
    RootedLinear(Now(k));
    hide Layout, Rooted, LinearOk;
  }

  lemma MappableRange(k: Kernel, first: PageNo, count: nat)
    requires HeapOk(k) && Mappable(k, first, count)
    ensures |k.roles| == 0x100000 && (count > 0 ==> first + count <= TableCount(k.upper) * 1024)
    ensures forall g: PageNo :: first <= g < first + count ==>
              !k.roles[g].Data?
  {
    LayoutRooted(Now(k), {}, {});
    RootedRoles(Now(k));
    hide Layout, Cell, Shape, EntriesAgree, TablesExist, VirtualEntry, LinearEntry, ListsOk;
    forall g: PageNo | first <= g < first + count
      ensures !k.roles[g].Data?
    {
      assert MappablePage(Now(k), g);
      MappableFrame(Now(k), g);
    }
    if count > 0 {
      assert MappablePage(Now(k), first + count - 1);
      MappableFrame(Now(k), first + count - 1);
    }
  }

  /** Any sequence of requests, up to the first that the kernel does not survive. */
  method PerformAll(k: Kernel, requests: seq<Request>)
    returns (replies: seq<Reply>, ghost states: seq<Flat>, ghost events: seq<Event>)
    requires HeapOk(k) && forall r :: r in requests ==> Admissible(r)
    modifies k, k.ram
    ensures |replies| == |events| <= |requests| && FlatMemory.Run(states, events) && states[0] == old(Abs(k))
    ensures forall i :: 0 <= i < |events| ==> Means(states[i], requests[i], replies[i], events[i])
    ensures if |events| == |requests|
            then HeapOk(k) && Abs(k) == states[|events|] && NoneOffered(old(Now(k)), Now(k))
            else k.ram.Length == RAM_WORDS && Stuck(k, requests[|events|])
  {
    hide Layout, ListsOk, Shape, EntriesAgree, TablesExist, ZonesOk, Abs, Step, Means, Begins, Admissible, Stuck;
    replies, states, events := [], [Abs(k)], [];
    while |replies| < |requests|
      invariant HeapOk(k) && |replies| == |events| <= |requests| && FlatMemory.Run(states, events)
      invariant NoneOffered(old(Now(k)), Now(k))
      invariant states[0] == old(Abs(k)) && states[|events|] == Abs(k)
      invariant forall i :: 0 <= i < |events| ==> Means(states[i], requests[i], replies[i], events[i])
    {
      ghost var e;
      var ok, a;
      ok, a, e := Perform(k, requests[|replies|]);
      if !ok {
        break;
      }
      replies, states, events := replies + [a], states + [Abs(k)], events + [e];
    }
  }

  /** An allocation that is served gives pages that were not live and are now, each zeroed or untouched, and leaves
      the others as they were. */
  lemma AllocationServed(s: Flat, count: Word, zero: bool, a: Reply, e: Event, t: Flat)
    requires Means(s, Allocate(count, zero), a, e) && Step(s, e, t)
    ensures a.Page? && 1 <= count && a.page + count <= 0x100000 && (a.page, count as nat) in t.blocks
    ensures forall v: PageNo :: a.page <= v < a.page + count ==>
              v !in s.pages && v in t.pages && t.pages[v] == Fresh(zero)
    ensures forall v: PageNo :: v in s.pages ==> v in t.pages && t.pages[v] == s.pages[v]
  {
    assert forall v: PageNo :: a.page <= v < a.page + count ==> Within(v, a.page, count);
  }

  /** A release that is served ends the allocation that begins at the page, and its pages; when none begins there,
      it changes nothing. */
  lemma ReleaseServed(s: Flat, page: nat, a: Reply, e: Event, t: Flat, count: nat)
    requires Means(s, Request.Free(page), a, e) && Step(s, e, t) && BlocksApart(s.blocks)
    ensures (page, count) in s.blocks && 1 <= count ==>
              && (page, count) !in t.blocks
              && (forall v: PageNo :: page <= v < page + count ==> v !in t.pages)
              && (forall v: PageNo :: v in s.pages && !(page <= v < page + count) ==>
                    v in t.pages && t.pages[v] == s.pages[v])
    ensures (forall b :: b in s.blocks ==> b.0 != page) ==> t == s
  {
    if (page, count) in s.blocks && 1 <= count {
      assert Begins(s, page);
    }
  }

  /** An access to a page that is not live has no effect and no answer. */
  lemma DeadAccess(s: Flat, r: Request, a: Reply, e: Event, t: Flat)
    requires Means(s, r, a, e) && Step(s, e, t)
    requires (r.Load? || r.Store?) && r.at !in s.pages
    ensures t == s && (r.Load? ==> a == Nothing)
  {
  }

  /** In any such run, a load of a live page is answered with the word of the last store to it. */
  lemma LoadRepliesLastStore(requests: seq<Request>, replies: seq<Reply>, states: seq<Flat>, events: seq<Event>,
                             a: nat, b: nat, v: PageNo, i: Slot, w: Word)
    requires FlatMemory.Run(states, events) && |events| <= |requests| && |replies| == |events|
    requires forall n :: 0 <= n < |events| ==> Means(states[n], requests[n], replies[n], events[n])
    requires a < b < |events| && requests[a] == Store(v, i, w) && v in states[a].pages && requests[b] == Load(v, i)
    requires forall n :: a < n < b ==> !Affects(events[n], v, i)
    ensures replies[b] == Word(w)
  {
    assert Means(states[a], requests[a], replies[a], events[a]);
    assert Means(states[b], requests[b], replies[b], events[b]);
    assert Step(states[a], events[a], states[a + 1]);
    assert Knows(states[a + 1], v, i, w);
    RunKeepsWord(states, events, a + 1, b, v, i, w);
    StepKeepsWord(states[b], events[b], states[b + 1], v, i, w);
  }
}
