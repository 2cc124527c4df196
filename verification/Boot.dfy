/** kmemory_linear_setup: the linear tables, the zones, and the first frames; and the whole boot. */
module Boot {
  import opened Machine
  import opened FrameAllocator
  import opened FrameSearch
  import opened PageTables
  import opened IdentityMap
  import opened VirtualHeap
  import opened FlatMemory
  import opened DemandPaging
  import opened IdentityBoot

  // ------------------------------------------------------------- the linear tables

  /** The frames the loops of kmemory_linear_setup mark as available: those that begin below the
      end of memory, and the first frame of every table. */
  predicate Offered(g: PageNo, upper: nat) {
    g * 4096 < upper || Tab(g) == 0
  }

  function TableWord(g: PageNo, upper: nat): Word {
    if Offered(g, upper) then LINEAR_AVAILABLE else 0
  }

  /** The directory in frame kp and its first n tables, in the frames behind it, are built. */
  ghost predicate TablesBuilt(m: Ram, kp: PageNo, n: nat, upper: nat)
    requires n <= 64 && kp + 1 + n < 0x100000
  {
    && (forall s: Slot {:trigger Cell(m, kp, s)} ::
          Cell(m, kp, s) == if s < n then Entry(kp + 1 + s, LINEAR_ALLOCATED) else 0)
    && (forall f: PageNo, t: Slot {:trigger Cell(m, f, t)} :: kp < f <= kp + n ==>
          Cell(m, f, t) == TableWord(PageAt(f - kp - 1, t), upper))
  }

  /** The inner loop: fills one cleared table until it is full or memory ends. */
  method FillTable(k: Kernel, pt: PageNo, i1: Slot, upper: nat, mem0: nat) returns (mem: nat)
    requires k.ram.Length == RAM_WORDS && i1 <= upper / TABLE_BYTES && mem0 == i1 * TABLE_BYTES
    requires forall t: Slot :: Cell(k.Mem(), pt, t) == 0
    modifies k.ram
    ensures forall f: PageNo, t: Slot {:trigger Cell(k.Mem(), f, t)} ::
              Cell(k.Mem(), f, t) == if f == pt then TableWord(PageAt(i1, t), upper) else Cell(old(k.Mem()), f, t)
    ensures i1 < upper / TABLE_BYTES ==> mem == (i1 + 1) * TABLE_BYTES
  {
    hide Cell, Tab;
    mem := mem0;
    var i2: nat := 0;
    while i2 < 1024
      invariant 0 <= i2 <= 1024 && mem == mem0 + i2 * 4096
      invariant i2 > 0 ==> mem < upper
      invariant forall f: PageNo, t: Slot {:trigger Cell(k.Mem(), f, t)} ::
                  Cell(k.Mem(), f, t) ==
                    if f == pt then (if t < i2 then LINEAR_AVAILABLE else 0) else Cell(old(k.Mem()), f, t)
    {
      k.Store(pt, i2, LINEAR_AVAILABLE);
      mem := mem + 4096;
      i2 := i2 + 1;
      if mem >= upper {
        break;
      }
    }
    FillEnd(i1, i2, upper);
  }

  /** Where the inner loop stops. */
  lemma FillEnd(i1: Slot, i2: nat, upper: nat)
    requires 1 <= i2 <= 1024 && i1 <= upper / TABLE_BYTES
    requires i2 < 1024 ==> i1 * TABLE_BYTES + i2 * 4096 >= upper
    requires i2 > 1 ==> i1 * TABLE_BYTES + (i2 - 1) * 4096 < upper
    ensures forall t: Slot {:trigger PageAt(i1, t)} :: Offered(PageAt(i1, t), upper) <==> t < i2
    ensures i1 < upper / TABLE_BYTES ==> i2 == 1024
  {
  }

  /** The outer loop: directory and tables behind the kernel image. */
  method BuildTables(k: Kernel, kp: PageNo, upper: nat)
    requires k.ram.Length == RAM_WORDS && upper < 0x1000_0000 && kp + 1 + TableCount(upper) < 0x100000
    modifies k.ram, k`linearDir
    ensures k.linearDir == kp && TablesBuilt(k.Mem(), kp, TableCount(upper), upper)
  {
    hide Cell, Clear, Poke;
    k.linearDir := kp;
    k.ClearPage(kp);
    var memEnd := upper / TABLE_BYTES;
    var mem := 0;
    var i1 := 0;
    while i1 <= memEnd
      invariant 0 <= i1 <= memEnd + 1 && (i1 <= memEnd ==> mem == i1 * TABLE_BYTES)
      invariant k.linearDir == kp && TablesBuilt(k.Mem(), kp, i1, upper)
    {
      ghost var m := k.Mem();
      var pt := kp + 1 + i1;
      k.ClearPage(pt);
      k.Store(kp, i1, Entry(pt, LINEAR_ALLOCATED));
      mem := FillTable(k, pt, i1, upper, mem);
      TableAdded(m, k.Mem(), kp, i1, upper);
      i1 := i1 + 1;
    }
  }

  lemma TableAdded(m: Ram, m': Ram, kp: PageNo, n: Slot, upper: nat)
    requires n < 64 && kp + 2 + n < 0x100000 && TablesBuilt(m, kp, n, upper)
    requires forall f: PageNo, t: Slot {:trigger Cell(m', f, t)} ::
               Cell(m', f, t) == if f == kp + 1 + n then TableWord(PageAt(n, t), upper)
                                 else if f == kp && t == n then Entry(kp + 1 + n, LINEAR_ALLOCATED)
                                 else Cell(m, f, t)
    ensures TablesBuilt(m', kp, n + 1, upper)
  {
    hide Cell, TableWord;
    forall s: Slot
      ensures Cell(m', kp, s) == if s < n + 1 then Entry(kp + 1 + s, LINEAR_ALLOCATED) else 0
    {
      assert Cell(m, kp, s) == if s < n then Entry(kp + 1 + s, LINEAR_ALLOCATED) else 0;
    }
    forall f: PageNo, t: Slot | kp < f <= kp + n + 1
      ensures Cell(m', f, t) == TableWord(PageAt(f - kp - 1, t), upper)
    {
      assert f <= kp + n ==> Cell(m, f, t) == TableWord(PageAt(f - kp - 1, t), upper);
    }
  }

  lemma BuiltLinear(m: Ram, kp: PageNo, upper: nat)
    requires 0x100000 <= upper < 0x1000_0000 && kp + 1 + TableCount(upper) < 0x100000
    requires TablesBuilt(m, kp, TableCount(upper), upper)
    ensures LinearOk(m, kp, TableCount(upper))
    ensures forall g: PageNo {:trigger LinearEntry(m, kp, g)} :: InTables(g, TableCount(upper)) ==>
              LinearEntry(m, kp, g) == TableWord(g, upper)
  {
    hide TableWord;
    forall g: PageNo | InTables(g, TableCount(upper))
      ensures LinearEntry(m, kp, g) == TableWord(g, upper)
    {
      BuiltEntry(m, kp, upper, g);
    }
  }

  lemma BuiltEntry(m: Ram, kp: PageNo, upper: nat, g: PageNo)
    requires 0x100000 <= upper < 0x1000_0000 && kp + 1 + TableCount(upper) < 0x100000
    requires TablesBuilt(m, kp, TableCount(upper), upper) && InTables(g, TableCount(upper))
    ensures LinearEntry(m, kp, g) == TableWord(g, upper)
  {
    assert Dir(g) < TableCount(upper);
    SplitPage(g);
    hide TableWord, Cell, Entry, Tab, Dir, PageAt, TableCount;
    assert Cell(m, kp, Dir(g)) == Entry(kp + 1 + Dir(g), LINEAR_ALLOCATED);
    assert Cell(m, kp + 1 + Dir(g), Tab(g)) == TableWord(PageAt(Dir(g), Tab(g)), upper);
  }

  lemma SplitPage(g: PageNo)
    ensures PageAt(Dir(g), Tab(g)) == g
  {
  }

  // ---------------------------------------------------------------- linear_block

  /** From m to m' the frames lo..hi have been claimed, and no other linear entry changed. */
  ghost predicate BlockedRange(m: Ram, m': Ram, ld: PageNo, T: nat, lo: nat, hi: nat) {
    && LinearOk(m', ld, T)
    && (forall s: Slot {:trigger Cell(m', ld, s)} :: Cell(m', ld, s) == Cell(m, ld, s))
    && (forall g: PageNo {:trigger LinearEntry(m', ld, g)} :: InTables(g, T) ==>
          LinearEntry(m', ld, g) == if lo <= g < hi then Entry(g, LINEAR_ALLOCATED) else LinearEntry(m, ld, g))
  }

  /** One step of the loop of linear_block. */
  method BlockFrame(k: Kernel, g: PageNo, ghost m: Ram, ghost lo: nat, ghost T: nat)
    requires k.ram.Length == RAM_WORDS && LinearOk(m, k.linearDir, T)
    requires BlockedRange(m, k.Mem(), k.linearDir, T, lo, g) && lo <= g && InTables(g, T)
    modifies k.ram
    ensures BlockedRange(m, k.Mem(), k.linearDir, T, lo, g as nat + 1)
    ensures forall f: PageNo, i: Slot {:trigger Cell(k.Mem(), f, i)} ::
              NotLinearTable(m, k.linearDir, T, f) ==> Cell(k.Mem(), f, i) == Cell(old(k.Mem()), f, i)
  {
    hide Cell, LinearEntry, LinearOk, NotLinearTable, Dir, Tab, BlockedRange, InTables;
    BlockOne(m, k.Mem(), k.linearDir, T, lo, g);
    k.Store(Frame(k.Load(k.linearDir, Dir(g))), Tab(g), Entry(g, LINEAR_ALLOCATED));
  }

  /** linear_block: every frame the byte range touches is claimed. */
  method LinearBlock(k: Kernel, start: nat, end: nat, ghost T: nat)
    requires k.ram.Length == RAM_WORDS && LinearOk(k.Mem(), k.linearDir, T)
    requires 1 <= end && (end - 1) / 4096 < T * 1024
    modifies k.ram
    ensures BlockedRange(old(k.Mem()), k.Mem(), k.linearDir, T, start / 4096, (end - 1) / 4096 + 1)
    ensures forall f: PageNo, i: Slot {:trigger Cell(k.Mem(), f, i)} ::
              NotLinearTable(old(k.Mem()), k.linearDir, T, f) ==> Cell(k.Mem(), f, i) == Cell(old(k.Mem()), f, i)
  {
    hide Cell, LinearEntry, LinearOk, NotLinearTable, BlockedRange;
    ghost var m := k.Mem();
    var first := start / 4096;
    TablesLimit(m, k.linearDir, T, first);
    var stop := (end - 1) / 4096 + 1;
    var address := first;
    while address < stop
      invariant first <= address && (address == first || address <= stop) && stop <= T * 1024 <= 0x10000
      invariant BlockedRange(m, k.Mem(), k.linearDir, T, first, address)
      invariant forall f: PageNo, i: Slot {:trigger Cell(k.Mem(), f, i)} ::
                  NotLinearTable(m, k.linearDir, T, f) ==> Cell(k.Mem(), f, i) == Cell(m, f, i)
    {
      BlockFrame(k, address, m, first, T);
      address := address + 1;
    }
    if address != stop {
      EmptyRange(m, k.Mem(), k.linearDir, T, first, stop);
    }
  }

  /** Frame f is not one of the linear tables. */
  ghost predicate NotLinearTable(m: Ram, ld: PageNo, T: nat, f: PageNo) {
    forall s: Slot :: s < T ==> f != Frame(Cell(m, ld, s))
  }

  lemma TablesLimit(m: Ram, ld: PageNo, T: nat, lo: nat)
    requires LinearOk(m, ld, T)
    ensures T <= 64
    ensures BlockedRange(m, m, ld, T, lo, lo)
  {
  }

  lemma EmptyRange(m: Ram, m': Ram, ld: PageNo, T: nat, lo: nat, hi: nat)
    requires BlockedRange(m, m', ld, T, lo, lo) && hi <= lo
    ensures BlockedRange(m, m', ld, T, lo, hi)
  {
    hide Cell, LinearEntry, LinearOk, InTables;
  }

  lemma BlockOne(m: Ram, m1: Ram, ld: PageNo, T: nat, lo: nat, g: PageNo)
    requires LinearOk(m, ld, T) && BlockedRange(m, m1, ld, T, lo, g) && lo <= g && InTables(g, T)
    ensures var m2 := PokeLinear(m1, ld, g, Entry(g, LINEAR_ALLOCATED));
            && BlockedRange(m, m2, ld, T, lo, g as nat + 1)
            && forall f: PageNo, i: Slot {:trigger Cell(m2, f, i)} ::
                 NotLinearTable(m, ld, T, f) ==> Cell(m2, f, i) == Cell(m1, f, i)
  {
    hide LinearEntry, LinearOk, InTables;
    PokeLinearEffect(m1, ld, T, g, Entry(g, LINEAR_ALLOCATED));
    BlockOneTable(m, m1, ld, T, lo, g);
  }

  lemma BlockOneTable(m: Ram, m1: Ram, ld: PageNo, T: nat, lo: nat, g: PageNo)
    requires BlockedRange(m, m1, ld, T, lo, g) && InTables(g, T)
    ensures !NotLinearTable(m, ld, T, Frame(Cell(m1, ld, Dir(g))))
  {
    hide LinearEntry, LinearOk, Cell;
    assert Cell(m1, ld, Dir(g)) == Cell(m, ld, Dir(g)) && Dir(g) < T;
  }

  // ---------------------------------------------------------- the first frames

  /** The `count` frames from s, where the cursor of ZONE_DMA stands, are available. */
  ghost predicate DmaReady(m: Ram, ld: PageNo, zones: seq<Zone>, upper: nat, count: nat, s: PageNo) {
    && ZonesOk(zones, upper) && 1 <= count && s == Frame(zones[ZONE_DMA].next)
    && s + count <= SweepEnd(zones[ZONE_DMA].end / TABLE_BYTES, TableCount(upper))
    && s + count <= 0x10000
    && forall g: PageNo :: s <= g < s + count ==> Available(m, ld, g)
  }

  /** Then a run of `count` is complete at position count - 1, and no earlier. */
  lemma DmaRun(m: Ram, ld: PageNo, zones: seq<Zone>, upper: nat, count: nat, s: PageNo)
    requires DmaReady(m, ld, zones, upper, count, s)
    ensures |zones| == 3 && TableCount(upper) <= 64 && zones[ZONE_DMA].next != 0
    ensures FirstRunAt(ZoneMarks(m, ld, zones[ZONE_DMA], TableCount(upper)), count - 1, count)
    ensures var order := Order(zones[ZONE_DMA], TableCount(upper));
            count <= |order| && order[0] == s && order[count - 1] == s + count - 1
  {
    hide Available;
    var T := TableCount(upper);
    var order := Order(zones[ZONE_DMA], T);
    var bits := ZoneMarks(m, ld, zones[ZONE_DMA], T);
    forall j | 0 <= j < count
      ensures j < |order| && order[j] == s + j && bits[j]
    {
      assert FirstSweep(zones[ZONE_DMA], T)[j] == s + j;
      assert bits[j] == Available(m, ld, order[j]);
    }
  }

  lemma FirstRunUnique(bits: seq<bool>, d: nat, e: nat, count: nat)
    requires FirstRunAt(bits, d, count) && FirstRunAt(bits, e, count)
    ensures d == e && !NoRun(bits, count)
  {
  }

  /** So the search takes exactly these frames, marks the last and moves the cursor behind them. */
  lemma DmaSearch(m: Ram, ld: PageNo, zones: seq<Zone>, upper: nat, count: nat, s: PageNo,
                  m': Ram, zones': seq<Zone>, address: nat, z: nat, e: nat)
    requires DmaReady(m, ld, zones, upper, count, s)
    requires |zones| == 3 && TableCount(upper) <= 64
    requires Allocates(m, ld, zones, TableCount(upper), count, ZONE_DMA, m', zones', address, z, e)
    ensures address == Address(s) && m' == PokeLinear(m, ld, s + count - 1, LINEAR_ALLOCATED)
    ensures zones' == zones[ZONE_DMA := zones[ZONE_DMA].(next := address + count * 4096)]
  {
    hide PokeLinear, FirstRunAt, NoRun, ZoneMarks, Order;
    DmaRun(m, ld, zones, upper, count, s);
    var bits := ZoneMarks(m, ld, zones[ZONE_DMA], TableCount(upper));
    FirstRunUnique(bits, count - 1, count - 1, count);
    if z == ZONE_DMA {
      FirstRunUnique(bits, e, count - 1, count);
    }
  }

  lemma DmaFound(m: Ram, ld: PageNo, zones: seq<Zone>, upper: nat, count: nat, s: PageNo)
    requires DmaReady(m, ld, zones, upper, count, s)
    requires |zones| == 3 && TableCount(upper) <= 64
    ensures !Exhausted(m, ld, zones, TableCount(upper), count, ZONE_DMA)
  {
    hide FirstRunAt, NoRun, ZoneMarks;
    DmaRun(m, ld, zones, upper, count, s);
    FirstRunUnique(ZoneMarks(m, ld, zones[ZONE_DMA], TableCount(upper)), count - 1, count - 1, count);
  }

  lemma ReadyZones(m: Ram, ld: PageNo, zones: seq<Zone>, upper: nat, count: nat, s: PageNo)
    requires DmaReady(m, ld, zones, upper, count, s)
    ensures ZonesOk(zones, upper) && |zones| == 3 && TableCount(upper) <= 64 && s + count <= 0x10000
  {
  }

  /** get_free_pages(count, ZONE_DMA) at boot. */
  method TakeDma(k: Kernel, count: nat, ghost upper: nat, ghost s: PageNo) returns (found: bool, g: PageNo)
    requires k.ram.Length == RAM_WORDS && LinearOk(k.Mem(), k.linearDir, TableCount(upper))
    requires DmaReady(k.Mem(), k.linearDir, k.zones, upper, count, s)
    modifies k.ram, k`zones
    ensures found && g == s && |old(k.zones)| == 3
    ensures k.Mem() == PokeLinear(old(k.Mem()), k.linearDir, s + count - 1, LINEAR_ALLOCATED)
    ensures Address(s) + count * 4096 < 0x1_0000_0000
    ensures k.zones == old(k.zones)[ZONE_DMA := old(k.zones)[ZONE_DMA].(next := Address(s) + count * 4096)]
  {
    hide LinearOk, Available, LinearEntry, PokeLinear, ZonesOk, Allocates, Exhausted, DmaReady;
    ReadyZones(k.Mem(), k.linearDir, k.zones, upper, count, s);
    LinearTables(k.Mem(), k.linearDir, TableCount(upper));
    DmaFound(k.Mem(), k.linearDir, k.zones, upper, count, s);
    ghost var m, zs := k.Mem(), k.zones;
    var address: nat;
    ghost var z: nat;
    ghost var e: nat;
    found, address, z, e := GetFreePages(k, count, ZONE_DMA, TableCount(upper));
    g := 0;
    if found {
      DmaSearch(m, k.linearDir, zs, upper, count, s, k.Mem(), k.zones, address, z, e);
      g := address / 4096;
    }
  }

  /** The first frame behind the linear tables of a kernel image that ends below frame kp. */
  function Behind(kp: nat, upper: nat): nat {
    kp + 1 + TableCount(upper)
  }

  /** The linear entry of frame g when the frames of the directory and tables and the frames
      lo..hi have been claimed. */
  function BootEntry(kp: nat, upper: nat, lo: nat, hi: nat, g: PageNo): Word {
    if kp <= g < Behind(kp, upper) || lo <= g < hi then Entry(g, LINEAR_ALLOCATED) else TableWord(g, upper)
  }

  /** The linear directory and tables stand behind the kernel image, and hold the boot entries but
      for the frames in `hole`. */
  ghost predicate BootTables(m: Ram, kp: PageNo, upper: nat, lo: nat, hi: nat, hole: set<PageNo>) {
    && 0x100000 <= upper < 0x1000_0000 && Behind(kp, upper) < TableCount(upper) * 1024
    && LinearOk(m, kp, TableCount(upper))
    && (forall s: Slot {:trigger Cell(m, kp, s)} :: s < TableCount(upper) ==>
          Frame(Cell(m, kp, s)) == kp + 1 + s)
    && (forall g: PageNo {:trigger LinearEntry(m, kp, g)} :: InTables(g, TableCount(upper)) && g !in hole ==>
          LinearEntry(m, kp, g) == BootEntry(kp, upper, lo, hi, g))
  }

  /** Frame f is outside the directory and the tables. */
  predicate Outside(kp: nat, upper: nat, f: nat) {
    f < kp || Behind(kp, upper) <= f
  }

  lemma OutsideIsNotTable(m: Ram, kp: PageNo, upper: nat, lo: nat, hi: nat, hole: set<PageNo>, f: PageNo)
    requires BootTables(m, kp, upper, lo, hi, hole) && Outside(kp, upper, f)
    ensures NotLinearTable(m, kp, TableCount(upper), f) && f != kp
  {
    hide LinearEntry, LinearOk, BootEntry;
    forall s: Slot | s < TableCount(upper)
      ensures f != Frame(Cell(m, kp, s))
    {
    }
  }

  lemma ClearOutside(m: Ram, kp: PageNo, upper: nat, lo: nat, hi: nat, hole: set<PageNo>, f: PageNo)
    requires BootTables(m, kp, upper, lo, hi, hole) && Outside(kp, upper, f)
    ensures BootTables(Clear(m, f), kp, upper, lo, hi, hole)
  {
    hide BootEntry;
    OutsideIsNotTable(m, kp, upper, lo, hi, hole, f);
    var m' := Clear(m, f);
    assert forall s: Slot {:trigger Cell(m', kp, s)} :: Cell(m', kp, s) == Cell(m, kp, s);
    forall g: PageNo | InTables(g, TableCount(upper))
      ensures LinearEntry(m', kp, g) == LinearEntry(m, kp, g)
    {
      assert Dir(g) < TableCount(upper);
      assert Frame(Cell(m, kp, Dir(g))) != f;
    }
  }

  /** Claiming the frames lo..hi on top of the boot entries. */
  lemma BlockBoot(m: Ram, m': Ram, kp: PageNo, upper: nat, lo: nat, hi: nat, hole: set<PageNo>, from: nat, to: nat)
    requires BootTables(m, kp, upper, lo, hi, hole) && BlockedRange(m, m', kp, TableCount(upper), from, to)
    requires lo <= hi == from <= to && forall g: PageNo :: g in hole ==> from <= g < to
    ensures BootTables(m', kp, upper, lo, to, {})
  {
    hide LinearEntry, LinearOk, Cell, TableWord;
    forall s: Slot | s < TableCount(upper)
      ensures Frame(Cell(m', kp, s)) == kp + 1 + s
    {
      assert Cell(m', kp, s) == Cell(m, kp, s);
    }
    forall g: PageNo | InTables(g, TableCount(upper))
      ensures LinearEntry(m', kp, g) == BootEntry(kp, upper, lo, to, g)
    {
      assert g !in hole ==> LinearEntry(m, kp, g) == BootEntry(kp, upper, lo, hi, g);
    }
  }

  /** A frame handed out at boot is marked, and will be claimed next. */
  lemma MarkBoot(m: Ram, kp: PageNo, upper: nat, lo: nat, hi: nat, g: PageNo)
    requires BootTables(m, kp, upper, lo, hi, {}) && InTables(g, TableCount(upper))
    ensures BootTables(PokeLinear(m, kp, g, LINEAR_ALLOCATED), kp, upper, lo, hi, {g})
    ensures forall f: PageNo, i: Slot {:trigger Cell(PokeLinear(m, kp, g, LINEAR_ALLOCATED), f, i)} ::
              Outside(kp, upper, f) ==> Cell(PokeLinear(m, kp, g, LINEAR_ALLOCATED), f, i) == Cell(m, f, i)
  {
    PokeLinearEffect(m, kp, TableCount(upper), g, LINEAR_ALLOCATED);
    var m' := PokeLinear(m, kp, g, LINEAR_ALLOCATED);
    assert Dir(g) < TableCount(upper);
    hide LinearEntry, LinearOk, BootEntry;
    assert forall s: Slot {:trigger Cell(m', kp, s)} :: Cell(m', kp, s) == Cell(m, kp, s);
  }

  lemma BootLinearOk(m: Ram, kp: PageNo, upper: nat, lo: nat, hi: nat, hole: set<PageNo>)
    requires BootTables(m, kp, upper, lo, hi, hole)
    ensures LinearOk(m, kp, TableCount(upper)) && TableCount(upper) <= 64
  {
  }

  /** One boot-time allocation from ZONE_DMA: `count` frames from s are taken, cleared and claimed. */
  method ClaimAtBoot(k: Kernel, count: nat, kp: PageNo, upper: nat, ghost s: PageNo, ghost lo: nat)
    returns (found: bool, g: PageNo)
    requires k.ram.Length == RAM_WORDS && k.linearDir == kp && 1 <= count <= 2
    requires BootTables(k.Mem(), kp, upper, lo, s, {}) && lo <= s
    requires DmaReady(k.Mem(), kp, k.zones, upper, count, s)
    requires s + count <= TableCount(upper) * 1024 && (s + count <= kp || Behind(kp, upper) <= s)
    modifies k.ram, k`zones
    ensures found && g == s && |old(k.zones)| == 3
    ensures BootTables(k.Mem(), kp, upper, lo, s + count, {})
    ensures forall f: PageNo, i: Slot {:trigger Cell(k.Mem(), f, i)} :: Outside(kp, upper, f) ==>
              Cell(k.Mem(), f, i) == if s <= f < s + count then 0 else Cell(old(k.Mem()), f, i)
    ensures Address(s) + count * 4096 < 0x1_0000_0000
    ensures k.zones == old(k.zones)[ZONE_DMA := old(k.zones)[ZONE_DMA].(next := Address(s) + count * 4096)]
  {
    hide LinearOk, Available, LinearEntry, PokeLinear, ZonesOk, DmaReady, BootTables, Cell, BlockedRange,
         NotLinearTable;
    ghost var m := k.Mem();
    ghost var T := TableCount(upper);
    BootLinearOk(m, kp, upper, lo, s, {});
    ReadyZones(m, kp, k.zones, upper, count, s);
    found, g := TakeDma(k, count, upper, s);
    MarkBoot(m, kp, upper, lo, s, s + count - 1);
    ClearOutside(k.Mem(), kp, upper, lo, s, {s + count - 1}, s);
    k.ClearPage(g);
    if count == 2 {
      ClearOutside(k.Mem(), kp, upper, lo, s, {s + count - 1}, s + 1);
      k.ClearPage(g + 1);
    }
    ghost var m1 := k.Mem();
    BootLinearOk(m1, kp, upper, lo, s, {s + count - 1});
    LinearBlock(k, Address(g), Address(g) + count * 4096, T);
    BlockBoot(m1, k.Mem(), kp, upper, lo, s, {s + count - 1}, s, s + count);
    forall f: PageNo, i: Slot | Outside(kp, upper, f)
      ensures Cell(k.Mem(), f, i) == if s <= f < s + count then 0 else Cell(m, f, i)
    {
      OutsideIsNotTable(m1, kp, upper, lo, s, {s + count - 1}, f);
    }
  }

  // ------------------------------------------------------- kmemory_linear_setup

  lemma BlockedChain(m0: Ram, m1: Ram, m2: Ram, ld: PageNo, T: nat, lo: nat, mid: nat, hi: nat)
    requires BlockedRange(m0, m1, ld, T, lo, mid) && BlockedRange(m1, m2, ld, T, mid, hi) && lo <= mid <= hi
    ensures BlockedRange(m0, m2, ld, T, lo, hi)
  {
    hide LinearEntry, LinearOk, Cell, InTables;
    forall s: Slot
      ensures Cell(m2, ld, s) == Cell(m0, ld, s)
    {
      assert Cell(m1, ld, s) == Cell(m0, ld, s);
    }
    forall g: PageNo | InTables(g, T)
      ensures LinearEntry(m2, ld, g) == if lo <= g < hi then Entry(g, LINEAR_ALLOCATED) else LinearEntry(m0, ld, g)
    {
      assert LinearEntry(m1, ld, g) == if lo <= g < mid then Entry(g, LINEAR_ALLOCATED) else LinearEntry(m0, ld, g);
    }
  }

  lemma BlockedDirectory(m0: Ram, m1: Ram, ld: PageNo, T: nat, lo: nat, hi: nat, s: Slot)
    requires BlockedRange(m0, m1, ld, T, lo, hi)
    ensures LinearOk(m1, ld, T) && Cell(m1, ld, s) == Cell(m0, ld, s)
  {
  }

  lemma BuiltDirectory(m: Ram, kp: PageNo, n: nat, upper: nat, s: Slot)
    requires n <= 64 && kp + 1 + n < 0x100000 && TablesBuilt(m, kp, n, upper) && s < n
    ensures LinAllocated(Cell(m, kp, s)) && Frame(Cell(m, kp, s)) == kp + 1 + s
  {
  }

  /** The directory and the tables themselves are claimed. */
  method BlockTables(k: Kernel, kp: PageNo, upper: nat)
    requires k.ram.Length == RAM_WORDS && k.linearDir == kp
    requires 0x100000 <= upper < 0x1000_0000 && Behind(kp, upper) < TableCount(upper) * 1024
    requires TablesBuilt(k.Mem(), kp, TableCount(upper), upper)
    modifies k.ram
    ensures BlockedRange(old(k.Mem()), k.Mem(), kp, TableCount(upper), kp, Behind(kp, upper))
  {
    hide LinearOk, LinearEntry, BlockedRange, TablesBuilt, Cell, LinAllocated, NotLinearTable;
    ghost var m := k.Mem();
    ghost var T := TableCount(upper);
    BuiltLinear(m, kp, upper);
    LinearBlock(k, Address(kp), Address(kp) + 4096, T);
    var memEnd := upper / TABLE_BYTES;
    var i1 := 0;
    while i1 <= memEnd
      invariant 0 <= i1 <= memEnd + 1
      invariant BlockedRange(m, k.Mem(), kp, T, kp, kp + 1 + i1)
    {
      BlockedDirectory(m, k.Mem(), kp, T, kp, kp + 1 + i1, i1);
      BuiltDirectory(m, kp, T, upper, i1);
      var addr := k.Load(kp, i1);
      if LinAllocated(addr) {
        ghost var m1 := k.Mem();
        LinearBlock(k, Address(Frame(addr)), Address(Frame(addr)) + 4096, T);
        BlockedChain(m, m1, k.Mem(), kp, T, kp, kp + 1 + i1, kp + 2 + i1);
      }
      i1 := i1 + 1;
    }
  }

  lemma BootTablesReady(m: Ram, m': Ram, kp: PageNo, upper: nat, s: nat)
    requires 0x100000 <= upper < 0x1000_0000 && Behind(kp, upper) < TableCount(upper) * 1024
    requires TablesBuilt(m, kp, TableCount(upper), upper)
    requires BlockedRange(m, m', kp, TableCount(upper), kp, Behind(kp, upper))
    ensures BootTables(m', kp, upper, s, s, {})
  {
    BuiltLinear(m, kp, upper);
    hide LinearEntry, LinearOk, Cell, TableWord, TablesBuilt;
    forall t: Slot | t < TableCount(upper)
      ensures Frame(Cell(m', kp, t)) == kp + 1 + t
    {
      BuiltDirectory(m, kp, TableCount(upper), upper, t);
      assert Cell(m', kp, t) == Cell(m, kp, t);
    }
    forall g: PageNo | InTables(g, TableCount(upper))
      ensures LinearEntry(m', kp, g) == BootEntry(kp, upper, s, s, g)
    {
      assert LinearEntry(m, kp, g) == TableWord(g, upper);
    }
  }

  /** Which frames the allocator may hand out after boot. */
  lemma BootAvailable(m: Ram, kp: PageNo, upper: nat, lo: nat, hi: nat, g: PageNo)
    requires BootTables(m, kp, upper, lo, hi, {})
    ensures Available(m, kp, g) <==>
              InTables(g, TableCount(upper)) && Offered(g, upper)
              && Outside(kp, upper, g) && !(lo <= g < hi)
  {
    hide LinearEntry, Cell, BootEntry, LinAvailable, LinearOk;
    BootLinearOk(m, kp, upper, lo, hi, {});
    AvailableInTables(m, kp, TableCount(upper), g);
    BootEntryAvailable(kp, upper, lo, hi, g);
  }

  lemma AvailableInTables(m: Ram, ld: PageNo, T: nat, g: PageNo)
    requires LinearOk(m, ld, T)
    ensures Available(m, ld, g) <==> InTables(g, T) && LinAvailable(LinearEntry(m, ld, g))
  {
    hide LinearEntry, LinAvailable, LinAllocated, Cell;
    assert InTables(g, T) <==> Dir(g) < T;
  }

  lemma BootEntryAvailable(kp: nat, upper: nat, lo: nat, hi: nat, g: PageNo)
    ensures LinAvailable(BootEntry(kp, upper, lo, hi, g)) <==>
              Offered(g, upper) && Outside(kp, upper, g) && !(lo <= g < hi)
  {
    hide Offered, Entry, TableCount;
    NotAvailableFlags(g);
  }

  /** Within the present tables a frame is offered exactly when it begins below the end of memory,
      but for one frame too many when the memory size is a multiple of 4 MiB. */
  lemma OfferedExactly(g: PageNo, upper: nat)
    requires InTables(g, TableCount(upper))
    ensures Offered(g, upper) <==> g * 4096 < upper || (g * 4096 == upper && upper % TABLE_BYTES == 0)
  {
  }

  /** The first of the three frames kmemory_linear_setup takes for itself: behind the tables when these
      end between 1 MiB and 16 MiB, and otherwise at 1 MiB. */
  function FirstFrame(kp: nat, upper: nat): nat {
    if 0x100 < Behind(kp, upper) < 0x1000 then Behind(kp, upper) else 0x100
  }

  /** Directory, tables and the first three frames that are claimed lie in memory, and the latter apart
      from the former. */
  predicate BootRoom(kp: nat, upper: nat) {
    && 0x100000 <= upper < 0x1000_0000 && 1 <= kp
    && Behind(kp, upper) * 4096 <= upper && (FirstFrame(kp, upper) + 3) * 4096 <= upper
    && (Behind(kp, upper) <= FirstFrame(kp, upper) || FirstFrame(kp, upper) + 3 <= kp)
  }

  /** The zones as kmemory_linear_setup sets them; `la` is linear_address. */
  function BootZones(la: Word, upper: Word): seq<Zone> {
    [ if upper > 0x100_0000
      then Zone(if la > 0x100_0000 then la else 0x100_0000, 0x100_0000, upper)
      else Zone(0, 0, 0),
      Zone(if la > 0x10_0000 && la < 0x100_0000 then la else 0x10_0000, 0x10_0000,
           if 0x100_0000 < upper then 0x100_0000 else upper),
      Zone(0x1000, 0x1000, 0x10_0000) ]
  }

  lemma BootZonesOk(kp: nat, upper: nat)
    requires BootRoom(kp, upper)
    ensures ZonesOk(BootZones(Address(Behind(kp, upper)), upper), upper)
    ensures Frame(BootZones(Address(Behind(kp, upper)), upper)[ZONE_DMA].next) == FirstFrame(kp, upper)
  {
  }

  lemma DmaZoneAtBoot(kp: nat, upper: nat)
    requires BootRoom(kp, upper)
    ensures FirstFrame(kp, upper) + 3 < 0x10000
    ensures BootZones(Address(Behind(kp, upper)), upper)[ZONE_DMA].start == 0x10_0000
    ensures BootZones(Address(Behind(kp, upper)), upper)[ZONE_DMA].end == Smaller(upper, 0x100_0000)
  {
  }

  lemma NormalZone(kp: nat, upper: nat)
    requires BootRoom(kp, upper) && upper > 0x100_0000 && Behind(kp, upper) <= 0x1000
    ensures BootZones(Address(Behind(kp, upper)), upper)[ZONE_NORMAL] == Zone(0x100_0000, 0x100_0000, upper)
  {
  }

  /** The cursors and the first frame claimed, told from linear_address, the first byte behind the tables. */
  lemma ZonesAtBoot(kp: nat, upper: nat, la: nat, first: nat)
    requires BootRoom(kp, upper) && la == (kp + 2 + upper / 0x40_0000) * 4096
    requires first == if 0x10_0000 < la < 0x100_0000 then la else 0x10_0000
    ensures FirstFrame(kp, upper) == first / 4096 && first % 4096 == 0
    ensures var zones := BootZones(Address(Behind(kp, upper)), upper);
            && |zones| == 3 && zones[ZONE_KERNEL] == Zone(0x1000, 0x1000, 0x10_0000) && zones[ZONE_DMA].next == first
            && zones[ZONE_NORMAL].next ==
               if upper <= 0x100_0000 then 0 else if la > 0x100_0000 then la else 0x100_0000
  {
  }

  lemma BootReady(m: Ram, kp: PageNo, upper: nat, zones: seq<Zone>, lo: nat, s: PageNo, count: nat)
    requires BootRoom(kp, upper) && BootTables(m, kp, upper, lo, s, {}) && 1 <= count
    requires lo == FirstFrame(kp, upper) <= s && s + count <= lo + 3
    requires ZonesOk(zones, upper) && Frame(zones[ZONE_DMA].next) == s
    ensures DmaReady(m, kp, zones, upper, count, s)
  {
    hide BootTables, Available;
    forall g: PageNo | s <= g < s + count
      ensures Available(m, kp, g)
    {
      BootAvailable(m, kp, upper, lo, s, g);
    }
  }

  /** The page directory and the two pages of virtual_block. */
  method FirstClaims(k: Kernel, kp: PageNo, upper: nat)
    requires k.ram.Length == RAM_WORDS && k.linearDir == kp && BootRoom(kp, upper)
    requires BootTables(k.Mem(), kp, upper, FirstFrame(kp, upper), FirstFrame(kp, upper), {})
    requires ZonesOk(k.zones, upper) && Frame(k.zones[ZONE_DMA].next) == FirstFrame(kp, upper)
    modifies k.ram, k`zones, k`virtualDir
    ensures k.virtualDir == FirstFrame(kp, upper) && ZonesOk(k.zones, upper)
    ensures |old(k.zones)| == |k.zones| == 3 && k.zones[ZONE_NORMAL] == old(k.zones)[ZONE_NORMAL]
    ensures k.zones[ZONE_KERNEL] == old(k.zones)[ZONE_KERNEL]
    ensures k.zones[ZONE_DMA] == old(k.zones)[ZONE_DMA].(next := Address(FirstFrame(kp, upper) + 3))
    ensures BootTables(k.Mem(), kp, upper, FirstFrame(kp, upper), FirstFrame(kp, upper) + 3, {})
    ensures forall t: Slot {:trigger Cell(k.Mem(), k.virtualDir, t)} :: Cell(k.Mem(), k.virtualDir, t) == 0
  {
    hide LinearOk, LinearEntry, BlockedRange, Cell, BootTables, DmaReady, ZonesOk, BootZones;
    ghost var s := FirstFrame(kp, upper);
    BootReady(k.Mem(), kp, upper, k.zones, s, s, 1);
    ghost var zs := k.zones;
    var found, directory, block;
    found, directory := ClaimAtBoot(k, 1, kp, upper, s, s);
    k.virtualDir := directory;
    CursorAfter(zs, upper, s, 1);
    zs := k.zones;
    BootReady(k.Mem(), kp, upper, k.zones, s, s + 1, 2);
    found, block := ClaimAtBoot(k, 2, kp, upper, s + 1, s);
    CursorAfter(zs, upper, s + 1, 2);
  }

  lemma RoomBehind(kernelMax: nat, upper: nat)
    requires 1 <= kernelMax && BootRoom((kernelMax - 1) / 4096 + 1, upper)
    ensures var kp := (kernelMax - 1) / 4096 + 1;
            && kp + 1 + TableCount(upper) < 0x10000 && 0x100000 <= upper < 0x1000_0000
            && Behind(kp, upper) == kp + 1 + TableCount(upper) < TableCount(upper) * 1024
            && FirstFrame(kp, upper) < 0x10000
  {
  }

  /** The linear directory and tables are built and claimed. */
  method OfferFrames(k: Kernel, kp: PageNo, upper: nat, ghost s: nat)
    requires k.ram.Length == RAM_WORDS && 0x100000 <= upper < 0x1000_0000
    requires Behind(kp, upper) < TableCount(upper) * 1024
    modifies k.ram, k`linearDir
    ensures k.linearDir == kp && BootTables(k.Mem(), kp, upper, s, s, {})
  {
    hide LinearOk, LinearEntry, BlockedRange, TablesBuilt, Cell, BootTables;
    BuildTables(k, kp, upper);
    ghost var m := k.Mem();
    BlockTables(k, kp, upper);
    BootTablesReady(m, k.Mem(), kp, upper, s);
  }

  /** The zones are set, and the first frames are taken from them. */
  method StartZones(k: Kernel, kp: PageNo, upper: nat, ghost la: nat, ghost first: nat)
    requires k.ram.Length == RAM_WORDS && k.linearDir == kp && BootRoom(kp, upper)
    requires BootTables(k.Mem(), kp, upper, FirstFrame(kp, upper), FirstFrame(kp, upper), {})
    requires la == (kp as nat + 2 + upper / 0x40_0000) * 4096
    requires first == if 0x10_0000 < la < 0x100_0000 then la else 0x10_0000
    modifies k.ram, k`zones, k`virtualDir
    ensures k.virtualDir as nat == FirstFrame(kp, upper) == first / 4096 && ZonesOk(k.zones, upper) && |k.zones| == 3
    ensures BootTables(k.Mem(), kp, upper, FirstFrame(kp, upper), FirstFrame(kp, upper) + 3, {})
    ensures forall t: Slot {:trigger Cell(k.Mem(), k.virtualDir, t)} :: Cell(k.Mem(), k.virtualDir, t) == 0
    ensures upper > 0x100_0000 && Behind(kp, upper) <= 0x1000 ==>
              k.zones[ZONE_NORMAL] == Zone(0x100_0000, 0x100_0000, upper)
    ensures FirstFrame(kp, upper) + 3 < 0x10000
    ensures k.zones[ZONE_DMA] == Zone(Address(FirstFrame(kp, upper) + 3), 0x10_0000, Smaller(upper, 0x100_0000))
    ensures k.zones[ZONE_KERNEL] == Zone(0x1000, 0x1000, 0x10_0000)
    ensures k.zones[ZONE_DMA].next as nat == first + 0x3000
    ensures k.zones[ZONE_NORMAL].next as nat ==
            if upper <= 0x100_0000 then 0 else if la > 0x100_0000 then la else 0x100_0000
  {
    ZonesAtBoot(kp, upper, la, first);
    BootZonesOk(kp, upper);
    DmaZoneAtBoot(kp, upper);
    if upper > 0x100_0000 && Behind(kp, upper) <= 0x1000 {
      NormalZone(kp, upper);
    }
    hide LinearOk, LinearEntry, TablesBuilt, Cell, BootTables, ZonesOk, BootRoom, FirstFrame, TableCount, Behind,
         BootZones;
    k.zones := BootZones(Address(Behind(kp, upper)), upper);
    FirstClaims(k, kp, upper);
  }

  /** kmemory_linear_setup. `kp` is the first frame behind the kernel image. */
  method LinearSetup(k: Kernel, upper: nat, kernelMax: nat) returns (kp: PageNo)
    requires k.ram.Length == RAM_WORDS && 1 <= kernelMax && BootRoom((kernelMax - 1) / 4096 + 1, upper)
    modifies k, k.ram
    ensures kp == (kernelMax - 1) / 4096 + 1
    ensures k.upper == upper && AllocatorOk(k)
    ensures k.linearDir == kp && k.virtualDir == FirstFrame(kp, upper)
    ensures BootTables(k.Mem(), kp, upper, FirstFrame(kp, upper), FirstFrame(kp, upper) + 3, {})
    ensures forall t: Slot {:trigger Cell(k.Mem(), k.virtualDir, t)} :: Cell(k.Mem(), k.virtualDir, t) == 0
    ensures k.records == [] && k.free == Null && k.used == Null && k.pagesIndex == 0 && k.heapNext == HEAP
    ensures k.freeList == [] && k.usedList == [] && k.lengths == []
    ensures k.roles == BootRoles(kp, upper)
    ensures |k.zones| == 3
    ensures upper > 0x100_0000 && Behind(kp, upper) <= 0x1000 ==>
              k.zones[ZONE_NORMAL] == Zone(0x100_0000, 0x100_0000, upper)
    ensures k.zones[ZONE_DMA] == Zone(Address(FirstFrame(kp, upper) + 3), 0x10_0000, Smaller(upper, 0x100_0000))
    ensures var la: nat := (kp as nat + 2 + upper / 0x40_0000) * 4096;
            var first: nat := if 0x10_0000 < la < 0x100_0000 then la else 0x10_0000;
            && k.virtualDir as nat == first / 4096
            && k.zones[ZONE_KERNEL] == Zone(0x1000, 0x1000, 0x10_0000)
            && k.zones[ZONE_DMA].next as nat == first + 0x3000
            && k.zones[ZONE_NORMAL].next as nat ==
               if upper <= 0x100_0000 then 0 else if la > 0x100_0000 then la else 0x100_0000
  {
    RoomBehind(kernelMax, upper);
    ghost var la: nat := ((kernelMax - 1) / 4096 + 1 + 2 + upper / 0x40_0000) * 4096;
    hide LinearOk, LinearEntry, BlockedRange, TablesBuilt, Cell, BootTables, ZonesOk, BootRoom, FirstFrame, TableCount,
         Behind, BootZones, BootRoles;
    kp := (kernelMax - 1) / 4096 + 1;
    ghost var s := FirstFrame(kp, upper);
    OfferFrames(k, kp, upper, s);
    StartZones(k, kp, upper, la, if 0x10_0000 < la < 0x100_0000 then la else 0x10_0000);
    ResetHeap(k);
    k.upper, k.roles := upper, BootRoles(kp, upper);
  }

  /** virtual_block is cleared and virtual_address is set. */
  method ResetHeap(k: Kernel)
    modifies k`records, k`free, k`used, k`pagesIndex, k`heapNext, k`freeList, k`usedList, k`lengths
    ensures k.records == [] && k.free == Null && k.used == Null && k.pagesIndex == 0 && k.heapNext == HEAP
    ensures k.freeList == [] && k.usedList == [] && k.lengths == []
  {
    k.records, k.free, k.used, k.pagesIndex := [], Null, Null, 0;
    k.heapNext := 0x1000_0000 / 4096;
    k.freeList, k.usedList, k.lengths := [], [], [];
  }

  lemma CursorAfter(zones: seq<Zone>, upper: nat, s: PageNo, count: nat)
    requires ZonesOk(zones, upper) && Frame(zones[ZONE_DMA].next) == s && 1 <= count <= 2 && s < 0x10000
    ensures |zones| == 3
    ensures var zones' := zones[ZONE_DMA := zones[ZONE_DMA].(next := Address(s) + count * 4096)];
            ZonesOk(zones', upper) && Frame(zones'[ZONE_DMA].next) == s + count
  {
    CursorMoves(zones, upper, ZONE_DMA, Address(s) + count * 4096);
  }

  /** What the frames are used for after kmemory_linear_setup. */
  ghost function BootRoles(kp: nat, upper: nat): (roles: seq<Role>)
    requires BootRoom(kp, upper)
    ensures |roles| == 0x100000
    ensures forall f: PageNo {:trigger roles[f]} :: roles[f] == BootRole(kp, upper, f)
  {
    seq(0x100000, f requires 0 <= f < 0x100000 => BootRole(kp, upper, f))
  }

  ghost function BootRole(kp: nat, upper: nat, f: PageNo): Role
    requires BootRoom(kp, upper)
  {
    var s := FirstFrame(kp, upper);
    if f == kp then LinDir
    else if kp < f < Behind(kp, upper) then LinTab(f - kp - 1)
    else if f == s then VirDir
    else if s < f < s + 3 then Reserved
    else Free
  }

  /** The state kmemory_linear_setup leaves: the paging structures are sound and nothing is mapped. */
  lemma BootRooted(p: Paging, kp: PageNo, upper: nat)
    requires BootRoom(kp, upper) && p.ld == kp && p.vd == FirstFrame(kp, upper) && p.T == TableCount(upper)
    requires p.roles == BootRoles(kp, upper)
    requires BootTables(p.mem, kp, upper, FirstFrame(kp, upper), FirstFrame(kp, upper) + 3, {})
    requires forall t: Slot {:trigger Cell(p.mem, p.vd, t)} :: Cell(p.mem, p.vd, t) == 0
    ensures Rooted(p)
  {
    hide LinearEntry, BootEntry, Available, Cell, Offered, BootRole, BootRoles, LinAllocated, LinearOk;
    var s := FirstFrame(kp, upper);
    BootLinearOk(p.mem, kp, upper, s, s + 3, {});
    LinearTables(p.mem, kp, TableCount(upper));
    BootRolePlaces(kp, upper);
    forall t: Slot | t < p.T
      ensures p.roles[Frame(Cell(p.mem, p.ld, t))] == LinTab(t)
    {
      BootRoleTable(kp, upper, t);
      assert Frame(Cell(p.mem, kp, t)) == kp + 1 + t;
    }
    forall g: PageNo
      ensures g >= 1 && Available(p.mem, p.ld, g) ==> p.roles[g] == Free
      ensures p.roles[g].LinTab? || p.roles[g].VirTab? || p.roles[g].Data? ==> 1 <= g && InTables(g, p.T)
    {
      BootAvailable(p.mem, kp, upper, s, s + 3, g);
      BootRoleFree(kp, upper, g);
      assert p.roles[g] == BootRole(kp, upper, g);
    }
  }

  lemma BootRolePlaces(kp: nat, upper: nat)
    requires BootRoom(kp, upper)
    ensures FirstFrame(kp, upper) < 0x10000 && TableCount(upper) >= 1
    ensures BootRole(kp, upper, kp) == LinDir && BootRole(kp, upper, FirstFrame(kp, upper)) == VirDir
  {
  }

  lemma BootRoleTable(kp: nat, upper: nat, t: nat)
    requires BootRoom(kp, upper) && t < TableCount(upper)
    ensures BootRole(kp, upper, kp + 1 + t) == LinTab(t)
  {
  }

  lemma BootRoleFree(kp: nat, upper: nat, g: PageNo)
    requires BootRoom(kp, upper)
    ensures var s := FirstFrame(kp, upper);
            Outside(kp, upper, g) && !(s <= g < s + 3) ==> BootRole(kp, upper, g) == Free
    ensures var r := BootRole(kp, upper, g);
            r.LinTab? || r.VirTab? || r.Data? ==> 1 <= g && InTables(g, TableCount(upper))
  {
  }

  lemma NothingMapped(p: Paging)
    requires Rooted(p) && forall t: Slot {:trigger Cell(p.mem, p.vd, t)} :: Cell(p.mem, p.vd, t) == 0
    ensures Layout(p, {}, {})
    ensures forall v: PageNo {:trigger VirtualEntry(p, v)} :: VirtualEntry(p, v) == 0
  {
    hide Rooted, Cell;
    RootedRoles(p);
    forall v: PageNo
      ensures VirtualEntry(p, v) == 0 && GoodEntry(p, v)
    {
    }
  }

  lemma BootIsOk(p: Paging, kp: PageNo, upper: nat)
    requires BootRoom(kp, upper) && p.ld == kp && p.vd == FirstFrame(kp, upper) && p.T == TableCount(upper)
    requires p.roles == BootRoles(kp, upper)
    requires BootTables(p.mem, kp, upper, FirstFrame(kp, upper), FirstFrame(kp, upper) + 3, {})
    requires forall t: Slot {:trigger Cell(p.mem, p.vd, t)} :: Cell(p.mem, p.vd, t) == 0
    ensures BootOk(p)
  {
    hide LinearEntry, Cell, Layout, Rooted, BootEntry, BootRoles, BootRole, BootTables, LinAllocated;
    BootRooted(p, kp, upper);
    NothingMapped(p);
    forall g: PageNo | InTables(g, p.T) && Claimed(p, g)
      ensures Frame(Lin(p, g)) == g && p.roles[g] != Free
    {
      BootClaimed(p.mem, kp, upper, g);
      assert p.roles[g] == BootRole(kp, upper, g);
    }
    forall f: PageNo
      ensures !p.roles[f].Data?
    {
      assert p.roles[f] == BootRole(kp, upper, f);
      BootRoleKind(kp, upper, f);
    }
  }

  lemma BootRoleKind(kp: nat, upper: nat, f: PageNo)
    requires BootRoom(kp, upper)
    ensures !BootRole(kp, upper, f).Data?
  {
  }

  lemma BootClaimed(m: Ram, kp: PageNo, upper: nat, g: PageNo)
    requires BootRoom(kp, upper) && InTables(g, TableCount(upper))
    requires BootTables(m, kp, upper, FirstFrame(kp, upper), FirstFrame(kp, upper) + 3, {})
    requires LinAllocated(LinearEntry(m, kp, g))
    ensures Frame(LinearEntry(m, kp, g)) == g && BootRole(kp, upper, g) != Free
  {
    hide LinearEntry, Cell, LinearOk, Offered;
    var s := FirstFrame(kp, upper);
    assert LinearEntry(m, kp, g) == BootEntry(kp, upper, s, s + 3, g);
  }

  // ------------------------------------------------------------- the whole boot

  /** The boot invariant, and no page table exists yet. */
  ghost predicate Blank(p: Paging) {
    BootOk(p) && forall t: Slot {:trigger Cell(p.mem, p.vd, t)} :: Cell(p.mem, p.vd, t) == 0
  }

  /** The roles after the frames lo..hi have been claimed for the kernel image or a module. */
  ghost function Reserve(roles: seq<Role>, lo: nat, hi: nat): (r: seq<Role>)
    requires |roles| == 0x100000
    ensures |r| == 0x100000
    ensures forall f: PageNo {:trigger r[f]} ::
              r[f] == if lo <= f < hi && roles[f] == Free then Reserved else roles[f]
  {
    seq(0x100000, f requires 0 <= f < 0x100000 => if lo <= f < hi && roles[f] == Free then Reserved else roles[f])
  }

  lemma ReserveRooted(p: Paging, q: Paging, lo: nat, hi: nat)
    requires Rooted(p) && |p.roles| == 0x100000 && q == p.(mem := q.mem, roles := Reserve(p.roles, lo, hi))
    requires BlockedRange(p.mem, q.mem, p.ld, p.T, lo, hi)
    requires forall t: Slot {:trigger Cell(q.mem, q.vd, t)} :: Cell(q.mem, q.vd, t) == Cell(p.mem, p.vd, t)
    requires forall g: PageNo {:trigger Available(q.mem, q.ld, g)} ::
               Available(q.mem, q.ld, g) <==> Available(p.mem, p.ld, g) && !(lo <= g < hi)
    ensures Rooted(q)
  {
    hide LinearEntry, Available, Cell, LinAllocated;
    BlockedTables(p.mem, q.mem, p.ld, p.T, lo, hi);
    forall s: Slot | s < q.T
      ensures q.roles[Frame(Cell(q.mem, q.ld, s))] == LinTab(s)
    {
      assert p.roles[Frame(Cell(p.mem, p.ld, s))] == LinTab(s);
    }
  }

  lemma BlockedTables(m: Ram, m': Ram, ld: PageNo, T: nat, lo: nat, hi: nat)
    requires BlockedRange(m, m', ld, T, lo, hi)
    ensures TablesPresent(m', ld, T)
    ensures forall s: Slot {:trigger Cell(m', ld, s)} :: Cell(m', ld, s) == Cell(m, ld, s)
  {
  }

  lemma BlockedAvailable(m: Ram, m': Ram, ld: PageNo, T: nat, lo: nat, hi: nat, g: PageNo)
    requires LinearOk(m, ld, T) && BlockedRange(m, m', ld, T, lo, hi)
    ensures Available(m', ld, g) <==> Available(m, ld, g) && !(lo <= g < hi)
  {
    hide LinearEntry, Cell, LinearOk, LinAvailable, Available;
    AvailableInTables(m, ld, T, g);
    AvailableInTables(m', ld, T, g);
    NotAvailableFlags(g);
    if InTables(g, T) {
      assert LinearEntry(m', ld, g) == if lo <= g < hi then Entry(g, LINEAR_ALLOCATED) else LinearEntry(m, ld, g);
    }
  }

  lemma ReserveBlank(p: Paging, q: Paging, lo: nat, hi: nat)
    requires Blank(p) && q == p.(mem := q.mem, roles := Reserve(p.roles, lo, hi))
    requires BlockedRange(p.mem, q.mem, p.ld, p.T, lo, hi)
    requires forall t: Slot {:trigger Cell(q.mem, q.vd, t)} :: Cell(q.mem, q.vd, t) == Cell(p.mem, p.vd, t)
    ensures Blank(q)
    ensures forall g: PageNo {:trigger Claimed(q, g)} :: InTables(g, p.T) ==>
              (Claimed(q, g) <==> Claimed(p, g) || lo <= g < hi)
    ensures forall g: PageNo {:trigger Available(q.mem, q.ld, g)} ::
              Available(q.mem, q.ld, g) <==> Available(p.mem, p.ld, g) && !(lo <= g < hi)
  {
    hide LinearEntry, Available, Cell, Rooted, Layout, LinAllocated, LinearOk, Reserve;
    IdentityBoot.BootRooted(p);
    RootedLinear(p);
    forall g: PageNo
      ensures Available(q.mem, q.ld, g) <==> Available(p.mem, p.ld, g) && !(lo <= g < hi)
    {
      BlockedAvailable(p.mem, q.mem, p.ld, p.T, lo, hi, g);
    }
    ReserveRooted(p, q, lo, hi);
    NothingMapped(q);
    forall g: PageNo | InTables(g, p.T)
      ensures Claimed(q, g) <==> Claimed(p, g) || lo <= g < hi
      ensures Claimed(q, g) ==> Frame(Lin(q, g)) == g && q.roles[g] != Free
    {
      assert LinearEntry(q.mem, q.ld, g) ==
          if lo <= g < hi then Entry(g, LINEAR_ALLOCATED) else LinearEntry(p.mem, p.ld, g);
      ClaimedEntry(g);
      assert Claimed(p, g) ==> p.roles[g] != Free;
    }
    forall f: PageNo
      ensures !q.roles[f].Data?
    {
      assert !p.roles[f].Data?;
    }
  }

  /** linear_block as setup() calls it, for the kernel image, the boot information and the modules. */
  method BlockRegion(k: Kernel, start: nat, end: nat)
    requires k.ram.Length == RAM_WORDS && Blank(Now(k))
    requires 1 <= end && (end - 1) / 4096 < TableCount(k.upper) * 1024
    modifies k.ram, k`roles
    ensures Blank(Now(k))
    ensures forall g: PageNo {:trigger Claimed(Now(k), g)} :: InTables(g, TableCount(k.upper)) ==>
              (Claimed(Now(k), g) <==> Claimed(old(Now(k)), g) || start / 4096 <= g < (end - 1) / 4096 + 1)
    ensures forall g: PageNo {:trigger Available(k.Mem(), k.linearDir, g)} ::
              Available(k.Mem(), k.linearDir, g) <==>
                Available(old(k.Mem()), k.linearDir, g) && !(start / 4096 <= g < (end - 1) / 4096 + 1)
  {
    hide LinearEntry, Available, Cell, Rooted, Layout, LinearOk, Claimed, NotLinearTable, BlockedRange, BootOk;
    ghost var p := Now(k);
    IdentityBoot.BootRooted(p);
    RootedLinear(p);
    DirectoryNotTable(p);
    LinearBlock(k, start, end, TableCount(k.upper));
    k.roles := Reserve(k.roles, start / 4096, (end - 1) / 4096 + 1);
    ReserveBlank(p, Now(k), start / 4096, (end - 1) / 4096 + 1);
  }

  lemma DirectoryNotTable(p: Paging)
    requires Rooted(p)
    ensures NotLinearTable(p.mem, p.ld, p.T, p.vd)
  {
    hide Available, Cell;
  }

  /** A byte range lies in the frames that have a linear entry. */
  predicate Covered(r: (nat, nat), upper: nat) {
    1 <= r.1 && (r.1 - 1) / 4096 < TableCount(upper) * 1024
  }

  /** Frame g is touched by the byte range. */
  predicate Touches(r: (nat, nat), g: PageNo) {
    r.1 >= 1 && r.0 / 4096 <= g < (r.1 - 1) / 4096 + 1
  }

  /** It holds one of the bytes. */
  lemma TouchesIff(r: (nat, nat), g: PageNo)
    requires r.0 < r.1
    ensures Touches(r, g) <==> exists a: nat :: r.0 <= a < r.1 && a / 4096 == g
  {
    if Touches(r, g) {
      var a := if g == r.0 / 4096 then r.0 else g * 4096;
      assert r.0 <= a < r.1 && a / 4096 == g;
    }
  }

  /** Frame g is touched by one of the byte ranges. */
  ghost predicate InRegions(regions: seq<(nat, nat)>, g: PageNo) {
    exists i :: 0 <= i < |regions| && Touches(regions[i], g)
  }

  lemma InOneMore(regions: seq<(nat, nat)>, n: nat, g: PageNo)
    requires n < |regions|
    ensures InRegions(regions[..n + 1], g) <==>
              InRegions(regions[..n], g) || Touches(regions[n], g)
  {
    var a, b := regions[..n], regions[..n + 1];
    if InRegions(a, g) {
      var i :| 0 <= i < |a| && Touches(a[i], g);
      assert b[i] == a[i];
    }
    if InRegions(b, g) {
      var i :| 0 <= i < |b| && Touches(b[i], g);
      assert i < n ==> a[i] == b[i];
    }
    assert b[n] == regions[n];
  }

  /** The frames kmemory_linear_setup claims for the kernel. */
  predicate KernelFrame(kp: nat, upper: nat, g: PageNo) {
    kp <= g < Behind(kp, upper) || FirstFrame(kp, upper) <= g < FirstFrame(kp, upper) + 3
  }

  lemma KernelClaimed(p: Paging, kp: PageNo, upper: nat, g: PageNo)
    requires BootRoom(kp, upper) && p.ld == kp
    requires BootTables(p.mem, kp, upper, FirstFrame(kp, upper), FirstFrame(kp, upper) + 3, {})
    requires InTables(g, TableCount(upper))
    ensures Claimed(p, g) <==> KernelFrame(kp, upper, g)
  {
    hide LinearEntry, LinearOk, Offered, TableCount;
    assert LinearEntry(p.mem, kp, g) == BootEntry(kp, upper, FirstFrame(kp, upper), FirstFrame(kp, upper) + 3, g);
    ClaimedEntry(g);
  }

  /** No heap page exists, and the lists are empty: the invariant of the virtual heap holds. */
  lemma EmptyHeap(p: Paging, q: Paging)
    requires Blank(p) && |p.roles| == 0x100000 && HeapKept(p, q)
    ensures EntriesAgree(q, []) && TablesExist(q, []) && Shape([], [], HEAP)
    ensures Pages(q) == map[]
  {
    IdentityBoot.BootRooted(p);
    NothingMapped(p);
    hide VirtualEntry, Cell, Layout, Rooted, BootOk;
    forall v: PageNo | v >= HEAP
      ensures VirtualEntry(q, v) == 0
    {
      assert VirtualEntry(p, v) == 0;
    }
  }

  /** The calls of linear_block in setup(). */
  method BlockRegions(k: Kernel, regions: seq<(nat, nat)>)
    requires k.ram.Length == RAM_WORDS && Blank(Now(k))
    requires forall i :: 0 <= i < |regions| ==> Covered(regions[i], k.upper)
    modifies k.ram, k`roles
    ensures Blank(Now(k))
    ensures forall g: PageNo {:trigger Claimed(Now(k), g)} :: InTables(g, TableCount(k.upper)) ==>
              (Claimed(Now(k), g) <==> Claimed(old(Now(k)), g) || InRegions(regions, g))
    ensures forall g: PageNo {:trigger Available(k.Mem(), k.linearDir, g)} ::
              Available(k.Mem(), k.linearDir, g) <==> Available(old(k.Mem()), k.linearDir, g) && !InRegions(regions, g)
  {
    hide LinearEntry, Available, Cell, Claimed, BootOk, Blank, InRegions, InTables, TableCount;
    ghost var p := Now(k);
    NoRegions();
    assert regions[..0] == [];
    var i := 0;
    while i < |regions|
      invariant 0 <= i <= |regions| && Blank(Now(k))
      invariant forall g: PageNo {:trigger Claimed(Now(k), g)} :: InTables(g, TableCount(k.upper)) ==>
                  (Claimed(Now(k), g) <==> Claimed(p, g) || InRegions(regions[..i], g))
      invariant forall g: PageNo {:trigger Available(k.Mem(), k.linearDir, g)} ::
                  Available(k.Mem(), k.linearDir, g) <==> Available(p.mem, p.ld, g) && !InRegions(regions[..i], g)
    {
      ghost var q := Now(k);
      BlockRegion(k, regions[i].0, regions[i].1);
      forall g: PageNo | InTables(g, TableCount(k.upper))
        ensures Claimed(Now(k), g) <==> Claimed(p, g) || InRegions(regions[..i + 1], g)
      {
        InOneMore(regions, i, g);
        assert Claimed(q, g) <==> Claimed(p, g) || InRegions(regions[..i], g);
      }
      forall g: PageNo
        ensures Available(k.Mem(), k.linearDir, g) <==> Available(p.mem, p.ld, g) && !InRegions(regions[..i + 1], g)
      {
        InOneMore(regions, i, g);
        assert Available(q.mem, q.ld, g) <==> Available(p.mem, p.ld, g) && !InRegions(regions[..i], g);
      }
      i := i + 1;
    }
    assert regions[..i] == regions;
  }

  /** setup() before the identity map: the linear tables and the claimed regions. */
  method ClaimAll(k: Kernel, upper: nat, kernelMax: nat, regions: seq<(nat, nat)>) returns (kp: PageNo)
    requires k.ram.Length == RAM_WORDS && 1 <= kernelMax && BootRoom((kernelMax - 1) / 4096 + 1, upper)
    requires forall i :: 0 <= i < |regions| ==> Covered(regions[i], upper)
    modifies k, k.ram
    ensures kp == (kernelMax - 1) / 4096 + 1 && k.upper == upper && AllocatorOk(k) && Blank(Now(k))
    ensures k.linearDir == kp && |k.zones| == 3
    ensures forall g: PageNo {:trigger Claimed(Now(k), g)} :: InTables(g, TableCount(upper)) ==>
              (Claimed(Now(k), g) <==> KernelFrame(kp, upper, g) || InRegions(regions, g))
    ensures forall g: PageNo {:trigger Available(k.Mem(), k.linearDir, g)} :: Available(k.Mem(), k.linearDir, g) <==>
              InTables(g, TableCount(upper)) && Offered(g, upper) && !KernelFrame(kp, upper, g)
              && !InRegions(regions, g)
    ensures upper > 0x100_0000 && Behind(kp, upper) <= 0x1000 ==>
              k.zones[ZONE_NORMAL] == Zone(0x100_0000, 0x100_0000, upper)
    ensures k.zones[ZONE_DMA] == Zone(Address(FirstFrame(kp, upper) + 3), 0x10_0000, Smaller(upper, 0x100_0000))
    ensures k.records == [] && k.free == Null && k.used == Null && k.heapNext == HEAP
    ensures k.freeList == [] && k.usedList == [] && k.lengths == []
  {
    hide LinearEntry, Available, Cell, Rooted, Layout, LinearOk, Claimed, BootTables, BootOk, BootRoom, BootRoles,
         KernelFrame, InRegions, Entry, ZonesOk, InTables, TableCount, Behind, Offered;
    kp := LinearSetup(k, upper, kernelMax);
    BootIsOk(Now(k), kp, upper);
    forall g: PageNo | InTables(g, TableCount(upper))
      ensures Claimed(Now(k), g) <==> KernelFrame(kp, upper, g)
    {
      KernelClaimed(Now(k), kp, upper, g);
    }
    forall g: PageNo
      ensures Available(k.Mem(), k.linearDir, g) <==>
                InTables(g, TableCount(upper)) && Offered(g, upper) && !KernelFrame(kp, upper, g)
    {
      KernelAvailable(k.Mem(), kp, upper, g);
    }
    BlockRegions(k, regions);
  }

  lemma KernelAvailable(m: Ram, kp: PageNo, upper: nat, g: PageNo)
    requires BootRoom(kp, upper) && BootTables(m, kp, upper, FirstFrame(kp, upper), FirstFrame(kp, upper) + 3, {})
    ensures Available(m, kp, g) <==>
              InTables(g, TableCount(upper)) && Offered(g, upper) && !KernelFrame(kp, upper, g)
  {
    BootAvailable(m, kp, upper, FirstFrame(kp, upper), FirstFrame(kp, upper) + 3, g);
    hide BootTables, Available, Offered, TableCount, Behind, FirstFrame, InTables;
  }

  /** Memory ends beyond the first two frames above 16 MiB, the kernel's tables end below them, and no region
      touches them. */
  ghost predicate TwoFramesFree(kp: nat, upper: nat, regions: seq<(nat, nat)>) {
    && 0x100_1000 < upper < 0x1000_0000 && Behind(kp, upper) <= 0x1000
    && !KernelFrame(kp, upper, 0x1000) && !KernelFrame(kp, upper, 0x1001)
    && !InRegions(regions, 0x1000) && !InRegions(regions, 0x1001)
  }

  /** Then the state before the first mapping is one in which the mapping takes both frames. */
  lemma FirstMappingWipes(p: Paging, zones: seq<Zone>, kp: PageNo, upper: nat, v: PageNo)
    requires Blank(p) && p.T == TableCount(upper) && |zones| == 3 && 0x100_1000 < upper < 0x1000_0000
    requires zones[ZONE_NORMAL] == Zone(0x100_0000, 0x100_0000, upper)
    requires Available(p.mem, p.ld, 0x1000) && Available(p.mem, p.ld, 0x1001) && v < 0x1000
    ensures |p.roles| == 0x100000 && Takes(p, zones, v, [0x1000, 0x1001]) && Wipes(p, zones, v)
  {
    hide Blank, Rooted, Available, BootOk, Layout, Takes, Wipes, SweepEnd, Cell, TableCount, Dir;
    BlankLayout(p);
    LayoutRooted(p, {}, {});
    RootedRoles(p);
    HighSlots(upper, v);
    EmptyDirectory(p, Dir(v));
    EmptyDirectory(p, 4);
    assert Frame(zones[ZONE_NORMAL].next) == 0x1000;
    TwoFramesWipe(p, zones, v, 0x1000);
  }

  lemma HighSlots(upper: nat, v: PageNo)
    requires 0x100_1000 < upper < 0x1000_0000 && v < 0x1000
    ensures Dir(v) < 4 && Dir(0x1000) == Dir(0x1001) == 4 && InTables(0x1001, TableCount(upper))
    ensures 0x1001 < SweepEnd(upper / TABLE_BYTES, TableCount(upper))
  {
  }

  lemma EmptyDirectory(p: Paging, s: Slot)
    requires Blank(p)
    ensures Cell(p.mem, p.vd, s) == 0
  {
  }

  /** setup() up to its first call of set_virtual_entry, which maps the frame of the first linear table. The
      call takes two frames and leaves the second, a page table, without its identity entry. */
  method FirstMapping(k: Kernel, upper: nat, kernelMax: nat, regions: seq<(nat, nat)>)
    returns (kp: PageNo, ghost p: Paging)
    requires k.ram.Length == RAM_WORDS && 1 <= kernelMax && BootRoom((kernelMax - 1) / 4096 + 1, upper)
    requires forall i :: 0 <= i < |regions| ==> Covered(regions[i], upper)
    requires TwoFramesFree((kernelMax - 1) / 4096 + 1, upper, regions)
    modifies k, k.ram
    ensures |p.roles| == |k.roles| == 0x100000 && Blank(p)
    ensures NewTable(p, Now(k), 0x1001) && VirtualEntry(Now(k), 0x1001) == 0
  {
    hide LinearEntry, Available, Cell, Rooted, Layout, LinearOk, Claimed, BootTables, BootOk, BootRoom, Blank, Takes,
         KernelFrame, InRegions, ZonesOk, TableCount, Offered, VirtualEntry, Wiped, Wipes, Installed, InTables;
    kp := ClaimAll(k, upper, kernelMax, regions);
    p := Now(k);
    HighOffered(upper);
    FirstMappingWipes(p, k.zones, kp, upper, kp + 1);
    BlankLayout(p);
    ghost var zs := k.zones;
    var ok;
    ghost var chain;
    ok, chain := SetVirtualEntry(k, kp + 1, kp + 1, MAPPED, {});
    assert ok;
    TakesUnique(p, zs, kp + 1, chain, [0x1000, 0x1001]);
    assert 0x1001 in chain;
    EmptyDirectory(p, Dir(chain[1]));
  }

  /** setup() before the identity map, and then a search for a DMA frame: when the kernel's own frames end at
      16 MiB, the frame lies there. */
  method FirstDma(k: Kernel, upper: nat, kernelMax: nat, regions: seq<(nat, nat)>) returns (ok: bool, g: PageNo)
    requires k.ram.Length == RAM_WORDS && 1 <= kernelMax && BootRoom((kernelMax - 1) / 4096 + 1, upper)
    requires forall i :: 0 <= i < |regions| ==> Covered(regions[i], upper)
    requires 0x100_1000 < upper && Behind((kernelMax - 1) / 4096 + 1, upper) == 0xFFD && !InRegions(regions, 0x1000)
    modifies k, k.ram
    ensures ok && g == 0x1000
  {
    hide LinearEntry, Available, Cell, Rooted, Layout, Claimed, BootTables, BootOk, TableCount, LinearOk, InRegions,
         ZonesOk, Offered, InTables, PickFrom;
    var kp := ClaimAll(k, upper, kernelMax, regions);
    HighOffered(upper);
    HighSlots(upper, 0);
    BlankLayout(Now(k));
    LayoutRooted(Now(k), {}, {});
    RootedLinear(Now(k));
    RootedRoles(Now(k));
    ManyTables(upper);
    DmaBeyond(k.Mem(), k.linearDir, k.zones, TableCount(upper));
    ok, g := GetFreePage(k, ZONE_DMA);
  }

  lemma ManyTables(upper: nat)
    requires 0x100_1000 < upper
    ensures TableCount(upper) >= 5
  {
  }

  lemma HighOffered(upper: nat)
    requires 0x100_1000 < upper < 0x1000_0000
    ensures InTables(0x1000, TableCount(upper)) && Offered(0x1000, upper)
    ensures InTables(0x1001, TableCount(upper)) && Offered(0x1001, upper)
  {
  }

  lemma BlankLayout(p: Paging)
    requires Blank(p)
    ensures Layout(p, {}, {}) && |p.roles| == 0x100000
  {
  }

  /** setup(): the linear tables, the claimed regions, the identity map. Afterwards every claimed
      frame is mapped to itself, the invariants of paging and of the heap hold, and the memory a
      client sees is empty. */
  method Setup(k: Kernel, upper: nat, kernelMax: nat, regions: seq<(nat, nat)>) returns (ok: bool, kp: PageNo)
    requires k.ram.Length == RAM_WORDS && 1 <= kernelMax && BootRoom((kernelMax - 1) / 4096 + 1, upper)
    requires forall i :: 0 <= i < |regions| ==> Covered(regions[i], upper)
    modifies k, k.ram
    ensures kp == (kernelMax - 1) / 4096 + 1 && k.upper == upper
    ensures ok ==> HeapOk(k) && Abs(k) == Flat(map[], {})
    ensures !ok ==> forall h: PageNo :: h >= 1 ==> !Available(k.Mem(), k.linearDir, h)
    ensures ok ==>
              forall g: PageNo ::
                InTables(g, TableCount(upper)) && (KernelFrame(kp, upper, g) || InRegions(regions, g)) ==>
                VirtualEntry(Now(k), g) == Entry(g, MAPPED)
  {
    hide LinearEntry, Available, Cell, Rooted, Layout, LinearOk, Claimed, BootTables, BootOk, HeapKept, VirtualEntry,
         BootRoom, BootRoles, KernelFrame, InRegions, Entry, ZonesOk, InTables, TableCount;
    kp := ClaimAll(k, upper, kernelMax, regions);
    ghost var p := Now(k);
    IdentityBoot.BootRooted(p);
    ghost var calls;
    ok, calls := VirtualSetup(k);
    if ok {
      EmptyHeap(p, Now(k));
      BootLayout(Now(k));
    }
  }

  lemma NoRegions()
    ensures forall g: PageNo :: !InRegions([], g)
  {
  }

  lemma BootLayout(p: Paging)
    requires BootOk(p)
    ensures Layout(p, {}, {})
  {
  }
}
