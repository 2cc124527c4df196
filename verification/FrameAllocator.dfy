/** The next-fit physical frame allocator over the zones (get_free_pages). */
module FrameAllocator {
  import opened Machine

  /** The entry of frame g in the linear table, which records the owner of each frame. */
  function LinearEntry(m: Ram, ld: PageNo, g: PageNo): Word {
    Cell(m, Frame(Cell(m, ld, Dir(g))), Tab(g))
  }

  /** Frame g may be handed out. */
  predicate Available(m: Ram, ld: PageNo, g: PageNo) {
    LinAllocated(Cell(m, ld, Dir(g))) && LinAvailable(LinearEntry(m, ld, g))
  }

  /** Memory after the linear entry of g has been overwritten. */
  function PokeLinear(m: Ram, ld: PageNo, g: PageNo, w: Word): Ram {
    Poke(m, Frame(Cell(m, ld, Dir(g))), Tab(g), w)
  }

  /** Linear tables exist exactly for the directory slots below T. */
  ghost predicate TablesPresent(m: Ram, ld: PageNo, T: nat) {
    T <= 64 && forall s: Slot :: LinAllocated(Cell(m, ld, s)) <==> s < T
  }

  lemma TablesFew(m: Ram, ld: PageNo, T: nat)
    requires TablesPresent(m, ld, T)
    ensures T <= 64
  {
  }

  lemma TableThere(m: Ram, ld: PageNo, T: nat, s: Slot)
    requires TablesPresent(m, ld, T)
    ensures LinAllocated(Cell(m, ld, s)) <==> s < T
  {
  }

  // ---------------------------------------------------------------- scan order

  /** The first frame after table `table`, or after the last present table. */
  function SweepEnd(table: nat, T: nat): nat {
    (if table + 1 < T then table + 1 else T) * 1024
  }

  /** The frames one pass of the search looks at: from a frame to the end of a 4 MiB table. */
  ghost function Sweep(from: nat, table: nat, T: nat): (s: seq<PageNo>)
    requires T <= 64
    ensures |s| == if from < SweepEnd(table, T) then SweepEnd(table, T) - from else 0
    ensures forall j :: 0 <= j < |s| ==> s[j] == from + j
  {
    var n: nat := if from < SweepEnd(table, T) then SweepEnd(table, T) - from else 0;
    seq(n, j requires 0 <= j < n => from + j)
  }

  /** The frames of a zone in the order the search visits them: cursor to end, then the wrap. */
  ghost function FirstSweep(z: Zone, T: nat): seq<PageNo>
    requires T <= 64
  {
    Sweep(Frame(z.next), z.end / TABLE_BYTES, T)
  }

  ghost function Order(z: Zone, T: nat): seq<PageNo>
    requires T <= 64
  {
    FirstSweep(z, T) + Sweep(Frame(z.start), z.next / TABLE_BYTES, T)
  }

  /** Which of the visited frames are available. */
  ghost function Marks(m: Ram, ld: PageNo, order: seq<PageNo>): (bits: seq<bool>)
    ensures |bits| == |order|
    ensures forall j :: 0 <= j < |order| ==> bits[j] == Available(m, ld, order[j])
  {
    seq(|order|, j requires 0 <= j < |order| => Available(m, ld, order[j]))
  }

  /** The last `count` visited frames up to position e are all available. */
  ghost predicate RunEndsAt(bits: seq<bool>, e: nat, count: nat) {
    1 <= count <= e + 1 <= |bits| && forall j :: e - count < j <= e ==> bits[j]
  }

  /** Position e is the first at which a run of `count` available visited frames is complete. */
  ghost predicate FirstRunAt(bits: seq<bool>, e: nat, count: nat) {
    RunEndsAt(bits, e, count) && forall d: nat :: d < e ==> !RunEndsAt(bits, d, count)
  }

  ghost predicate NoRun(bits: seq<bool>, count: nat) {
    forall e: nat :: e < |bits| ==> !RunEndsAt(bits, e, count)
  }

  /** The zones as kmemory_linear_setup leaves them, with cursors that never fall below the start. */
  ghost predicate ZonesOk(zones: seq<Zone>, upper: nat) {
    && |zones| == 3
    && 0x100000 <= upper < 0x1000_0000
    && (forall i :: 0 <= i < 3 && zones[i].next != 0 ==>
          zones[i].start <= zones[i].next <= 0x4000_0000 && zones[i].next % 4096 == 0 && zones[i].start % 4096 == 0)
    && (if upper > 0x100_0000
        then zones[ZONE_NORMAL].next != 0 && zones[ZONE_NORMAL].start == 0x100_0000 && zones[ZONE_NORMAL].end == upper
        else zones[ZONE_NORMAL].next == 0)
    && zones[ZONE_DMA].next != 0
    && zones[ZONE_DMA].start == 0x10_0000
    && zones[ZONE_DMA].end == (if upper < 0x100_0000 then upper else 0x100_0000)
    && zones[ZONE_KERNEL].next != 0
    && zones[ZONE_KERNEL].start == 0x1000
    && zones[ZONE_KERNEL].end == 0x10_0000
  }

  /** The number of linear tables for a memory of `upper` bytes. */
  function TableCount(upper: nat): nat {
    upper / TABLE_BYTES + 1
  }

  /** The marks of zone z in scan order. */
  ghost function ZoneMarks(m: Ram, ld: PageNo, z: Zone, T: nat): seq<bool>
    requires T <= 64
  {
    Marks(m, ld, Order(z, T))
  }

  /** The whole effect of a successful search: which zone, which position, what changed. */
  ghost predicate Allocates(m: Ram, ld: PageNo, zones: seq<Zone>, T: nat, count: nat, first: nat,
                            m': Ram, zones': seq<Zone>, address: nat, z: nat, e: nat)
    requires |zones| == 3 && T <= 64
  {
    && first <= z < 3
    && zones[z].next != 0
    && FirstRunAt(ZoneMarks(m, ld, zones[z], T), e, count)
    && (forall i :: first <= i < z && zones[i].next != 0 ==> NoRun(ZoneMarks(m, ld, zones[i], T), count))
    && var order := Order(zones[z], T);
    && address == Address(order[e + 1 - count])
    && m' == PokeLinear(m, ld, order[e], LINEAR_ALLOCATED)
    && address + count * 4096 < 0x1_0000_0000
    && zones' == zones[z := zones[z].(next := address + count * 4096)]
  }

  /** No zone from `first` on has a run: the kernel spins forever. */
  ghost predicate Exhausted(m: Ram, ld: PageNo, zones: seq<Zone>, T: nat, count: nat, first: nat)
    requires |zones| == 3 && T <= 64
  {
    forall i :: first <= i < 3 && zones[i].next != 0 ==> NoRun(ZoneMarks(m, ld, zones[i], T), count)
  }

  /** The run counter at position `pos` of the scan: c is the length of the available run that
      ends there, `address` its first frame, and no complete run has been passed. */
  ghost predicate Scanned(order: seq<PageNo>, bits: seq<bool>, pos: nat, count: nat, c: nat, address: nat)
    requires |bits| == |order|
  {
    && c <= pos <= |bits|
    && (count == 0 || c < count)
    && (forall j :: pos - c <= j < pos ==> bits[j])
    && (c < pos ==> !bits[pos - c - 1])
    && (c > 0 ==> address == Address(order[pos - c]))
    && (forall d: nat :: d < pos ==> !RunEndsAt(bits, d, count))
  }

  lemma ScanAvailable(order: seq<PageNo>, bits: seq<bool>, pos: nat, count: nat, c: nat, address: nat)
    requires |bits| == |order| && pos < |bits| && bits[pos]
    requires Scanned(order, bits, pos, count, c, address)
    ensures var address' := if c == 0 then Address(order[pos]) else address;
            if c + 1 == count
            then FirstRunAt(bits, pos, count) && address' == Address(order[pos + 1 - count])
            else Scanned(order, bits, pos + 1, count, c + 1, address')
    ensures c + 1 == count ==> count <= pos + 1
  {
    if c + 1 != count {
      assert !RunEndsAt(bits, pos, count);
    }
  }

  lemma ScanUnavailable(order: seq<PageNo>, bits: seq<bool>, pos: nat, count: nat, c: nat, address: nat)
    requires |bits| == |order| && pos < |bits| && !bits[pos]
    requires Scanned(order, bits, pos, count, c, address)
    ensures Scanned(order, bits, pos + 1, count, 0, 0)
  {
    assert !RunEndsAt(bits, pos, count);
  }

  /** Where the sweep of a pass lies in the scan order of its zone. */
  ghost predicate SweepAt(order: seq<PageNo>, base: nat, from: PageNo, table: nat, T: nat)
    requires T <= 64
  {
    var sw := Sweep(from, table, T);
    base + |sw| <= |order| && order[base..base + |sw|] == sw
  }

  /** The scan position of a pass that is about to look at page p. */
  ghost function Reached(base: nat, from: PageNo, table: nat, T: nat, p: nat): nat
    requires T <= 64 && from <= p
  {
    var sw := Sweep(from, table, T);
    base + (if p - from < |sw| then p - from else |sw|)
  }

  lemma TableInSweep(order: seq<PageNo>, base: nat, from: PageNo, table: nat, T: nat, i1: Slot, i2: Slot)
    requires T <= 64 && SweepAt(order, base, from, table, T)
    requires i1 <= table && i1 < T && from <= i1 * 1024 + i2
    ensures var pos := Reached(base, from, table, T, i1 * 1024 + i2);
            && pos + 1024 - i2 == Reached(base, from, table, T, i1 * 1024 + 1024) <= |order|
            && forall j :: i2 <= j < 1024 ==> order[pos + j - i2] == PageAt(i1, j)
  {
    var sw := Sweep(from, table, T);
    var pos := base + (i1 * 1024 + i2 - from);
    forall j: Slot | i2 <= j
      ensures order[pos + j - i2] == PageAt(i1, j)
    {
      assert order[base..base + |sw|][i1 * 1024 + j - from] == sw[i1 * 1024 + j - from];
    }
  }

  lemma AbsentTable(base: nat, from: PageNo, table: nat, T: nat, i1: Slot, i2: Slot)
    requires T <= 64 && T <= i1 && from <= i1 * 1024 + i2
    ensures Reached(base, from, table, T, i1 * 1024 + i2)
         == Reached(base, from, table, T, i1 * 1024 + 1024)
         == base + |Sweep(from, table, T)|
  {
  }

  /** A pass begins at its base and ends behind its last table. */
  lemma PassEnds(base: nat, from: PageNo, table: nat, T: nat, p: nat)
    requires T <= 64 && from <= p
    ensures p == from ==> Reached(base, from, table, T, p) == base
    ensures (table + 1) * 1024 <= p ==> Reached(base, from, table, T, p) == base + |Sweep(from, table, T)|
  {
  }

  /** The two sweeps make up the scan order of a zone. */
  lemma ZoneSweeps(m: Ram, ld: PageNo, z: Zone, T: nat, count: nat)
    requires T <= 64
    ensures var order := Order(z, T);
            var first, second := FirstSweep(z, T), Sweep(Frame(z.start), z.next / TABLE_BYTES, T);
            && SweepAt(order, 0, Frame(z.next), z.end / TABLE_BYTES, T)
            && SweepAt(order, |first|, Frame(z.start), z.next / TABLE_BYTES, T)
            && |order| == |first| + |second|
            && Scanned(order, Marks(m, ld, order), 0, count, 0, 0)
  {
    hide Sweep, Available;
  }

  lemma ScanComplete(order: seq<PageNo>, bits: seq<bool>, count: nat, c: nat, address: nat)
    requires |bits| == |order| && Scanned(order, bits, |order|, count, c, address)
    ensures NoRun(bits, count)
  {
    hide RunEndsAt;
  }

  lemma FoundRun(bits: seq<bool>, e: nat, count: nat)
    requires FirstRunAt(bits, e, count)
    ensures !NoRun(bits, count) && count <= e + 1 <= |bits|
  {
  }

  // ------------------------------------------------------------------- methods

  /** The inner loop: the rest of one linear table, from slot i2 on. The run counter is carried
      in and out; `pos` is where (i1, i2) stands in the zone's scan order. */
  method SearchTable(k: Kernel, i1: Slot, from2: Slot, count: nat, c0: nat, address0: nat,
                     ghost order: seq<PageNo>, ghost bits: seq<bool>, ghost pos0: nat)
    returns (found: bool, c: nat, address: nat, last: PageNo, ghost e: nat)
    requires k.ram.Length == RAM_WORDS && bits == Marks(k.Mem(), k.linearDir, order)
    requires LinAllocated(Cell(k.Mem(), k.linearDir, i1))
    requires pos0 + 1024 - from2 <= |order|
    requires forall j :: from2 <= j < 1024 ==> order[pos0 + j - from2] == PageAt(i1, j)
    requires Scanned(order, bits, pos0, count, c0, address0)
    ensures found ==> FirstRunAt(bits, e, count)
    ensures found ==> address == Address(order[e + 1 - count]) && last == order[e]
    ensures !found ==> Scanned(order, bits, pos0 + 1024 - from2, count, c, address)
  {
    hide RunEndsAt, FirstRunAt, Scanned;
    var i2: nat := from2;
    found, c, address, last, e := false, c0, address0, 0, pos0;
    while i2 < 1024
      invariant from2 <= i2 <= 1024 && e == pos0 + i2 - from2
      invariant Scanned(order, bits, e, count, c, address)
    {
      assert order[e] == PageAt(i1, i2);
      if LinAvailable(k.Load(Frame(k.Load(k.linearDir, i1)), i2)) {
        ScanAvailable(order, bits, e, count, c, address);
        if c == 0 {
          address := Address(PageAt(i1, i2));
        }
        c := c + 1;
        if c == count {
          assert address == Address(order[e + 1 - count]);
          found, last := true, PageAt(i1, i2);
          return;
        }
      } else {
        ScanUnavailable(order, bits, e, count, c, address);
        c, address := 0, 0;
      }
      i2 := i2 + 1;
      e := e + 1;
    }
  }

  /** One pass of the outer loop: from the cursor through table `outerEnd`, skipping absent
      tables. `base` is where the pass starts in the zone's scan order. */
  method SearchPass(k: Kernel, from: PageNo, outerEnd: Slot, count: nat, c0: nat, address0: nat,
                    ghost T: nat, ghost order: seq<PageNo>, ghost bits: seq<bool>, ghost base: nat)
    returns (found: bool, c: nat, address: nat, last: PageNo, ghost e: nat)
    requires k.ram.Length == RAM_WORDS && bits == Marks(k.Mem(), k.linearDir, order)
    requires TablesPresent(k.Mem(), k.linearDir, T)
    requires SweepAt(order, base, from, outerEnd, T)
    requires Scanned(order, bits, base, count, c0, address0)
    ensures found ==> FirstRunAt(bits, e, count)
    ensures found ==> address == Address(order[e + 1 - count]) && last == order[e]
    ensures !found ==>
              Scanned(order, bits, base + |Sweep(from, outerEnd, T)|, count, c, address)
  {
    hide Available, LinearEntry, RunEndsAt, FirstRunAt, Scanned, SweepAt, Sweep, Reached, TablesPresent, Cell,
         LinAllocated;
    TablesFew(k.Mem(), k.linearDir, T);
    PassEnds(base, from, outerEnd, T, from);
    var i1: nat := Dir(from);
    var i2: nat := Tab(from);
    found, c, address, last, e := false, c0, address0, 0, base;
    while i1 <= outerEnd
      invariant i1 <= 1024 && i2 < 1024
      invariant from <= i1 * 1024 + i2 && (i2 == 0 || i1 * 1024 + i2 == from)
      invariant !found && e == Reached(base, from, outerEnd, T, i1 * 1024 + i2)
      invariant Scanned(order, bits, e, count, c, address)
      decreases 1024 - i1
    {
      TableThere(k.Mem(), k.linearDir, T, i1);
      if LinAllocated(k.Load(k.linearDir, i1)) {
        TableInSweep(order, base, from, outerEnd, T, i1, i2);
        ghost var pos := e;
        found, c, address, last, e := SearchTable(k, i1, i2, count, c, address, order, bits, pos);
        if found {
          return;
        }
        e := pos + 1024 - i2;
      } else {
        AbsentTable(base, from, outerEnd, T, i1, i2);
      }
      i2 := 0;
      i1 := i1 + 1;
    }
    PassEnds(base, from, outerEnd, T, i1 * 1024 + i2);
  }

  /** Both passes over one zone: from the cursor to the end, then from the start to the cursor.
      The run counter is not reset in between. */
  method SearchZone(k: Kernel, zone: Zone, count: nat, ghost T: nat)
    returns (found: bool, address: nat, last: PageNo, ghost e: nat)
    requires k.ram.Length == RAM_WORDS && TablesPresent(k.Mem(), k.linearDir, T)
    ensures found <==> !NoRun(ZoneMarks(k.Mem(), k.linearDir, zone, T), count)
    ensures var bits := ZoneMarks(k.Mem(), k.linearDir, zone, T);
            var order := Order(zone, T);
            if found
            then FirstRunAt(bits, e, count) && address == Address(order[e + 1 - count]) && last == order[e]
            else NoRun(bits, count)
  {
    hide Available, LinearEntry, RunEndsAt, FirstRunAt, NoRun, Scanned, SweepAt, Sweep, Order, TablesPresent;
    TablesFew(k.Mem(), k.linearDir, T);
    ZoneSweeps(k.Mem(), k.linearDir, zone, T, count);
    ghost var order := Order(zone, T);
    ghost var bits := Marks(k.Mem(), k.linearDir, order);
    ghost var middle := |FirstSweep(zone, T)|;
    var c: nat;
    found, c, address, last, e :=
      SearchPass(k, Frame(zone.next), zone.end / TABLE_BYTES, count, 0, 0, T, order, bits, 0);
    if !found {
      found, c, address, last, e :=
        SearchPass(k, Frame(zone.start), zone.next / TABLE_BYTES, count, c, address, T, order, bits, middle);
    }
    if found {
      FoundRun(bits, e, count);
    } else {
      ScanComplete(order, bits, count, c, address);
    }
  }

  /** get_free_pages. The source spins forever when the search fails; `found` is false then. */
  method GetFreePages(k: Kernel, count: nat, first: nat, ghost T: nat)
    returns (found: bool, address: nat, ghost z: nat, ghost e: nat)
    requires k.ram.Length == RAM_WORDS && |k.zones| == 3 && first <= 3
    requires TablesPresent(k.Mem(), k.linearDir, T)
    modifies k.ram, k`zones
    ensures found ==> Allocates(old(k.Mem()), k.linearDir, old(k.zones), T, count, first,
                                k.Mem(), k.zones, address, z, e)
    ensures |k.zones| == 3
    ensures !found ==> k.Mem() == old(k.Mem()) && k.zones == old(k.zones)
                       && Exhausted(k.Mem(), k.linearDir, k.zones, T, count, first)
  {
    hide Available, RunEndsAt, FirstRunAt, NoRun, ZoneMarks, Order;
    z, found, address, e := first, false, 0, 0;
    var i0 := first;
    while i0 < 3
      invariant first <= i0 <= 3 && !found
      invariant k.Mem() == old(k.Mem()) && k.zones == old(k.zones)
      invariant forall i :: first <= i < i0 && k.zones[i].next != 0 ==>
                  NoRun(ZoneMarks(k.Mem(), k.linearDir, k.zones[i], T), count)
    {
      if k.zones[i0].next != 0 {
        var last: PageNo;
        found, address, last, e := SearchZone(k, k.zones[i0], count, T);
        if found {
          z := i0;
          AddressFits(k.zones[i0], k.Mem(), k.linearDir, T, count, e);
          k.Store(Frame(k.Load(k.linearDir, Dir(last))), Tab(last), LINEAR_ALLOCATED);
          k.zones := k.zones[i0 := k.zones[i0].(next := address + count * 4096)];
          return;
        }
      }
      i0 := i0 + 1;
    }
  }

  lemma AddressFits(z: Zone, m: Ram, ld: PageNo, T: nat, count: nat, e: nat)
    requires T <= 64 && FirstRunAt(ZoneMarks(m, ld, z, T), e, count)
    ensures Address(Order(z, T)[e + 1 - count]) + count * 4096 <= 0x4000_0000
  {
  }
}
