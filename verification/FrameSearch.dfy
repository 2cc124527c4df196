/** What the search of FrameAllocator finds when it is asked for a single frame. */
module FrameSearch {
  import opened Machine
  import opened FrameAllocator

  /** The linear tables are present for the slots below T, in distinct frames other than the directory. */
  ghost predicate LinearOk(m: Ram, ld: PageNo, T: nat) {
    && TablesPresent(m, ld, T)
    && (forall s: Slot :: s < T ==> Frame(Cell(m, ld, s)) != ld)
    && (forall s: Slot, t: Slot :: s < t < T ==> Frame(Cell(m, ld, s)) != Frame(Cell(m, ld, t)))
  }

  /** A frame number that lies in a present linear table. */
  ghost predicate InTables(g: PageNo, T: nat) {
    g < T * 1024
  }

  /** Writing one linear entry changes that entry, no other one, and keeps the directory. */
  lemma PokeLinearEffect(m: Ram, ld: PageNo, T: nat, g: PageNo, w: Word)
    requires LinearOk(m, ld, T) && InTables(g, T)
    ensures var m' := PokeLinear(m, ld, g, w);
            && LinearOk(m', ld, T)
            && (forall s: Slot :: Cell(m', ld, s) == Cell(m, ld, s))
            && LinearEntry(m', ld, g) == w
            && Available(m', ld, g) == LinAvailable(w)
            && (forall h: PageNo :: InTables(h, T) && h != g ==> LinearEntry(m', ld, h) == LinearEntry(m, ld, h))
            && (forall h: PageNo :: h != g ==> Available(m', ld, h) == Available(m, ld, h))
  {
    var m' := PokeLinear(m, ld, g, w);
    assert Dir(g) < T;
    assert forall s: Slot :: Cell(m', ld, s) == Cell(m, ld, s);
    forall h: PageNo | InTables(h, T) && h != g
      ensures LinearEntry(m', ld, h) == LinearEntry(m, ld, h)
    {
      assert h == PageAt(Dir(h), Tab(h)) && g == PageAt(Dir(g), Tab(g));
      assert Dir(h) < T;
    }
  }

  // ------------------------------------------------------------- single frames

  /** A successful search for one frame takes a frame that was available and not frame 0, marks
      it allocated, leaves every other linear entry as it was, and moves the cursor just past it. */
  lemma SingleFrameSound(m: Ram, ld: PageNo, zones: seq<Zone>, upper: nat, first: nat,
                         m': Ram, zones': seq<Zone>, address: nat, z: nat, e: nat)
    requires ZonesOk(zones, upper) && LinearOk(m, ld, TableCount(upper))
    requires Allocates(m, ld, zones, TableCount(upper), 1, first, m', zones', address, z, e)
    ensures ZonesOk(zones', upper) && LinearOk(m', ld, TableCount(upper))
    ensures address < 0x1000_0000 && address % 4096 == 0
    ensures var g: PageNo := address / 4096;
            && 1 <= g && InTables(g, TableCount(upper))
            && Available(m, ld, g) && !Available(m', ld, g)
            && m' == PokeLinear(m, ld, g, LINEAR_ALLOCATED)
            && LinearEntry(m', ld, g) == LINEAR_ALLOCATED
            && (forall h: PageNo :: InTables(h, TableCount(upper)) && h != g ==>
                  LinearEntry(m', ld, h) == LinearEntry(m, ld, h))
            && zones'[z].next == Address(g) + 4096
  {
    hide ZonesOk, LinearOk, Available, LinearEntry, PokeLinear, Order;
    ZoneCount(zones, upper);
    var T := TableCount(upper);
    var g := Order(zones[z], T)[e];
    VisitedFrames(zones, upper, z, e);
    CursorMoves(zones, upper, z, address + 4096);
    assert ZoneMarks(m, ld, zones[z], T)[e];
    PokeLinearEffect(m, ld, T, g, LINEAR_ALLOCATED);
  }

  lemma ZoneCount(zones: seq<Zone>, upper: nat)
    requires ZonesOk(zones, upper)
    ensures |zones| == 3 && TableCount(upper) <= 64
  {
  }

  lemma CursorMoves(zones: seq<Zone>, upper: nat, z: nat, next: Word)
    requires ZonesOk(zones, upper) && z < 3 && zones[z].next != 0
    requires next % 4096 == 0 && zones[z].start <= next <= 0x4000_0000 && next != 0
    ensures ZonesOk(zones[z := zones[z].(next := next)], upper)
  {
  }

  /** Every frame a search visits lies between the zone's start and the last present table. */
  lemma VisitedFrames(zones: seq<Zone>, upper: nat, z: nat, e: nat)
    requires ZonesOk(zones, upper) && z < 3 && zones[z].next != 0
    requires e < |Order(zones[z], TableCount(upper))|
    ensures var g := Order(zones[z], TableCount(upper))[e];
            1 <= Frame(zones[z].start) <= g && InTables(g, TableCount(upper))
  {
  }

  /** The search for one frame from ZONE_NORMAL fails exactly when no frame but frame 0 is available. */
  lemma SingleFrameComplete(m: Ram, ld: PageNo, zones: seq<Zone>, upper: nat)
    requires ZonesOk(zones, upper) && TablesPresent(m, ld, TableCount(upper))
    ensures Exhausted(m, ld, zones, TableCount(upper), 1, ZONE_NORMAL)
            <==> forall g: PageNo :: g >= 1 ==> !Available(m, ld, g)
  {
    hide LinearEntry;
    var T := TableCount(upper);
    forall g: PageNo | g >= 1 && Available(m, ld, g)
      ensures !Exhausted(m, ld, zones, T, 1, ZONE_NORMAL)
    {
      var z, e := FrameIsVisited(zones, upper, g);
      assert RunEndsAt(ZoneMarks(m, ld, zones[z], T), e, 1);
    }
    if forall g: PageNo :: g >= 1 ==> !Available(m, ld, g) {
      forall z, e: nat | 0 <= z < 3 && zones[z].next != 0 && e < |Order(zones[z], T)|
        ensures !RunEndsAt(ZoneMarks(m, ld, zones[z], T), e, 1)
      {
        VisitedFrames(zones, upper, z, e);
      }
    }
  }

  /** Together the sweeps of the three zones visit every frame of the present tables but frame 0. */
  lemma FrameIsVisited(zones: seq<Zone>, upper: nat, g: PageNo) returns (z: nat, e: nat)
    requires ZonesOk(zones, upper) && 1 <= g && InTables(g, TableCount(upper))
    ensures z < 3 && zones[z].next != 0
    ensures e < |Order(zones[z], TableCount(upper))| && Order(zones[z], TableCount(upper))[e] == g
  {
    var T := TableCount(upper);
    z := if g < 1024 then ZONE_KERNEL else if g < 4096 || upper <= 0x100_0000 then ZONE_DMA else ZONE_NORMAL;
    e := InOrder(zones[z], T, g);
  }

  /** Where the later of a zone's two sweeps ends. */
  function SweepsEnd(z: Zone, T: nat): nat {
    Larger(SweepEnd(z.end / TABLE_BYTES, T), SweepEnd(z.next / TABLE_BYTES, T))
  }

  function Larger(a: nat, b: nat): nat {
    if a < b then b else a
  }

  /** The frames that a search from ZONE_DMA looks at end where the sweeps of its two zones end. */
  function DmaLimit(zones: seq<Zone>, T: nat): nat
    requires |zones| == 3
  {
    Larger(SweepsEnd(zones[ZONE_DMA], T), SweepsEnd(zones[ZONE_KERNEL], T))
  }

  /** The search for one frame from ZONE_DMA fails exactly when no frame below that limit, but frame
      0, is available. */
  lemma SingleDmaComplete(m: Ram, ld: PageNo, zones: seq<Zone>, upper: nat)
    requires ZonesOk(zones, upper) && TablesPresent(m, ld, TableCount(upper))
    ensures Exhausted(m, ld, zones, TableCount(upper), 1, ZONE_DMA)
            <==> forall g: PageNo :: 1 <= g < DmaLimit(zones, TableCount(upper)) ==> !Available(m, ld, g)
  {
    hide LinearEntry, Available, ZonesOk, DmaLimit, Order, TablesPresent;
    var T := TableCount(upper);
    ZoneCount(zones, upper);
    forall g: PageNo | 1 <= g < DmaLimit(zones, T) && Available(m, ld, g)
      ensures !Exhausted(m, ld, zones, T, 1, ZONE_DMA)
    {
      var z, e := DmaFrameIsVisited(zones, upper, g);
      assert RunEndsAt(ZoneMarks(m, ld, zones[z], T), e, 1);
    }
    if forall g: PageNo :: 1 <= g < DmaLimit(zones, T) ==> !Available(m, ld, g) {
      forall z, e: nat | ZONE_DMA <= z < 3 && zones[z].next != 0 && e < |Order(zones[z], T)|
        ensures !RunEndsAt(ZoneMarks(m, ld, zones[z], T), e, 1)
      {
        DmaVisitedBelow(zones, upper, z, e);
      }
    }
  }

  /** The limit is not below 16 MiB, or the end of memory. */
  lemma DmaLimitLow(zones: seq<Zone>, upper: nat)
    requires ZonesOk(zones, upper)
    ensures DmaLimit(zones, TableCount(upper)) >= if TableCount(upper) < 4 then TableCount(upper) * 1024 else 0x1000
  {
  }

  // ---------------------------------------------------- which frame is taken

  /** What a search for one frame will give: nothing, or a frame and the moved cursor. */
  datatype Pick = NoFrame | Picked(frame: PageNo, zones: seq<Zone>)

  /** The search from zone `first` on, told from memory and zones before it: the first available frame
      in the order of the first zone that has one. */
  ghost function PickFrom(m: Ram, ld: PageNo, zones: seq<Zone>, T: nat, first: nat): Pick
    requires |zones| == 3 && T <= 64 && first <= 3
    decreases 3 - first
  {
    if first == 3 then NoFrame
    else if zones[first].next != 0 && exists e: nat :: FirstRunAt(ZoneMarks(m, ld, zones[first], T), e, 1) then
      PickAt(zones, T, first, FirstPosition(ZoneMarks(m, ld, zones[first], T)))
    else PickFrom(m, ld, zones, T, first + 1)
  }

  ghost function FirstPosition(bits: seq<bool>): (e: nat)
    requires exists e: nat :: FirstRunAt(bits, e, 1)
    ensures FirstRunAt(bits, e, 1)
  {
    var e: nat :| FirstRunAt(bits, e, 1);
    e
  }

  /** Position e of zone z is taken. */
  ghost function PickAt(zones: seq<Zone>, T: nat, z: nat, e: nat): Pick
    requires |zones| == 3 && T <= 64 && z < 3 && e < |Order(zones[z], T)|
  {
    var g := Order(zones[z], T)[e];
    OrderLow(zones[z], T, e);
    Picked(g, zones[z := zones[z].(next := Address(g) + 4096)])
  }

  lemma OrderLow(zone: Zone, T: nat, e: nat)
    requires T <= 64 && e < |Order(zone, T)|
    ensures Order(zone, T)[e] < 0x10000
  {
  }

  lemma FirstRunOnce(bits: seq<bool>, d: nat, e: nat, count: nat)
    requires FirstRunAt(bits, d, count) && FirstRunAt(bits, e, count)
    ensures d == e && !NoRun(bits, count)
  {
  }

  lemma NotPicked(m: Ram, ld: PageNo, zones: seq<Zone>, T: nat, first: nat)
    requires |zones| == 3 && T <= 64 && first < 3
    requires zones[first].next != 0 ==> NoRun(ZoneMarks(m, ld, zones[first], T), 1)
    ensures PickFrom(m, ld, zones, T, first) == PickFrom(m, ld, zones, T, first + 1)
  {
    hide FirstRunAt, NoRun, ZoneMarks, Order;
    var bits := ZoneMarks(m, ld, zones[first], T);
    if zones[first].next != 0 && exists d: nat :: FirstRunAt(bits, d, 1) {
      FirstRunOnce(bits, FirstPosition(bits), FirstPosition(bits), 1);
    }
  }

  /** A search that succeeds gives what was told. */
  lemma {:induction false} AllocatesPicked(m: Ram, ld: PageNo, zones: seq<Zone>, T: nat, first: nat,
                                           m': Ram, zones': seq<Zone>, address: nat, z: nat, e: nat)
    requires |zones| == 3 && T <= 64 && Allocates(m, ld, zones, T, 1, first, m', zones', address, z, e)
    ensures PickFrom(m, ld, zones, T, first) == Picked(address / 4096, zones')
    decreases 3 - first
  {
    hide FirstRunAt, NoRun, ZoneMarks, Order, PokeLinear;
    if first < z {
      NotPicked(m, ld, zones, T, first);
      AllocatesPicked(m, ld, zones, T, first + 1, m', zones', address, z, e);
    } else {
      var bits := ZoneMarks(m, ld, zones[first], T);
      FirstRunOnce(bits, FirstPosition(bits), e, 1);
    }
  }

  /** A search that fails was told to. */
  lemma {:induction false} ExhaustedPicks(m: Ram, ld: PageNo, zones: seq<Zone>, T: nat, first: nat)
    requires |zones| == 3 && T <= 64 && first <= 3 && Exhausted(m, ld, zones, T, 1, first)
    ensures PickFrom(m, ld, zones, T, first) == NoFrame
    decreases 3 - first
  {
    hide FirstRunAt, NoRun, ZoneMarks;
    if first < 3 {
      NotPicked(m, ld, zones, T, first);
      ExhaustedPicks(m, ld, zones, T, first + 1);
    }
  }

  /** An available frame at the cursor is taken. */
  lemma PickAtCursor(m: Ram, ld: PageNo, zones: seq<Zone>, T: nat, z: nat)
    requires |zones| == 3 && T <= 64 && z < 3 && zones[z].next != 0
    requires Frame(zones[z].next) < SweepEnd(zones[z].end / TABLE_BYTES, T) && Available(m, ld, Frame(zones[z].next))
    ensures Frame(zones[z].next) < 0x10000
    ensures PickFrom(m, ld, zones, T, z) ==
            var c := Frame(zones[z].next); Picked(c, zones[z := zones[z].(next := Address(c) + 4096)])
  {
    hide Available;
    var bits, c := ZoneMarks(m, ld, zones[z], T), Frame(zones[z].next);
    assert FirstSweep(zones[z], T)[0] == c;
    assert Order(zones[z], T)[0] == c && bits[0];
    assert RunEndsAt(bits, 0, 1);
    assert FirstRunAt(bits, 0, 1);
    FirstRunOnce(bits, FirstPosition(bits), 0, 1);
  }

  // --------------------------------------------------- frames beyond 16 MiB

  /** No frame from lo to hi is available. */
  ghost predicate NoneAvailable(m: Ram, ld: PageNo, lo: nat, hi: nat) {
    forall g: PageNo :: lo <= g < hi ==> !Available(m, ld, g)
  }

  function Smaller(a: nat, b: nat): nat {
    if a < b then a else b
  }

  /** Before a search for one frame that finds one in zone z: it lies at `limit` or above. No frame below it is
      available from the cursor on, and either one above it is, up to the end of the first sweep, or no frame
      below it is in the second sweep. */
  ghost predicate FindsAbove(m: Ram, ld: PageNo, z: Zone, T: nat, limit: nat) {
    var c, end := Frame(z.next), SweepEnd(z.end / TABLE_BYTES, T);
    && NoneAvailable(m, ld, c, Smaller(end, limit))
    && (|| !NoneAvailable(m, ld, Larger(c, limit), end)
        || NoneAvailable(m, ld, Frame(z.start), Smaller(SweepEnd(z.next / TABLE_BYTES, T), limit)))
  }

  lemma ZoneAboveIff(m: Ram, ld: PageNo, z: Zone, T: nat, e: nat, limit: nat)
    requires T <= 64 && FirstRunAt(ZoneMarks(m, ld, z, T), e, 1)
    ensures e < |Order(z, T)| && (Order(z, T)[e] >= limit <==> FindsAbove(m, ld, z, T, limit))
  {
    FirstInOrder(m, ld, Order(z, T), e);
    SweepsInOrder(z, T);
    hide Available, Order, SweepEnd, ZoneMarks, FirstRunAt;
    FirstAbove(m, ld, Order(z, T), Frame(z.next), SweepEnd(z.end / TABLE_BYTES, T), Frame(z.start),
               SweepEnd(z.next / TABLE_BYTES, T), e, limit);
  }

  /** The scan order is the frames from c up to end, then those from `start` up to end2. */
  ghost predicate TwoSweeps(order: seq<PageNo>, c: nat, end: nat, start: nat, end2: nat) {
    var n := if c < end then end - c else 0;
    && |order| == n + (if start < end2 then end2 - start else 0)
    && (forall j :: 0 <= j < n ==> order[j] == c + j)
    && (forall j :: n <= j < |order| ==> order[j] == start + j - n)
  }

  lemma SweepsInOrder(z: Zone, T: nat)
    requires T <= 64
    ensures TwoSweeps(Order(z, T), Frame(z.next), SweepEnd(z.end / TABLE_BYTES, T),
                      Frame(z.start), SweepEnd(z.next / TABLE_BYTES, T))
  {
    hide SweepEnd;
  }

  lemma FirstAbove(m: Ram, ld: PageNo, order: seq<PageNo>, c: nat, end: nat, start: nat, end2: nat, e: nat, limit: nat)
    requires TwoSweeps(order, c, end, start, end2)
    requires e < |order| && Available(m, ld, order[e]) && forall d :: 0 <= d < e ==> !Available(m, ld, order[d])
    ensures order[e] >= limit <==>
              NoneAvailable(m, ld, c, Smaller(end, limit)) &&
              (!NoneAvailable(m, ld, Larger(c, limit), end) || NoneAvailable(m, ld, start, Smaller(end2, limit)))
  {
    hide Available;
    var n: nat := if c < end then end - c else 0;
    if order[e] >= limit {
      forall g: PageNo | c <= g < Smaller(end, limit)
        ensures !Available(m, ld, g)
      {
        assert order[g - c] == g;
      }
      if e >= n {
        forall g: PageNo | start <= g < Smaller(end2, limit)
          ensures !Available(m, ld, g)
        {
          assert order[n + g - start] == g;
        }
      }
    } else if e >= n {
      forall g: PageNo | c <= g < end
        ensures !Available(m, ld, g)
      {
        assert order[g - c] == g;
      }
    }
  }

  lemma FirstInOrder(m: Ram, ld: PageNo, order: seq<PageNo>, e: nat)
    requires FirstRunAt(Marks(m, ld, order), e, 1)
    ensures e < |order| && Available(m, ld, order[e])
    ensures forall d :: 0 <= d < e ==> !Available(m, ld, order[d])
  {
    hide Available;
    var bits := Marks(m, ld, order);
    forall d: nat | d < e
      ensures !Available(m, ld, order[d])
    {
      assert !RunEndsAt(bits, d, 1);
    }
  }

  /** The zone that a DMA search for one frame will take it from. */
  ghost function DmaZone(m: Ram, ld: PageNo, zones: seq<Zone>, T: nat): (z: nat)
    requires |zones| == 3 && T <= 64
    ensures z == ZONE_DMA || z == ZONE_KERNEL
  {
    if zones[ZONE_DMA].next != 0 && !NoRun(ZoneMarks(m, ld, zones[ZONE_DMA], T), 1) then ZONE_DMA else ZONE_KERNEL
  }

  /** Before a DMA search for one frame that finds one: the frame lies at 16 MiB or above. */
  ghost predicate DmaFindsAbove(m: Ram, ld: PageNo, zones: seq<Zone>, T: nat)
    requires |zones| == 3 && T <= 64
  {
    FindsAbove(m, ld, zones[DmaZone(m, ld, zones, T)], T, 0x1000)
  }

  /** ZONE_DMA is meant for frames below 16 MiB, but its sweep goes on to the end of the table that begins
      there, and when the zone is full the search goes on in ZONE_KERNEL. The frame that a DMA search finds
      lies at 16 MiB or above exactly when `DmaFindsAbove` held before the search. */
  lemma DmaAboveIff(m: Ram, ld: PageNo, zones: seq<Zone>, T: nat)
    requires |zones| == 3 && T <= 64 && PickFrom(m, ld, zones, T, ZONE_DMA).Picked?
    ensures PickFrom(m, ld, zones, T, ZONE_DMA).frame >= 0x1000 <==>
              DmaFindsAbove(m, ld, zones, T)
  {
    hide FirstRunAt, ZoneMarks, Order, FindsAbove, NoRun;
    var z := DmaZone(m, ld, zones, T);
    if z == ZONE_KERNEL {
      NotPicked(m, ld, zones, T, ZONE_DMA);
    }
    PickedInZone(m, ld, zones, T, z);
    ZoneAboveIff(m, ld, zones[z], T, FirstPosition(ZoneMarks(m, ld, zones[z], T)), 0x1000);
  }

  lemma PickedInZone(m: Ram, ld: PageNo, zones: seq<Zone>, T: nat, z: nat)
    requires |zones| == 3 && T <= 64 && z < 3 && PickFrom(m, ld, zones, T, z).Picked?
    requires z == ZONE_KERNEL || (zones[z].next != 0 && !NoRun(ZoneMarks(m, ld, zones[z], T), 1))
    ensures var bits := ZoneMarks(m, ld, zones[z], T);
            && zones[z].next != 0 && (exists e: nat :: FirstRunAt(bits, e, 1))
            && FirstPosition(bits) < |Order(zones[z], T)|
            && PickFrom(m, ld, zones, T, z).frame == Order(zones[z], T)[FirstPosition(bits)]
  {
    var bits := ZoneMarks(m, ld, zones[z], T);
    hide ZoneMarks, Order;
    if !NoRun(bits, 1) {
      var e: nat :| e < |bits| && RunEndsAt(bits, e, 1);
      SomeFirst(bits, e);
    }
    if z == ZONE_KERNEL {
      assert PickFrom(m, ld, zones, T, 3) == NoFrame;
    }
  }

  lemma {:induction false} SomeFirst(bits: seq<bool>, e: nat)
    requires RunEndsAt(bits, e, 1)
    ensures exists d: nat :: FirstRunAt(bits, d, 1)
    decreases e
  {
    if d: nat :| d < e && RunEndsAt(bits, d, 1) {
      SomeFirst(bits, d);
    } else {
      assert FirstRunAt(bits, e, 1);
    }
  }

  /** With the cursor at 16 MiB, a DMA search takes the frame that begins there when it is available. */
  lemma DmaBeyond(m: Ram, ld: PageNo, zones: seq<Zone>, T: nat)
    requires |zones| == 3 && 5 <= T <= 64 && Available(m, ld, 0x1000)
    requires zones[ZONE_DMA] == Zone(0x100_0000, 0x10_0000, 0x100_0000)
    ensures PickFrom(m, ld, zones, T, ZONE_DMA).Picked? && PickFrom(m, ld, zones, T, ZONE_DMA).frame == 0x1000
  {
    hide Available;
    PickAtCursor(m, ld, zones, T, ZONE_DMA);
  }

  lemma DmaVisitedBelow(zones: seq<Zone>, upper: nat, z: nat, e: nat)
    requires ZonesOk(zones, upper) && ZONE_DMA <= z < 3 && e < |Order(zones[z], TableCount(upper))|
    ensures 1 <= Order(zones[z], TableCount(upper))[e] < DmaLimit(zones, TableCount(upper))
  {
    ZoneNext(zones, upper, z);
    hide Order, SweepsEnd, ZonesOk, TableCount, DmaLimit;
    VisitedFrames(zones, upper, z, e);
    VisitedBelow(zones[z], TableCount(upper), e);
    LimitAbove(zones, TableCount(upper), z);
  }

  lemma LimitAbove(zones: seq<Zone>, T: nat, z: nat)
    requires |zones| == 3 && ZONE_DMA <= z < 3
    ensures SweepsEnd(zones[z], T) <= DmaLimit(zones, T)
  {
    hide SweepsEnd;
  }

  lemma ZoneNext(zones: seq<Zone>, upper: nat, z: nat)
    requires ZonesOk(zones, upper) && ZONE_DMA <= z < 3
    ensures zones[z].next != 0 && TableCount(upper) <= 64
  {
  }

  lemma VisitedBelow(zone: Zone, T: nat, e: nat)
    requires T <= 64 && e < |Order(zone, T)|
    ensures Order(zone, T)[e] < SweepsEnd(zone, T)
  {
  }

  lemma DmaFrameIsVisited(zones: seq<Zone>, upper: nat, g: PageNo) returns (z: nat, e: nat)
    requires ZonesOk(zones, upper) && 1 <= g < DmaLimit(zones, TableCount(upper))
    ensures ZONE_DMA <= z < 3 && zones[z].next != 0
    ensures e < |Order(zones[z], TableCount(upper))| && Order(zones[z], TableCount(upper))[e] == g
  {
    var T := TableCount(upper);
    z := if g >= 0x100 && g < SweepsEnd(zones[ZONE_DMA], T) then ZONE_DMA else ZONE_KERNEL;
    DmaZoneSweeps(zones, upper, g);
    hide ZonesOk, DmaLimit, Order, SweepsEnd;
    e := InOrder(zones[z], T, g);
  }

  lemma DmaZoneSweeps(zones: seq<Zone>, upper: nat, g: PageNo)
    requires ZonesOk(zones, upper) && 1 <= g < DmaLimit(zones, TableCount(upper))
    ensures TableCount(upper) <= 64 && zones[ZONE_DMA].next != 0 && zones[ZONE_KERNEL].next != 0
    ensures zones[ZONE_DMA].start <= zones[ZONE_DMA].next && zones[ZONE_KERNEL].start <= zones[ZONE_KERNEL].next
    ensures Frame(zones[ZONE_DMA].start) == 0x100 && Frame(zones[ZONE_KERNEL].start) == 1
    ensures g < 0x100 || g >= SweepsEnd(zones[ZONE_DMA], TableCount(upper)) ==>
              g < SweepsEnd(zones[ZONE_KERNEL], TableCount(upper))
  {
    hide SweepEnd;
    KernelSweepEnd(zones[ZONE_KERNEL], TableCount(upper));
  }

  /** The sweep of a zone that ends within the first 4 MiB covers the first table. */
  lemma KernelSweepEnd(zone: Zone, T: nat)
    requires 1 <= T && zone.end < TABLE_BYTES
    ensures SweepsEnd(zone, T) >= 1024
  {
  }

  /** A frame of the sweeps that lies below the cursor lies in the second one. */
  lemma BelowCursor(zone: Zone, T: nat, g: nat)
    requires g < SweepsEnd(zone, T) && (g < Frame(zone.next) || g >= SweepEnd(zone.end / TABLE_BYTES, T))
    ensures g < SweepEnd(zone.next / TABLE_BYTES, T)
  {
  }

  /** A frame between a zone's start and the end of a sweep is visited. */
  lemma InOrder(zone: Zone, T: nat, g: PageNo) returns (e: nat)
    requires T <= 64 && zone.start <= zone.next
    requires Frame(zone.start) <= g
    requires g < SweepsEnd(zone, T)
    ensures e < |Order(zone, T)| && Order(zone, T)[e] == g
  {
    hide SweepEnd;
    var n := Frame(zone.next);
    if n <= g && g < SweepEnd(zone.end / TABLE_BYTES, T) {
      e := g - n;
      assert FirstSweep(zone, T)[e] == g;
    } else {
      BelowCursor(zone, T, g);
      e := |FirstSweep(zone, T)| + (g - Frame(zone.start));
      assert g < SweepEnd(zone.next / TABLE_BYTES, T);
      assert Sweep(Frame(zone.start), zone.next / TABLE_BYTES, T)[g - Frame(zone.start)] == g;
    }
  }

  /** The allocator part of the kernel state is as the boot code sets it up. */
  ghost predicate AllocatorOk(k: Kernel)
    reads k, k.ram
  {
    k.ram.Length == RAM_WORDS && ZonesOk(k.zones, k.upper)
  }

  /** get_free_pages for a single page, the form in which page tables and page contents are
      allocated. On failure no frame but frame 0 is available (searching from ZONE_NORMAL). */
  method GetFreePage(k: Kernel, first: nat) returns (found: bool, g: PageNo)
    requires AllocatorOk(k) && first < 3
    requires LinearOk(k.Mem(), k.linearDir, TableCount(k.upper))
    modifies k.ram, k`zones
    ensures AllocatorOk(k)
    ensures found ==>
              && 1 <= g && InTables(g, TableCount(k.upper))
              && Available(old(k.Mem()), k.linearDir, g)
              && k.Mem() == PokeLinear(old(k.Mem()), k.linearDir, g, LINEAR_ALLOCATED)
    ensures !found ==> k.Mem() == old(k.Mem()) && k.zones == old(k.zones)
    ensures !found ==> Exhausted(k.Mem(), k.linearDir, k.zones, TableCount(k.upper), 1, first)
    ensures !found && first == ZONE_NORMAL ==> forall h: PageNo :: h >= 1 ==> !Available(k.Mem(), k.linearDir, h)
    ensures |old(k.zones)| == 3 && TableCount(k.upper) <= 64
    ensures PickFrom(old(k.Mem()), k.linearDir, old(k.zones), TableCount(k.upper), first) ==
            if found then Picked(g, k.zones) else NoFrame
  {
    hide LinearOk, Available, LinearEntry, PokeLinear, ZonesOk, Allocates, Exhausted, PickFrom;
    ZoneCount(k.zones, k.upper);
    LinearTables(k.Mem(), k.linearDir, TableCount(k.upper));
    ghost var m, zs := k.Mem(), k.zones;
    var address: nat;
    ghost var z: nat;
    ghost var e: nat;
    found, address, z, e := GetFreePages(k, 1, first, TableCount(k.upper));
    g := 0;
    if found {
      SingleFrameSound(m, k.linearDir, zs, k.upper, first, k.Mem(), k.zones, address, z, e);
      AllocatesPicked(m, k.linearDir, zs, TableCount(k.upper), first, k.Mem(), k.zones, address, z, e);
      g := address / 4096;
    } else {
      ExhaustedPicks(m, k.linearDir, zs, TableCount(k.upper), first);
      if first == ZONE_NORMAL {
        SingleFrameComplete(m, k.linearDir, zs, k.upper);
      }
    }
  }

  lemma LinearTables(m: Ram, ld: PageNo, T: nat)
    requires LinearOk(m, ld, T)
    ensures TablesPresent(m, ld, T)
  {
  }
}
