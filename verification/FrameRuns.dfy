/** What the search of FrameAllocator finds when it is asked for several frames. */
module FrameRuns {
  import opened Machine
  import opened FrameAllocator
  import opened FrameSearch

  /** The `count` frames visited up to position e. */
  ghost function Run(order: seq<PageNo>, e: nat, count: nat): seq<PageNo>
    requires 1 <= count <= e + 1 <= |order|
  {
    order[e + 1 - count..e + 1]
  }

  ghost predicate Contiguous(run: seq<PageNo>) {
    forall j :: 0 <= j < |run| ==> run[j] == run[0] + j
  }

  /** The run began before the wrap to the zone's start and ended after it. */
  ghost predicate Straddles(zone: Zone, T: nat, e: nat, count: nat)
    requires T <= 64
  {
    e + 1 - count < |FirstSweep(zone, T)| <= e
  }

  /** A run found by the search is a block of consecutive frames unless it straddles the wrap,
      where the run counter is carried over. */
  lemma ContiguousUnlessStraddling(m: Ram, ld: PageNo, zone: Zone, T: nat, e: nat, count: nat)
    requires T <= 64 && zone.start <= zone.next
    requires FirstRunAt(ZoneMarks(m, ld, zone, T), e, count)
    ensures Contiguous(Run(Order(zone, T), e, count)) <==> !Straddles(zone, T, e, count)
  {
    RunBounds(m, ld, zone, T, e, count);
    hide Contiguous, Run, FirstRunAt;
    SplitContiguousSweeps(zone, T, e, count);
  }

  lemma RunBounds(m: Ram, ld: PageNo, zone: Zone, T: nat, e: nat, count: nat)
    requires T <= 64 && FirstRunAt(ZoneMarks(m, ld, zone, T), e, count)
    ensures 1 <= count <= e + 1 <= |Order(zone, T)|
  {
  }

  lemma SplitContiguousSweeps(zone: Zone, T: nat, e: nat, count: nat)
    requires T <= 64 && 1 <= count <= e + 1 <= |Order(zone, T)| && zone.start <= zone.next
    ensures Contiguous(Run(Order(zone, T), e, count)) <==> !(e + 1 - count < |FirstSweep(zone, T)| <= e)
  {
    var a, b := FirstSweep(zone, T), Sweep(Frame(zone.start), zone.next / TABLE_BYTES, T);
    SweepContiguous(Frame(zone.next), zone.end / TABLE_BYTES, T);
    SweepContiguous(Frame(zone.start), zone.next / TABLE_BYTES, T);
    SplitContiguous(a, b, e, count);
  }

  lemma SweepContiguous(from: nat, table: nat, T: nat)
    requires T <= 64
    ensures Contiguous(Sweep(from, table, T))
  {
  }

  /** A stretch of two ascending blocks, the second not beginning above the first, is ascending
      exactly when it stays within one block. */
  lemma SplitContiguous(a: seq<PageNo>, b: seq<PageNo>, e: nat, count: nat)
    requires Contiguous(a) && Contiguous(b) && 1 <= count <= e + 1 <= |a + b|
    requires a != [] && b != [] ==> b[0] <= a[0]
    ensures Contiguous(Run(a + b, e, count)) <==> !(e + 1 - count < |a| <= e)
  {
    var run := Run(a + b, e, count);
    var s := e + 1 - count;
    if s < |a| <= e {
      AcrossRun(a, b, e, count);
      assert a[s] == a[0] + s;
      assert run[|a| - s] != run[0] + (|a| - s);
    } else if e < |a| {
      assert (a + b)[s..e + 1] == a[s..e + 1];
      SliceContiguous(a, s, e + 1);
    } else {
      DropSlice(a, b, s, e + 1);
      SliceContiguous(b, s - |a|, e + 1 - |a|);
    }
  }

  /** A stretch across the border begins in the first block and goes on with the first element of the second. */
  lemma AcrossRun(a: seq<PageNo>, b: seq<PageNo>, e: nat, count: nat)
    requires 1 <= count <= e + 1 <= |a + b| && e + 1 - count < |a| <= e
    ensures var run, s := Run(a + b, e, count), e + 1 - count; run[0] == a[s] && run[|a| - s] == b[0]
  {
    var run, s := Run(a + b, e, count), e + 1 - count;
    assert run[0] == (a + b)[s] && run[|a| - s] == (a + b)[|a|];
  }

  lemma DropSlice(a: seq<PageNo>, b: seq<PageNo>, lo: nat, hi: nat)
    requires |a| <= lo <= hi <= |a + b|
    ensures (a + b)[lo..hi] == b[lo - |a|..hi - |a|]
  {
    var l, r := (a + b)[lo..hi], b[lo - |a|..hi - |a|];
    assert |l| == |r| && forall j :: 0 <= j < |l| ==> l[j] == r[j];
  }

  lemma SliceContiguous(a: seq<PageNo>, lo: nat, hi: nat)
    requires Contiguous(a) && lo < hi <= |a|
    ensures Contiguous(a[lo..hi])
  {
    assert a[lo] == a[0] + lo;
    forall j | 0 <= j < hi - lo
      ensures a[lo..hi][j] == a[lo..hi][0] + j
    {
      assert a[lo + j] == a[0] + (lo + j);
    }
  }

  /** The last d frames before position n and the first count - d from there are all available. */
  ghost predicate BlockAcross(bits: seq<bool>, n: nat, count: nat, d: nat) {
    1 <= d < count && d <= n && n + count - d <= |bits| && forall j :: n - d <= j < n + count - d ==> bits[j]
  }

  /** Before a search for `count` frames: no run is complete before the wrap, and one goes across it. */
  ghost predicate WrapInside(m: Ram, ld: PageNo, zone: Zone, T: nat, count: nat)
    requires T <= 64
  {
    var bits, n := ZoneMarks(m, ld, zone, T), |FirstSweep(zone, T)|;
    NoRun(bits[..n], count) && exists d :: BlockAcross(bits, n, count, d)
  }

  /** The first run straddles position n exactly when no run is complete before n and a run goes
      across it. */
  lemma FirstRunAcrossIff(bits: seq<bool>, n: nat, e: nat, count: nat)
    requires FirstRunAt(bits, e, count) && n <= |bits|
    ensures e + 1 - count < n <= e <==> NoRun(bits[..n], count) && exists d :: BlockAcross(bits, n, count, d)
  {
    forall f: nat | f < n
      ensures RunEndsAt(bits[..n], f, count) <==> RunEndsAt(bits, f, count)
    {
    }
    if e + 1 - count < n <= e {
      assert BlockAcross(bits, n, count, n - (e + 1 - count));
    }
    if NoRun(bits[..n], count) && exists d :: BlockAcross(bits, n, count, d) {
      var d :| BlockAcross(bits, n, count, d);
      assert RunEndsAt(bits, n + count - d - 1, count);
    }
  }

  /** A run that is found is a block of consecutive frames exactly when, before the search, a run was
      complete before the wrap or none went across it. */
  lemma RunContiguousIff(m: Ram, ld: PageNo, zone: Zone, T: nat, e: nat, count: nat)
    requires T <= 64 && zone.start <= zone.next
    requires FirstRunAt(ZoneMarks(m, ld, zone, T), e, count)
    ensures Contiguous(Run(Order(zone, T), e, count)) <==> !WrapInside(m, ld, zone, T, count)
  {
    hide Marks, Contiguous, Run, NoRun, BlockAcross, FirstRunAt;
    ContiguousUnlessStraddling(m, ld, zone, T, e, count);
    FirstRunAcrossIff(ZoneMarks(m, ld, zone, T), |FirstSweep(zone, T)|, e, count);
  }

  /** A run that is no block: only the last frame before the wrap and the zone's first frame are
      available, and a search for two frames takes them. */
  lemma StraddlingRun(m: Ram, ld: PageNo, zone: Zone, T: nat)
    requires T <= 64 && zone.start < zone.next && Frame(zone.start) < Frame(zone.next)
    requires FirstSweep(zone, T) != [] && Frame(zone.start) < SweepEnd(zone.next / TABLE_BYTES, T)
    requires var order, middle := Order(zone, T), |FirstSweep(zone, T)|;
             forall j :: 0 <= j <= middle ==> (Available(m, ld, order[j]) <==> j == middle - 1 || j == middle)
    ensures var middle := |FirstSweep(zone, T)|;
            && FirstRunAt(ZoneMarks(m, ld, zone, T), middle, 2)
            && !Contiguous(Run(Order(zone, T), middle, 2))
  {
    hide Available;
    var middle := |FirstSweep(zone, T)|;
    var bits := ZoneMarks(m, ld, zone, T);
    assert bits[middle - 1] && bits[middle];
    forall d: nat | d < middle
      ensures !RunEndsAt(bits, d, 2)
    {
      if d > 0 {
        assert !bits[d - 1];
      }
    }
    ContiguousUnlessStraddling(m, ld, zone, T, middle, 2);
  }

  /** When the last frame before the wrap is not available no run straddles it. */
  lemma NoStraddle(m: Ram, ld: PageNo, zone: Zone, T: nat, e: nat, count: nat)
    requires T <= 64 && FirstRunAt(ZoneMarks(m, ld, zone, T), e, count)
    requires var sweep := FirstSweep(zone, T);
             sweep == [] || !Available(m, ld, sweep[|sweep| - 1])
    ensures !Straddles(zone, T, e, count)
  {
    hide Available;
    var middle := |FirstSweep(zone, T)|;
    assert middle > 0 && middle <= e ==> !ZoneMarks(m, ld, zone, T)[middle - 1];
  }

  /** Of the pages of a contiguous run only the last one is marked, so every page but the last
      can be handed out again. */
  lemma OnlyLastPageMarked(m: Ram, ld: PageNo, zones: seq<Zone>, upper: nat, count: nat, first: nat,
                           m': Ram, zones': seq<Zone>, address: nat, z: nat, e: nat)
    requires ZonesOk(zones, upper) && LinearOk(m, ld, TableCount(upper))
    requires Allocates(m, ld, zones, TableCount(upper), count, first, m', zones', address, z, e)
    requires Contiguous(Run(Order(zones[z], TableCount(upper)), e, count))
    ensures var run := Run(Order(zones[z], TableCount(upper)), e, count);
            forall j :: 0 <= j < count ==>
              && Available(m, ld, run[j])
              && (Available(m', ld, run[j]) <==> j != count - 1)
  {
    hide ZonesOk, LinearOk, Available, LinearEntry, PokeLinear, Order;
    ZoneCount(zones, upper);
    var T := TableCount(upper);
    var order := Order(zones[z], T);
    var run := Run(order, e, count);
    VisitedFrames(zones, upper, z, e);
    PokeLinearEffect(m, ld, T, order[e], LINEAR_ALLOCATED);
    forall j | 0 <= j < count
      ensures Available(m, ld, run[j])
      ensures Available(m', ld, run[j]) <==> j != count - 1
    {
      assert ZoneMarks(m, ld, zones[z], T)[e + 1 - count + j];
      assert run[count - 1] == order[e];
    }
  }

  /** Before a search for `count` frames: the run that it will find goes across the wrap of its zone. */
  ghost predicate RunWraps(m: Ram, ld: PageNo, zones: seq<Zone>, T: nat, count: nat, first: nat)
    requires |zones| == 3 && T <= 64
  {
    exists z :: first <= z < 3 && WrapsFirst(m, ld, zones, T, count, first, z)
  }

  /** Zone z is the first that has a run, and its first run goes across the wrap. */
  ghost predicate WrapsFirst(m: Ram, ld: PageNo, zones: seq<Zone>, T: nat, count: nat, first: nat, z: nat)
    requires |zones| == 3 && T <= 64 && z < 3
  {
    && zones[z].next != 0 && WrapInside(m, ld, zones[z], T, count)
    && forall i :: first <= i < z && zones[i].next != 0 ==> NoRun(ZoneMarks(m, ld, zones[i], T), count)
  }

  lemma OneFrameNeverWraps(m: Ram, ld: PageNo, zones: seq<Zone>, T: nat, first: nat)
    requires |zones| == 3 && T <= 64
    ensures !RunWraps(m, ld, zones, T, 1, first)
  {
    hide ZoneMarks, NoRun;
  }

  lemma WrapIsRun(m: Ram, ld: PageNo, zone: Zone, T: nat, count: nat)
    requires T <= 64 && WrapInside(m, ld, zone, T, count)
    ensures !NoRun(ZoneMarks(m, ld, zone, T), count)
  {
    var bits, n := ZoneMarks(m, ld, zone, T), |FirstSweep(zone, T)|;
    var d :| BlockAcross(bits, n, count, d);
    hide ZoneMarks, FirstSweep;
    assert RunEndsAt(bits, n + count - d - 1, count);
  }

  /** Decides it by the searches alone, without taking anything. */
  method WillWrap(k: Kernel, count: nat, first: nat) returns (wraps: bool)
    requires AllocatorOk(k) && LinearOk(k.Mem(), k.linearDir, TableCount(k.upper)) && first < 3
    ensures |k.zones| == 3 && TableCount(k.upper) <= 64
    ensures wraps == RunWraps(k.Mem(), k.linearDir, k.zones, TableCount(k.upper), count, first)
  {
    hide LinearOk, ZonesOk, NoRun, ZoneMarks, Order, WrapInside, FirstRunAt;
    ZoneCount(k.zones, k.upper);
    LinearTables(k.Mem(), k.linearDir, TableCount(k.upper));
    ghost var T := TableCount(k.upper);
    var i0 := first;
    while i0 < 3
      invariant first <= i0 <= 3
      invariant forall i :: first <= i < i0 && k.zones[i].next != 0 ==>
                  NoRun(ZoneMarks(k.Mem(), k.linearDir, k.zones[i], T), count)
    {
      if k.zones[i0].next != 0 {
        var found, address, last;
        ghost var e;
        found, address, last, e := SearchZone(k, k.zones[i0], count, T);
        if found {
          ZoneStarts(k.zones, k.upper, i0);
          RunBounds(k.Mem(), k.linearDir, k.zones[i0], T, e, count);
          RunContiguousIff(k.Mem(), k.linearDir, k.zones[i0], T, e, count);
          EndsOfRun(k.zones[i0], T, e, count);
          FirstZone(k.Mem(), k.linearDir, k.zones, T, count, first, i0);
          return last != address / 4096 + (count - 1);
        }
      }
      i0 := i0 + 1;
    }
    NoZone(k.Mem(), k.linearDir, k.zones, T, count, first);
    wraps := false;
  }

  /** A run is a block exactly when its ends are as far apart as they should be. */
  lemma EndsOfRun(zone: Zone, T: nat, e: nat, count: nat)
    requires T <= 64 && 1 <= count <= e + 1 <= |Order(zone, T)| && zone.start <= zone.next
    ensures Contiguous(Run(Order(zone, T), e, count)) <==>
              Order(zone, T)[e] == Order(zone, T)[e + 1 - count] + (count - 1)
  {
    var order := Order(zone, T);
    var run, n := Run(order, e, count), |FirstSweep(zone, T)|;
    assert run[0] == order[e + 1 - count] && run[count - 1] == order[e];
    SplitContiguousSweeps(zone, T, e, count);
    if e + 1 - count < n <= e {
      assert order[e + 1 - count] == Frame(zone.next) + (e + 1 - count);
      assert order[e] == Frame(zone.start) + (e - n);
    }
  }

  lemma FirstZone(m: Ram, ld: PageNo, zones: seq<Zone>, T: nat, count: nat, first: nat, z: nat)
    requires |zones| == 3 && T <= 64 && first <= z < 3 && zones[z].next != 0
    requires !NoRun(ZoneMarks(m, ld, zones[z], T), count)
    requires forall i :: first <= i < z && zones[i].next != 0 ==> NoRun(ZoneMarks(m, ld, zones[i], T), count)
    ensures RunWraps(m, ld, zones, T, count, first) <==> WrapInside(m, ld, zones[z], T, count)
  {
    hide NoRun, ZoneMarks, WrapInside;
    if RunWraps(m, ld, zones, T, count, first) {
      var y :| first <= y < 3 && WrapsFirst(m, ld, zones, T, count, first, y);
      WrapIsRun(m, ld, zones[y], T, count);
      assert y == z;
    }
    assert WrapInside(m, ld, zones[z], T, count) ==> WrapsFirst(m, ld, zones, T, count, first, z);
  }

  lemma NoZone(m: Ram, ld: PageNo, zones: seq<Zone>, T: nat, count: nat, first: nat)
    requires |zones| == 3 && T <= 64
    requires forall i :: first <= i < 3 && zones[i].next != 0 ==> NoRun(ZoneMarks(m, ld, zones[i], T), count)
    ensures !RunWraps(m, ld, zones, T, count, first)
  {
    hide NoRun, ZoneMarks, WrapInside;
    if RunWraps(m, ld, zones, T, count, first) {
      var y :| first <= y < 3 && WrapsFirst(m, ld, zones, T, count, first, y);
      WrapIsRun(m, ld, zones[y], T, count);
    }
  }

  /** Otherwise a search that succeeds takes a block of available frames, none of them frame 0, and marks
      the last. */
  lemma RunSound(m: Ram, ld: PageNo, zones: seq<Zone>, upper: nat, count: nat, first: nat,
                 m': Ram, zones': seq<Zone>, address: nat, z: nat, e: nat)
    requires ZonesOk(zones, upper) && LinearOk(m, ld, TableCount(upper))
    requires Allocates(m, ld, zones, TableCount(upper), count, first, m', zones', address, z, e)
    requires |zones| == 3 && TableCount(upper) <= 64 && !RunWraps(m, ld, zones, TableCount(upper), count, first)
    ensures ZonesOk(zones', upper)
    ensures var g := address / 4096;
            && count >= 1 && 1 <= g && g + count <= TableCount(upper) * 1024 <= 0x10000
            && m' == PokeLinear(m, ld, g + count - 1, LINEAR_ALLOCATED)
            && (forall j: PageNo :: g <= j < g + count ==> Available(m, ld, j))
            && forall j: PageNo :: g <= j < g + count ==> j in Order(zones[z], TableCount(upper))
  {
    hide ZonesOk, LinearOk, Available, LinearEntry, PokeLinear, Order, WrapInside, FirstRunAt;
    ZoneStarts(zones, upper, z);
    var T := TableCount(upper);
    var order := Order(zones[z], T);
    assert !WrapInside(m, ld, zones[z], T, count) by {
      assert !WrapsFirst(m, ld, zones, T, count, first, z);
    }
    RunBounds(m, ld, zones[z], T, e, count);
    RunContiguousIff(m, ld, zones[z], T, e, count);
    var run := Run(order, e, count);
    VisitedFrames(zones, upper, z, e + 1 - count);
    VisitedFrames(zones, upper, z, e);
    assert run[0] == order[e + 1 - count] && run[count - 1] == order[e];
    OnlyLastPageMarked(m, ld, zones, upper, count, first, m', zones', address, z, e);
    AddressFits(zones[z], m, ld, T, count, e);
    CursorMoves(zones, upper, z, address + count * 4096);
    forall j: PageNo | run[0] <= j < run[0] + count
      ensures Available(m, ld, j) && j in order
    {
      assert run[j - run[0]] == j;
      assert order[e + 1 - count + (j - run[0])] == j;
    }
  }

  lemma ZoneStarts(zones: seq<Zone>, upper: nat, z: nat)
    requires ZonesOk(zones, upper) && z < 3 && |zones| == 3 && zones[z].next != 0
    ensures zones[z].start <= zones[z].next && TableCount(upper) <= 64
  {
  }

  /** A search leaves the cursor of its zone behind the run, counted from its first frame, and every other cursor
      where it was; the next search of the zone begins there. */
  lemma CursorBehind(m: Ram, ld: PageNo, zones: seq<Zone>, T: nat, count: nat, first: nat,
                     m': Ram, zones': seq<Zone>, address: nat, z: nat, e: nat)
    requires |zones| == 3 && T <= 64 && Allocates(m, ld, zones, T, count, first, m', zones', address, z, e)
    ensures |zones'| == 3 && z < 3 && 1 <= count <= e + 1 <= |Order(zones[z], T)|
    ensures Frame(zones'[z].next) == Run(Order(zones[z], T), e, count)[0] + count && zones'[z].next % 4096 == 0
    ensures zones'[z].start == zones[z].start && zones'[z].end == zones[z].end
    ensures forall i :: 0 <= i < 3 && i != z ==> zones'[i] == zones[i]
  {
    RunBounds(m, ld, zones[z], T, e, count);
    hide FirstRunAt, NoRun, ZoneMarks, Order, PokeLinear;
    assert Run(Order(zones[z], T), e, count)[0] == Order(zones[z], T)[e + 1 - count];
  }

  /** One successful search of a zone and the pages it handed out. */
  datatype Search = Search(mem: Ram, zone: Zone, e: nat, pages: seq<PageNo>)

  /** A search that succeeded before the wrap. */
  ghost predicate Forward(ld: PageNo, T: nat, s: Search)
    requires T <= 64
  {
    && FirstRunAt(ZoneMarks(s.mem, ld, s.zone, T), s.e, |s.pages|)
    && s.e < |FirstSweep(s.zone, T)|
    && s.pages == Run(Order(s.zone, T), s.e, |s.pages|)
  }

  /** Consecutive searches of one zone that did not wrap; each finds the cursor where the one
      before it left it, and anything may have happened to memory in between. */
  ghost predicate ForwardSearches(ld: PageNo, T: nat, run: seq<Search>)
    requires T <= 64
  {
    && (forall i :: 0 <= i < |run| ==> Forward(ld, T, run[i]) && |run[i].pages| > 0)
    && (forall i :: 0 < i < |run| ==>
          Frame(run[i].zone.next) == run[i - 1].pages[0] + |run[i - 1].pages|)
  }

  /** A search that did not wrap took its frames at or after the old cursor, before the new one. */
  lemma PagesBelowCursor(ld: PageNo, T: nat, s: Search, j: nat)
    requires T <= 64 && Forward(ld, T, s) && j < |s.pages|
    ensures Frame(s.zone.next) <= s.pages[j] < s.pages[0] + |s.pages|
  {
    hide ZoneMarks;
    assert s.pages[j] == FirstSweep(s.zone, T)[s.e + 1 - |s.pages| + j];
    assert s.pages[0] == FirstSweep(s.zone, T)[s.e + 1 - |s.pages|];
  }

  /** As long as no search wraps, no page of an earlier run is handed out again, although all but
      one of its pages are still marked available. */
  lemma {:induction false} ForwardRunsDisjoint(ld: PageNo, T: nat, run: seq<Search>, i: nat, k: nat, a: nat, b: nat)
    requires T <= 64 && ForwardSearches(ld, T, run) && i < k < |run|
    requires a < |run[i].pages| && b < |run[k].pages|
    ensures run[i].pages[a] < Frame(run[k].zone.next) <= run[k].pages[b]
    decreases k
  {
    hide Forward;
    PagesBelowCursor(ld, T, run[k], b);
    PagesBelowCursor(ld, T, run[i], a);
    if k > i + 1 {
      assert Forward(ld, T, run[k - 1]);
      ForwardRunsDisjoint(ld, T, run, i, k - 1, a, 0);
    }
  }
}
