/** The virtual heap: free and used lists of address ranges, with a guard page after each range. */
module VirtualHeap {
  import opened Basics
  import opened Machine
  import opened FrameAllocator
  import opened FrameSearch
  import opened PageTables
  import opened IdentityMap
  import opened HeapPaging

  /** A range of pages: `count` pages from `page`, of which `length` are in use. */
  datatype Span = Span(page: nat, count: nat, length: nat)

  // ------------------------------------------------------------------- lists

  /** The link to element i of a list, null past its end. */
  function At(l: seq<nat>, i: nat): Link {
    if i < |l| then To(l[i]) else Null
  }

  /** `head` starts a null-terminated acyclic list of exactly the records in l. */
  ghost predicate ListAt(records: seq<VmPage>, head: Link, l: seq<nat>) {
    && head == At(l, 0)
    && (forall i :: 0 <= i < |l| ==> l[i] < |records| && records[l[i]].next == At(l, i + 1))
    && Distinct(l)
  }

  /** A sequence without its element i. */
  function Without<T>(s: seq<T>, i: nat): seq<T>
    requires i < |s|
  {
    s[..i] + s[i + 1..]
  }

  lemma WithoutDistinct<T>(l: seq<T>, i: nat)
    requires Distinct(l) && i < |l|
    ensures Distinct(Without(l, i)) && l[i] !in Without(l, i)
    ensures forall x :: x in Without(l, i) ==> x in l
  {
    var w := Without(l, i);
    assert forall j :: 0 <= j < |w| ==> w[j] == l[if j < i then j else j + 1];
  }

  /** The ranges of the records in l. */
  ghost function Spans(records: seq<VmPage>, lengths: seq<nat>, l: seq<nat>): (s: seq<Span>)
    requires |lengths| == |records| && forall i :: 0 <= i < |l| ==> l[i] < |records|
    ensures |s| == |l|
    ensures forall i :: 0 <= i < |l| ==> s[i] == Span(records[l[i]].page, records[l[i]].count, lengths[l[i]])
  {
    seq(|l|, i requires 0 <= i < |l| => Span(records[l[i]].page, records[l[i]].count, lengths[l[i]]))
  }

  // ------------------------------------------------------------- address ranges

  /** Two ranges do not meet, not even in the guard page behind each. */
  predicate Apart(a: Span, b: Span) {
    a.page + a.count < b.page || b.page + b.count < a.page
  }

  /** The ranges are pairwise apart and lie in the part of the heap handed out so far. */
  ghost predicate Placed(s: seq<Span>, next: nat) {
    && (forall i, j :: 0 <= i < |s| && 0 <= j < |s| && i != j ==> Apart(s[i], s[j]))
    && (forall i :: 0 <= i < |s| ==> HEAP <= s[i].page && 1 <= s[i].count && s[i].page + s[i].count < next)
  }

  ghost predicate Shape(free: seq<Span>, used: seq<Span>, next: nat) {
    && HEAP <= next < 0x100000
    && Placed(free + used, next)
    && (forall i :: 0 <= i < |used| ==> 1 <= used[i].length <= used[i].count)
  }

  /** Page v belongs to an allocation. */
  ghost predicate InUse(used: seq<Span>, v: nat) {
    exists i :: 0 <= i < |used| && used[i].page <= v < used[i].page + used[i].length
  }

  /** Exactly the pages of the allocations have a page-table entry. */
  ghost predicate EntriesAgree(p: Paging, used: seq<Span>) {
    forall v: PageNo {:trigger VirtualEntry(p, v)} :: v >= HEAP ==> (VirtualEntry(p, v) != 0 <==> InUse(used, v))
  }

  /** Every range ever handed out lies in tables that exist. */
  ghost predicate TablesExist(p: Paging, s: seq<Span>) {
    forall i :: 0 <= i < |s| ==> HasTables(p, s[i].page, s[i].page + s[i].count)
  }

  /** The two lists are well formed and together hold every record exactly once. */
  ghost predicate Partition(records: seq<VmPage>, lengths: seq<nat>, free: Link, freeList: seq<nat>,
                            used: Link, usedList: seq<nat>) {
    && |lengths| == |records|
    && ListAt(records, free, freeList) && ListAt(records, used, usedList)
    && (forall r :: r in freeList ==> r !in usedList)
    && (forall r :: 0 <= r < |records| ==> r in freeList || r in usedList)
  }

  ghost predicate ListsOk(k: Kernel)
    reads k
  {
    Partition(k.records, k.lengths, k.free, k.freeList, k.used, k.usedList)
  }

  ghost function FreeSpans(k: Kernel): seq<Span>
    requires ListsOk(k)
    reads k
  {
    Spans(k.records, k.lengths, k.freeList)
  }

  ghost function UsedSpans(k: Kernel): seq<Span>
    requires ListsOk(k)
    reads k
  {
    Spans(k.records, k.lengths, k.usedList)
  }

  /** The invariant of the virtual heap. */
  ghost predicate HeapOk(k: Kernel)
    reads k, k.ram
  {
    && AllocatorOk(k) && Layout(Now(k), {}, {})
    && ListsOk(k)
    && Shape(FreeSpans(k), UsedSpans(k), k.heapNext)
    && EntriesAgree(Now(k), UsedSpans(k))
    && TablesExist(Now(k), FreeSpans(k) + UsedSpans(k))
  }

  /** The first free range of at least `count` pages is the one at position i; there is none
      when i is the length of the list. */
  ghost predicate FirstFit(free: seq<Span>, count: nat, i: nat) {
    && i <= |free|
    && (forall j :: 0 <= j < i ==> free[j].count < count)
    && (i < |free| ==> free[i].count >= count)
  }

  // ----------------------------------------------------------------- list walks

  lemma FreeFirst(k: Kernel)
    requires ListsOk(k)
    ensures k.free == At(k.freeList, 0)
  {
  }

  lemma FreeAt(k: Kernel, i: nat)
    requires ListsOk(k) && i < |k.freeList|
    ensures k.freeList[i] < |k.records| && k.records[k.freeList[i]].next == At(k.freeList, i + 1)
    ensures FreeSpans(k)[i].count == k.records[k.freeList[i]].count
  {
  }

  lemma UsedFirst(k: Kernel)
    requires ListsOk(k)
    ensures k.used == At(k.usedList, 0)
  {
  }

  lemma UsedAt(k: Kernel, i: nat)
    requires ListsOk(k) && i < |k.usedList|
    ensures k.usedList[i] < |k.records| && k.records[k.usedList[i]].next == At(k.usedList, i + 1)
    ensures UsedSpans(k)[i].page == k.records[k.usedList[i]].page
    ensures UsedSpans(k)[i].count == k.records[k.usedList[i]].count
  {
  }

  /** The search of the free list for the first record that is large enough. */
  method FindFit(k: Kernel, count: nat) returns (prev: Link, current: Link, ghost i: nat)
    requires ListsOk(k)
    ensures current == Null <==> forall j :: 0 <= j < |FreeSpans(k)| ==> FreeSpans(k)[j].count < count
    ensures FirstFit(FreeSpans(k), count, i)
    ensures current == At(k.freeList, i) && prev == (if i == 0 then Null else To(k.freeList[i - 1]))
  {
    hide ListAt, Spans;
    FreeFirst(k);
    prev, current, i := Null, k.free, 0;
    while current != Null
      invariant i <= |k.freeList| && current == At(k.freeList, i)
      invariant prev == if i == 0 then Null else To(k.freeList[i - 1])
      invariant forall j :: 0 <= j < i ==> FreeSpans(k)[j].count < count
      decreases |k.freeList| - i
    {
      FreeAt(k, i);
      if k.records[current.index].count >= count {
        return;
      }
      prev := current;
      current := k.records[current.index].next;
      i := i + 1;
    }
  }

  /** The search of the used list for the record that begins at the given page. */
  method FindUsed(k: Kernel, page: nat) returns (prev: Link, current: Link, ghost i: nat)
    requires ListsOk(k)
    ensures i <= |k.usedList| && forall j :: 0 <= j < i ==> UsedSpans(k)[j].page != page
    ensures i < |k.usedList| ==> UsedSpans(k)[i].page == page
    ensures current == Null <==> forall j :: 0 <= j < |UsedSpans(k)| ==> UsedSpans(k)[j].page != page
    ensures current == At(k.usedList, i) && prev == (if i == 0 then Null else To(k.usedList[i - 1]))
  {
    hide ListAt, Spans;
    UsedFirst(k);
    prev, current, i := Null, k.used, 0;
    while current != Null
      invariant i <= |k.usedList| && current == At(k.usedList, i)
      invariant prev == if i == 0 then Null else To(k.usedList[i - 1])
      invariant forall j :: 0 <= j < i ==> UsedSpans(k)[j].page != page
      decreases |k.usedList| - i
    {
      UsedAt(k, i);
      if k.records[current.index].page == page {
        return;
      }
      prev := current;
      current := k.records[current.index].next;
      i := i + 1;
    }
  }

  /** Where the pointer to a record is stored: the list head, or the record before it. */
  function RelinkRecords(records: seq<VmPage>, prev: Link, next: Link): seq<VmPage>
    requires prev.To? ==> prev.index < |records|
  {
    if prev == Null then records else records[prev.index := records[prev.index].(next := next)]
  }

  /** (*prev) = current->next unlinks element i. */
  lemma UnlinkList(records: seq<VmPage>, head: Link, l: seq<nat>, i: nat)
    requires ListAt(records, head, l) && i < |l|
    ensures var prev := if i == 0 then Null else To(l[i - 1]);
            var next := records[l[i]].next;
            ListAt(RelinkRecords(records, prev, next), if i == 0 then next else head, Without(l, i))
  {
    var prev := if i == 0 then Null else To(l[i - 1]);
    var rs := RelinkRecords(records, prev, records[l[i]].next);
    var w := Without(l, i);
    WithoutDistinct(l, i);
    forall j | 0 <= j < |w|
      ensures w[j] < |rs| && rs[w[j]].next == At(w, j + 1)
    {
      assert w[j] == l[if j < i then j else j + 1];
      assert j + 1 < |w| ==> w[j + 1] == l[if j + 1 < i then j + 1 else j + 2];
    }
  }

  /** Putting a record that is on no list at the head of a list. */
  lemma PushList(records: seq<VmPage>, head: Link, l: seq<nat>, r: nat)
    requires ListAt(records, head, l) && r < |records| && r !in l
    ensures ListAt(records[r := records[r].(next := head)], To(r), [r] + l)
  {
    var w := [r] + l;
    forall j | 0 <= j < |w|
      ensures w[j] < |records| && records[r := records[r].(next := head)][w[j]].next == At(w, j + 1)
    {
      if j > 0 {
        assert w[j] == l[j - 1] && At(w, j + 1) == At(l, j);
      }
    }
  }

  /** Link changes outside a list do not touch it. */
  lemma ListKept(records: seq<VmPage>, rs: seq<VmPage>, head: Link, l: seq<nat>)
    requires ListAt(records, head, l) && |rs| >= |records|
    requires forall r :: r in l ==> rs[r].next == records[r].next
    ensures ListAt(rs, head, l)
  {
  }

  // ------------------------------------------------------- effect on the ranges

  /** The ranges of `to` are ranges of `from`, each used at most once; lengths may differ. */
  ghost predicate Rearranged(from: seq<Span>, to: seq<Span>, pi: seq<nat>) {
    && |pi| == |to|
    && (forall a :: 0 <= a < |pi| ==> pi[a] < |from| && to[a] == from[pi[a]].(length := to[a].length))
    && (forall a, b :: 0 <= a < b < |pi| ==> pi[a] != pi[b])
  }

  lemma RearrangedPlaced(from: seq<Span>, to: seq<Span>, pi: seq<nat>, next: nat)
    requires Placed(from, next) && Rearranged(from, to, pi)
    ensures Placed(to, next)
  {
  }

  /** Element i of the free list moves to the head of the used list. */
  lemma MoveToUsed(free: seq<Span>, used: seq<Span>, i: nat, x: Span) returns (pi: seq<nat>)
    requires i < |free| && x == free[i].(length := x.length)
    ensures Rearranged(free + used, Without(free, i) + ([x] + used), pi)
  {
    var n := |free|;
    pi := seq(n + |used|, a requires 0 <= a =>
                if a < i then a else if a < n - 1 then a + 1 else if a == n - 1 then i else a);
  }

  /** Element i of the used list moves to the head of the free list. */
  lemma MoveToFree(free: seq<Span>, used: seq<Span>, i: nat, x: Span) returns (pi: seq<nat>)
    requires i < |used| && x == used[i].(length := x.length)
    ensures Rearranged(free + used, ([x] + free) + Without(used, i), pi)
  {
    var n := |free|;
    pi := seq(n + |used|, a requires 0 <= a => if a == 0 then n + i else if a <= n + i then a - 1 else a);
  }

  /** Reusing the first range that fits. */
  lemma ReuseShape(free: seq<Span>, used: seq<Span>, next: nat, i: nat, count: nat)
    requires Shape(free, used, next) && i < |free| && 1 <= count <= free[i].count
    ensures Shape(Without(free, i), [free[i].(length := count)] + used, next)
  {
    var x := free[i].(length := count);
    var pi := MoveToUsed(free, used, i, x);
    RearrangedPlaced(free + used, Without(free, i) + ([x] + used), pi, next);
  }

  /** Giving a range back. */
  lemma ReturnShape(free: seq<Span>, used: seq<Span>, next: nat, i: nat)
    requires Shape(free, used, next) && i < |used|
    ensures Shape([used[i].(length := 0)] + free, Without(used, i), next)
  {
    var x := used[i].(length := 0);
    var pi := MoveToFree(free, used, i, x);
    RearrangedPlaced(free + used, ([x] + free) + Without(used, i), pi, next);
    var w := Without(used, i);
    assert forall j :: 0 <= j < |w| ==> w[j] == used[if j < i then j else j + 1];
  }

  /** A new range is cut from the end of the heap, with a guard page behind it. */
  lemma ExtendShape(free: seq<Span>, used: seq<Span>, next: nat, count: nat)
    requires Shape(free, used, next) && 1 <= count && next + count + 1 < 0x100000
    ensures Shape(free, [Span(next, count, count)] + used, next + count + 1)
  {
    var x := Span(next, count, count);
    var from := [x] + (free + used);
    var to := free + ([x] + used);
    var n := |free|;
    var pi := seq(|from|, a requires 0 <= a => if a < n then a + 1 else if a == n then 0 else a);
    assert Rearranged(from, to, pi);
    assert Placed(from, next + count + 1) by {
      assert forall j :: 0 < j < |from| ==> from[j] == (free + used)[j - 1];
    }
    RearrangedPlaced(from, to, pi, next + count + 1);
  }

  // ------------------------------------------------------ effect on the tables

  lemma AssignAgrees(p: Paging, q: Paging, used: seq<Span>, x: Span, flags: Word)
    requires |p.roles| == 0x100000 && EntriesAgree(p, used) && HEAP <= x.page && flags != 0
    requires HeapStep(p, q, x.page, x.page + x.length) && Filled(q, x.page, x.page + x.length, flags)
    ensures EntriesAgree(q, [x] + used)
  {
    hide VirtualEntry, Cell, Dir;
    forall v: PageNo | v >= HEAP
      ensures VirtualEntry(q, v) != 0 <==> InUse([x] + used, v)
    {
      InUseHead(x, used, v);
      assert VirtualEntry(p, v) != 0 <==> InUse(used, v);
    }
  }

  lemma InUseHead(x: Span, used: seq<Span>, v: nat)
    ensures InUse([x] + used, v) <==> x.page <= v < x.page + x.length || InUse(used, v)
  {
    var s := [x] + used;
    if x.page <= v < x.page + x.length {
      assert s[0] == x;
    }
    if InUse(used, v) {
      var i :| 0 <= i < |used| && used[i].page <= v < used[i].page + used[i].length;
      assert s[i + 1] == used[i];
    }
  }

  lemma ReleaseAgrees(p: Paging, q: Paging, free: seq<Span>, used: seq<Span>, next: nat, i: nat)
    requires |p.roles| == 0x100000 && EntriesAgree(p, used) && Shape(free, used, next) && i < |used|
    requires HeapStep(p, q, used[i].page, used[i].page + used[i].count)
    requires Filled(q, used[i].page, used[i].page + used[i].count, 0)
    ensures EntriesAgree(q, Without(used, i))
  {
    hide VirtualEntry, Cell, Dir;
    forall v: PageNo | v >= HEAP
      ensures VirtualEntry(q, v) != 0 <==> InUse(Without(used, i), v)
    {
      InUseWithout(free, used, next, i, v);
      assert VirtualEntry(p, v) != 0 <==> InUse(used, v);
    }
  }

  lemma InUseWithout(free: seq<Span>, used: seq<Span>, next: nat, i: nat, v: nat)
    requires Shape(free, used, next) && i < |used|
    ensures InUse(Without(used, i), v) <==>
              InUse(used, v) && !(used[i].page <= v < used[i].page + used[i].count)
  {
    var w := Without(used, i);
    var n := |free|;
    if InUse(w, v) {
      var j :| 0 <= j < |w| && w[j].page <= v < w[j].page + w[j].length;
      var k := if j < i then j else j + 1;
      assert w[j] == used[k] == (free + used)[n + k] && used[i] == (free + used)[n + i];
    }
    if InUse(used, v) && !(used[i].page <= v < used[i].page + used[i].count) {
      var k :| 0 <= k < |used| && used[k].page <= v < used[k].page + used[k].length;
      assert w[if k < i then k else k - 1] == used[k];
    }
  }

  lemma RearrangedTables(p: Paging, q: Paging, from: seq<Span>, to: seq<Span>, pi: seq<nat>, lo: nat, hi: nat)
    requires |p.roles| == 0x100000 && TablesExist(p, from) && Rearranged(from, to, pi)
    requires HeapStep(p, q, lo, hi)
    ensures TablesExist(q, to)
  {
    hide VirtualEntry, Cell, Dir, HeapStep, HasTables;
    forall a | 0 <= a < |to|
      ensures HasTables(q, to[a].page, to[a].page + to[a].count)
    {
      assert HasTables(p, from[pi[a]].page, from[pi[a]].page + from[pi[a]].count);
      StepKeepsTables(p, q, to[a].page, to[a].page + to[a].count, lo, hi);
    }
  }

  lemma FilledHasTables(p: Paging, from: nat, to: nat, flags: Word)
    requires Filled(p, from, to, flags)
    ensures HasTables(p, from, to)
  {
    hide VirtualEntry, Cell, Dir;
    forall v: PageNo | from <= v < to
      ensures Cell(p.mem, p.vd, Dir(v)) != 0
    {
      assert VirtualEntry(p, v) == flags;
    }
  }

  lemma ExtendTables(p: Paging, q: Paging, free: seq<Span>, used: seq<Span>, x: Span, lo: nat, hi: nat)
    requires |p.roles| == 0x100000 && TablesExist(p, free + used) && HeapStep(p, q, lo, hi)
    requires HasTables(q, x.page, x.page + x.count)
    ensures TablesExist(q, free + ([x] + used))
  {
    hide VirtualEntry, Cell, Dir, HeapStep, HasTables;
    var to := free + ([x] + used);
    forall a | 0 <= a < |to|
      ensures HasTables(q, to[a].page, to[a].page + to[a].count)
    {
      if a != |free| {
        var b := if a < |free| then a else a - 1;
        assert to[a] == (free + used)[b];
        StepKeepsTables(p, q, to[a].page, to[a].page + to[a].count, lo, hi);
      }
    }
  }

  // ------------------------------------------------------- effect on the lists

  lemma SpansAre(records: seq<VmPage>, lengths: seq<nat>, l: seq<nat>, s: seq<Span>)
    requires |lengths| == |records| && |s| == |l|
    requires forall i :: 0 <= i < |l| ==>
               l[i] < |records| && s[i] == Span(records[l[i]].page, records[l[i]].count, lengths[l[i]])
    ensures Spans(records, lengths, l) == s
  {
  }

  /** Element i of the free list moves to the head of the used list. */
  lemma ReuseLists(records: seq<VmPage>, lengths: seq<nat>, free: Link, fl: seq<nat>, used: Link, ul: seq<nat>,
                   i: nat, count: nat)
    requires Partition(records, lengths, free, fl, used, ul) && i < |fl|
    ensures var r := fl[i];
            var next := records[r].next;
            var rs := RelinkRecords(records, if i == 0 then Null else To(fl[i - 1]), next);
            && |rs| == |records|
            && var rs' := rs[r := rs[r].(next := used)];
            && Partition(rs', lengths[r := count], if i == 0 then next else free, Without(fl, i), To(r), [r] + ul)
            && Spans(rs', lengths[r := count], Without(fl, i)) == Without(Spans(records, lengths, fl), i)
            && Spans(rs', lengths[r := count], [r] + ul)
               == [Spans(records, lengths, fl)[i].(length := count)] + Spans(records, lengths, ul)
  {
    hide ListAt, Spans, Without, Distinct;
    MembersBelow(records, free, fl);
    MembersBelow(records, used, ul);
    MoveMembers(fl, ul, i);
    MoveLinks(records, free, fl, used, ul, i);
    var r := fl[i];
    var rs := RelinkRecords(records, if i == 0 then Null else To(fl[i - 1]), records[r].next);
    MoveSpans(records, rs[r := rs[r].(next := used)], lengths, fl, ul, i, count);
  }

  /** The stores of unlinking and pushing keep both lists. */
  lemma MoveLinks(records: seq<VmPage>, free: Link, fl: seq<nat>, used: Link, ul: seq<nat>, i: nat)
    requires ListAt(records, free, fl) && ListAt(records, used, ul) && i < |fl| && forall r :: r in fl ==> r !in ul
    ensures fl[i] < |records| && (i > 0 ==> fl[i - 1] < |records|)
    ensures var r := fl[i];
            var next := records[r].next;
            var rs := RelinkRecords(records, if i == 0 then Null else To(fl[i - 1]), next);
            && |rs| == |records|
            && ListAt(rs[r := rs[r].(next := used)], if i == 0 then next else free, Without(fl, i))
            && ListAt(rs[r := rs[r].(next := used)], To(r), [r] + ul)
  {
    MembersBelow(records, free, fl);
    hide ListAt, Distinct;
    var r := fl[i];
    var rs := RelinkRecords(records, if i == 0 then Null else To(fl[i - 1]), records[r].next);
    UnlinkList(records, free, fl, i);
    WithoutDistinct(fl, i);
    hide Without;
    ListKept(rs, rs[r := rs[r].(next := used)], if i == 0 then records[r].next else free, Without(fl, i));
    ListKept(records, rs, used, ul);
    PushList(rs, used, ul, r);
  }

  /** Moving a record between the lists keeps them a partition. */
  lemma MoveMembers(fl: seq<nat>, ul: seq<nat>, i: nat)
    requires Distinct(fl) && i < |fl| && forall r :: r in fl ==> r !in ul
    ensures forall x :: x in fl || x in ul <==> x in Without(fl, i) || x in [fl[i]] + ul
    ensures forall x :: x in Without(fl, i) ==> x !in [fl[i]] + ul
  {
    WithoutDistinct(fl, i);
    forall x | x in fl
      ensures x in Without(fl, i) || x == fl[i]
    {
      var j :| 0 <= j < |fl| && fl[j] == x;
      assert j < i ==> Without(fl, i)[j] == x;
      assert j > i ==> Without(fl, i)[j - 1] == x;
    }
  }

  lemma MoveSpans(records: seq<VmPage>, rs: seq<VmPage>, lengths: seq<nat>, from: seq<nat>, to: seq<nat>, i: nat,
                  n: nat)
    requires |lengths| == |records| == |rs| && Distinct(from) && i < |from|
    requires forall r :: r in from ==> r !in to
    requires forall j :: 0 <= j < |from| ==> from[j] < |records|
    requires forall j :: 0 <= j < |to| ==> to[j] < |records|
    requires forall r :: 0 <= r < |records| ==> rs[r].(next := Null) == records[r].(next := Null)
    ensures var r := from[i];
            && (forall j :: 0 <= j < |from| - 1 ==> Without(from, i)[j] < |rs|)
            && Spans(rs, lengths[r := n], Without(from, i)) == Without(Spans(records, lengths, from), i)
            && Spans(rs, lengths[r := n], [r] + to)
               == [Spans(records, lengths, from)[i].(length := n)] + Spans(records, lengths, to)
  {
    var r := from[i];
    var w := Without(from, i);
    forall j | 0 <= j < |w|
      ensures w[j] == from[if j < i then j else j + 1] && w[j] != r
    {
    }
    SpansAre(rs, lengths[r := n], w, Without(Spans(records, lengths, from), i));
    forall j | 0 <= j < |[r] + to|
      ensures ([r] + to)[j] == (if j == 0 then r else to[j - 1]) && (j > 0 ==> ([r] + to)[j] != r)
    {
      assert from[i] in from;
      assert j > 0 ==> to[j - 1] in to;
    }
    SpansAre(rs, lengths[r := n], [r] + to,
             [Spans(records, lengths, from)[i].(length := n)] + Spans(records, lengths, to));
  }

  /** Element i of the used list moves to the head of the free list. */
  lemma ReturnLists(records: seq<VmPage>, lengths: seq<nat>, free: Link, fl: seq<nat>, used: Link, ul: seq<nat>, i: nat)
    requires Partition(records, lengths, free, fl, used, ul) && i < |ul|
    ensures var r := ul[i];
            var next := records[r].next;
            var rs := RelinkRecords(records, if i == 0 then Null else To(ul[i - 1]), next);
            && |rs| == |records|
            && var rs' := rs[r := rs[r].(next := free)];
            && Partition(rs', lengths[r := 0], To(r), [r] + fl, if i == 0 then next else used, Without(ul, i))
            && Spans(rs', lengths[r := 0], Without(ul, i)) == Without(Spans(records, lengths, ul), i)
            && Spans(rs', lengths[r := 0], [r] + fl)
               == [Spans(records, lengths, ul)[i].(length := 0)] + Spans(records, lengths, fl)
  {
    ReuseLists(records, lengths, used, ul, free, fl, i, 0);
  }

  /** A new record is put at the head of the used list. */
  lemma ExtendLists(records: seq<VmPage>, lengths: seq<nat>, free: Link, fl: seq<nat>, used: Link, ul: seq<nat>,
                    x: VmPage)
    requires Partition(records, lengths, free, fl, used, ul) && x.next == used
    ensures var r := |records|;
            && Partition(records + [x], lengths + [x.count], free, fl, To(r), [r] + ul)
            && Spans(records + [x], lengths + [x.count], fl) == Spans(records, lengths, fl)
            && Spans(records + [x], lengths + [x.count], [r] + ul)
               == [Span(x.page, x.count, x.count)] + Spans(records, lengths, ul)
  {
    hide Spans, ListAt;
    PushNew(records, used, ul, x);
    KeptBehindNew(records, free, fl, x);
    MembersBelow(records, free, fl);
    MembersBelow(records, used, ul);
    ExtendSpans(records, lengths, fl, ul, x);
  }

  lemma PushNew(records: seq<VmPage>, head: Link, l: seq<nat>, x: VmPage)
    requires ListAt(records, head, l) && x.next == head
    ensures ListAt(records + [x], To(|records|), [|records|] + l)
  {
    var r := |records|;
    var rs := records + [x];
    ListKept(records, rs, head, l);
    assert r !in l;
    PushList(rs, head, l, r);
    assert rs[r := rs[r].(next := head)] == rs;
  }

  lemma KeptBehindNew(records: seq<VmPage>, head: Link, l: seq<nat>, x: VmPage)
    requires ListAt(records, head, l)
    ensures ListAt(records + [x], head, l)
  {
    ListKept(records, records + [x], head, l);
  }

  lemma MembersBelow(records: seq<VmPage>, head: Link, l: seq<nat>)
    requires ListAt(records, head, l)
    ensures Distinct(l) && forall i :: 0 <= i < |l| ==> l[i] < |records|
  {
  }

  lemma ExtendSpans(records: seq<VmPage>, lengths: seq<nat>, fl: seq<nat>, ul: seq<nat>, x: VmPage)
    requires |lengths| == |records|
    requires forall j :: 0 <= j < |fl| ==> fl[j] < |records|
    requires forall j :: 0 <= j < |ul| ==> ul[j] < |records|
    ensures Spans(records + [x], lengths + [x.count], fl) == Spans(records, lengths, fl)
    ensures Spans(records + [x], lengths + [x.count], [|records|] + ul)
            == [Span(x.page, x.count, x.count)] + Spans(records, lengths, ul)
  {
    var r := |records|;
    var rs := records + [x];
    SpansAre(rs, lengths + [x.count], fl, Spans(records, lengths, fl));
    SpansAre(rs, lengths + [x.count], [r] + ul, [Span(x.page, x.count, x.count)] + Spans(records, lengths, ul));
  }

  // ------------------------------------------------------------------ operations

  /** What an allocation does to the lists: first fit, else a new range behind all others. */
  ghost predicate TakesRange(free: seq<Span>, used: seq<Span>, next: nat, count: nat, i: nat,
                             free': seq<Span>, used': seq<Span>, next': nat, page: nat) {
    && FirstFit(free, count, i)
    && if i < |free|
       then page == free[i].page && free' == Without(free, i) && next' == next
            && used' == [free[i].(length := count)] + used
       else page == next && free' == free && next' == (next + count + 1) % 0x100000
            && used' == [Span(next, count, count)] + used
  }

  /** An allocation has room: it asks for a page, and a free range is large enough or virtual_address
      does not wrap. */
  ghost predicate Fits(free: seq<Span>, next: nat, count: nat) {
    1 <= count && ((exists j :: 0 <= j < |free| && free[j].count >= count) || next + count + 1 < 0x100000)
  }

  lemma FitsAt(free: seq<Span>, next: nat, count: nat, i: nat)
    requires FirstFit(free, count, i)
    ensures Fits(free, next, count) <==> 1 <= count && (i == |free| ==> next + count + 1 < 0x100000)
  {
  }

  lemma TakenShape(free: seq<Span>, used: seq<Span>, next: nat, count: nat, i: nat,
                   free': seq<Span>, used': seq<Span>, next': nat, page: nat)
    requires Shape(free, used, next) && Fits(free, next, count)
    requires TakesRange(free, used, next, count, i, free', used', next', page)
    ensures Shape(free', used', next')
  {
    FitsAt(free, next, count, i);
    if i < |free| {
      ReuseShape(free, used, next, i, count);
    } else {
      ExtendShape(free, used, next, count);
    }
  }

  /** Without room the ranges do not keep their shape. */
  lemma TakenMisshapen(free: seq<Span>, used: seq<Span>, next: nat, count: nat, i: nat,
                       free': seq<Span>, used': seq<Span>, next': nat, page: nat)
    requires Shape(free, used, next) && !Fits(free, next, count)
    requires TakesRange(free, used, next, count, i, free', used', next', page)
    ensures !Shape(free', used', next')
  {
    FitsAt(free, next, count, i);
    var x := used'[0];
    assert (free' + used')[|free'|] == x;
    assert x.length == count && (count == 0 || x.page + x.count >= next');
  }

  lemma TakenAgrees(p: Paging, q: Paging, free: seq<Span>, used: seq<Span>, next: nat, count: nat, i: nat,
                    free': seq<Span>, used': seq<Span>, next': nat, page: nat, flags: Word)
    requires |p.roles| == 0x100000 && EntriesAgree(p, used) && TablesExist(p, free + used)
    requires TakesRange(free, used, next, count, i, free', used', next', page)
    requires HEAP <= page && flags != 0
    requires HeapStep(p, q, page, page + count) && Filled(q, page, page + count, flags)
    ensures EntriesAgree(q, used') && TablesExist(q, free' + used')
  {
    hide VirtualEntry, Cell, HeapStep, Filled, HasTables, EntriesAgree, TablesExist;
    AssignAgrees(p, q, used, used'[0], flags);
    if i < |free| {
      var pi := MoveToUsed(free, used, i, used'[0]);
      RearrangedTables(p, q, free + used, free' + used', pi, page, page + count);
    } else {
      FilledHasTables(q, page, page + count, flags);
      ExtendTables(p, q, free, used, used'[0], page, page + count);
    }
  }

  /** A free range lies within the heap. */
  lemma FreeSpanInHeap(free: seq<Span>, used: seq<Span>, next: nat, i: nat)
    requires Shape(free, used, next) && i < |free|
    ensures HEAP <= free[i].page && free[i].page + free[i].count < next <= 0x100000 && free[i].count >= 1
  {
    assert free[i] == (free + used)[i];
  }

  lemma UsedSpanInHeap(free: seq<Span>, used: seq<Span>, next: nat, i: nat)
    requires Shape(free, used, next) && i < |used|
    ensures HEAP <= used[i].page && used[i].page + used[i].count < next <= 0x100000
    ensures 1 <= used[i].length <= used[i].count
  {
    assert used[i] == (free + used)[|free| + i];
  }

  /** A frame for 256 more records: claimed, mapped to itself and cleared. */
  method ClaimRecordPage(k: Kernel) returns (ok: bool)
    requires AllocatorOk(k) && Layout(Now(k), {}, {})
    modifies k.ram, k`zones, k`roles
    ensures AllocatorOk(k)
    ensures ok ==>
              && Layout(Now(k), {}, {}) && |old(k.roles)| == |k.roles| == 0x100000
              && HeapStep(old(Now(k)), Now(k), 0, 0)
    ensures !ok ==> forall h: PageNo :: h >= 1 ==> !Available(k.Mem(), k.linearDir, h)
  {
    hide VirtualEntry, Cell, Lin, Rooted, Layout, InTables, HeapKept, HeapStep, Dir, Available;
    ghost var p := Now(k);
    var g: PageNo;
    ok, g := ClaimFrame(k, ZONE_NORMAL);
    if ok {
      ghost var q := Now(k);
      ghost var chain;
      ok, chain := MapIdentity(k, g);
      if ok {
        HeapKeptTransitive(p, q, Now(k));
        ClearReserved(p, Now(k), g);
        k.ClearPage(g);
      }
    }
  }

  /** The record for an allocation: the first free one that fits, unlinked, or a new one. It is
      on no list until the pages have been assigned. */
  method TakeRecord(k: Kernel, count: nat) returns (ok: bool, r: nat, page: nat, ghost i: nat)
    requires AllocatorOk(k) && Layout(Now(k), {}, {}) && ListsOk(k)
    modifies k.ram, k`zones, k`roles, k`records, k`free, k`pagesIndex, k`heapNext
    ensures AllocatorOk(k)
    ensures ok ==>
              && Layout(Now(k), {}, {}) && |old(k.roles)| == |k.roles| == 0x100000
              && HeapStep(old(Now(k)), Now(k), 0, 0)
    ensures ok ==> FirstFit(old(FreeSpans(k)), count, i)
    ensures ok && i < |k.freeList| ==>
              && r == k.freeList[i] < |old(k.records)| && page == old(k.records)[r].page
              && k.heapNext == old(k.heapNext)
              && k.free == (if i == 0 then old(k.records)[r].next else old(k.free))
              && (i > 0 ==> k.freeList[i - 1] < |old(k.records)|)
              && k.records == RelinkRecords(old(k.records), if i == 0 then Null else To(k.freeList[i - 1]),
                                            old(k.records)[r].next)
    ensures ok && i >= |k.freeList| ==>
              && r == |old(k.records)| && page == old(k.heapNext)
              && k.heapNext == (old(k.heapNext) + count + 1) % 0x100000
              && k.free == old(k.free) && k.records == old(k.records) + [VmPage(Null, count, page)]
    ensures !ok ==> forall h: PageNo :: h >= 1 ==> !Available(k.Mem(), k.linearDir, h)
  {
    hide Available, VirtualEntry, Cell, Lin, Rooted, Layout, InTables, HeapStep, ZonesOk, Flags, ListAt, Spans;
    LayoutRooted(Now(k), {}, {});
    HeapStepReflexive(Now(k), 0);
    ok := true;
    var prev, current;
    prev, current, i := FindFit(k, count);
    if current.To? {
      FreeAt(k, i);
      if i > 0 {
        FreeAt(k, i - 1);
      }
      r := current.index;
      page := k.records[r].page;
      var next := k.records[r].next;
      if prev == Null {
        k.free := next;
      } else {
        k.records := k.records[prev.index := k.records[prev.index].(next := next)];
      }
    } else {
      ok, r, page := CutRecord(k, count);
    }
  }

  /** A new record, and a new range at the end of the heap. */
  method CutRecord(k: Kernel, count: nat) returns (ok: bool, r: nat, page: nat)
    requires AllocatorOk(k) && Layout(Now(k), {}, {})
    modifies k.ram, k`zones, k`roles, k`records, k`pagesIndex, k`heapNext
    ensures AllocatorOk(k)
    ensures ok ==>
              && Layout(Now(k), {}, {}) && |old(k.roles)| == |k.roles| == 0x100000
              && HeapStep(old(Now(k)), Now(k), 0, 0)
              && r == |old(k.records)| && page == old(k.heapNext)
              && k.heapNext == (old(k.heapNext) + count + 1) % 0x100000
              && k.records == old(k.records) + [VmPage(Null, count, page)]
    ensures !ok ==> forall h: PageNo :: h >= 1 ==> !Available(k.Mem(), k.linearDir, h)
  {
    hide Available, VirtualEntry, Cell, Lin, Rooted, Layout, InTables, HeapStep, ZonesOk, Flags;
    LayoutRooted(Now(k), {}, {});
    HeapStepReflexive(Now(k), 0);
    ok, r, page := true, |k.records|, k.heapNext;
    if k.pagesIndex >= 256 {
      ok := ClaimRecordPage(k);
      if !ok {
        return;
      }
      k.pagesIndex := 0;
    }
    k.records := k.records + [VmPage(Null, count, k.heapNext)];
    k.pagesIndex := k.pagesIndex + 1;
    k.heapNext := (k.heapNext + count + 1) % 0x100000;
  }

  /** The record is put at the head of the used list. `rs` and `head` are the records and the free
      list as they were before the record was taken. */
  method PushRecord(k: Kernel, r: nat, count: nat, ghost page: nat, ghost i: nat, ghost rs: seq<VmPage>,
                    ghost head: Link)
    requires Partition(rs, k.lengths, head, k.freeList, k.used, k.usedList) && i <= |k.freeList|
    requires i < |k.freeList| ==>
               && r == k.freeList[i] < |rs|
               && k.free == (if i == 0 then rs[r].next else head)
               && (i > 0 ==> k.freeList[i - 1] < |rs|)
               && k.records == RelinkRecords(rs, if i == 0 then Null else To(k.freeList[i - 1]), rs[r].next)
    requires i == |k.freeList| ==>
               r == |rs| && k.free == head && k.records == rs + [VmPage(Null, count, page)]
    modifies k`records, k`used, k`usedList, k`freeList, k`lengths
    ensures ListsOk(k)
    ensures var free := old(Spans(rs, k.lengths, k.freeList));
            var used := old(Spans(rs, k.lengths, k.usedList));
            if i < |free|
            then FreeSpans(k) == Without(free, i) && UsedSpans(k) == [free[i].(length := count)] + used
            else FreeSpans(k) == free && UsedSpans(k) == [Span(page, count, count)] + used
  {
    hide ListAt, Spans;
    if i < |k.freeList| {
      ReuseLists(rs, k.lengths, head, k.freeList, k.used, k.usedList, i, count);
    } else {
      ExtendLists(rs, k.lengths, head, k.freeList, k.used, k.usedList, VmPage(k.used, count, page));
      assert k.records[r := k.records[r].(next := k.used)] == rs + [VmPage(k.used, count, page)];
    }
    k.records := k.records[r := k.records[r].(next := k.used)];
    k.used := To(r);
    if i < |k.freeList| {
      k.freeList, k.lengths := Without(k.freeList, i), k.lengths[r := count];
    } else {
      k.lengths := k.lengths + [count];
    }
    k.usedList := [r] + k.usedList;
  }

  /** kmemory_virtual_page_allocate. It keeps the heap invariant if and only if there is room; without
      it the pages from the returned one to the end of the address space are assigned, whatever they
      held, or virtual_address has wrapped. `ok` is false when the frame allocator has no frame left
      and spins. */
  method Allocate(k: Kernel, count: Word, zero: bool) returns (ok: bool, page: nat, ghost i: nat)
    requires HeapOk(k)
    modifies k, k.ram
    ensures k.ram.Length == RAM_WORDS
    ensures ok ==>
              && (HeapOk(k) <==> Fits(old(FreeSpans(k)), old(k.heapNext), count))
              && ListsOk(k) && Layout(Now(k), {}, {}) && |old(k.roles)| == 0x100000
              && TakesRange(old(FreeSpans(k)), old(UsedSpans(k)), old(k.heapNext), count, i,
                            FreeSpans(k), UsedSpans(k), k.heapNext, page)
              && HeapStep(old(Now(k)), Now(k), page, WalkEnd(page, count))
              && Filled(Now(k), page, WalkEnd(page, count), if zero then ASSIGNED_ZERO else ASSIGNED)
    ensures ok ==> forall v: PageNo {:trigger VirtualEntry(Now(k), v)} ::
              page <= v && (v < page + count || count == 0) ==>
                VirtualEntry(Now(k), v) == if zero then ASSIGNED_ZERO else ASSIGNED
    ensures !ok ==> forall h: PageNo :: h >= 1 ==> !Available(k.Mem(), k.linearDir, h)
  {
    hide Available, VirtualEntry, Cell, Lin, Rooted, Layout, InTables, HeapStep, EntriesAgree, TablesExist, Filled,
         Shape, ZonesOk, Flags, ListAt, Spans, Fits, WalkEnd;
    ghost var p := Now(k);
    ghost var free, used, next := FreeSpans(k), UsedSpans(k), k.heapNext;
    ghost var rs, len, head := k.records, k.lengths, k.free;
    LayoutRooted(p, {}, {});
    var r: nat;
    ok, r, page, i := TakeRecord(k, count);
    if !ok {
      return;
    }
    RangeInHeap(free, used, next, count, i);
    WalkEndBehind(page, count);
    ghost var q := Now(k);
    WidenStep(p, q, page);
    ok := AssignPages(k, page, count, if zero then ASSIGNED_ZERO else ASSIGNED);
    if !ok {
      return;
    }
    HeapStepChain(p, q, Now(k), page, page, WalkEnd(page, count));
    WalkFills(Now(k), page, count, if zero then ASSIGNED_ZERO else ASSIGNED);
    PushRecord(k, r, count, page, i, rs, head);
    TakenIff(p, Now(k), free, used, next, count, i, FreeSpans(k), UsedSpans(k), k.heapNext, page,
             if zero then ASSIGNED_ZERO else ASSIGNED);
  }

  /** The ranges and tables are as they should be if and only if there was room. */
  lemma TakenIff(p: Paging, q: Paging, free: seq<Span>, used: seq<Span>, next: nat, count: nat, i: nat,
                 free': seq<Span>, used': seq<Span>, next': nat, page: nat, flags: Word)
    requires |p.roles| == 0x100000 && Shape(free, used, next) && EntriesAgree(p, used) && TablesExist(p, free + used)
    requires TakesRange(free, used, next, count, i, free', used', next', page) && flags != 0
    requires HeapStep(p, q, page, WalkEnd(page, count)) && Filled(q, page, WalkEnd(page, count), flags)
    ensures Shape(free', used', next') && EntriesAgree(q, used') && TablesExist(q, free' + used') <==>
              Fits(free, next, count)
  {
    hide Shape, EntriesAgree, TablesExist, HeapStep, Filled, Fits, WalkEnd;
    if Fits(free, next, count) {
      FitsEnd(free, used, next, count, i, page);
      TakenShape(free, used, next, count, i, free', used', next', page);
      TakenAgrees(p, q, free, used, next, count, i, free', used', next', page, flags);
    } else {
      TakenMisshapen(free, used, next, count, i, free', used', next', page);
    }
  }

  /** The walk assigns the pages of the range, and for a count of 0 all pages behind its start. */
  lemma WalkFills(p: Paging, page: nat, count: nat, flags: Word)
    requires Filled(p, page, WalkEnd(page, count), flags)
    ensures forall v: PageNo {:trigger VirtualEntry(p, v)} ::
              page <= v && (v < page + count || count == 0) ==> VirtualEntry(p, v) == flags
  {
    hide VirtualEntry, Cell, Dir;
  }

  lemma WalkEndBehind(page: nat, count: nat)
    requires page < 0x100000
    ensures page <= WalkEnd(page, count)
  {
  }

  /** With room the walk ends behind the range. */
  lemma FitsEnd(free: seq<Span>, used: seq<Span>, next: nat, count: nat, i: nat, page: nat)
    requires Shape(free, used, next) && FirstFit(free, count, i) && Fits(free, next, count)
    requires page == if i < |free| then free[i].page else next
    ensures HEAP <= page && WalkEnd(page, count) == page + count <= 0x100000
  {
    FitsAt(free, next, count, i);
    if i < |free| {
      FreeSpanInHeap(free, used, next, i);
    }
  }

  /** The page that an allocation returns lies in the heap. */
  lemma RangeInHeap(free: seq<Span>, used: seq<Span>, next: nat, count: nat, i: nat)
    requires Shape(free, used, next) && FirstFit(free, count, i)
    ensures HEAP <= next < 0x100000
    ensures i < |free| ==> HEAP <= free[i].page < 0x100000
  {
    if i < |free| {
      FreeSpanInHeap(free, used, next, i);
    }
  }

  /** kmemory_virtual_page_unallocate. A page that starts no allocation is reported and ignored. */
  method Unallocate(k: Kernel, page: nat) returns (found: bool, ghost i: nat)
    requires HeapOk(k)
    modifies k, k.ram
    ensures HeapOk(k) && |old(k.roles)| == 0x100000
    ensures i <= |old(UsedSpans(k))| && forall j :: 0 <= j < i ==> old(UsedSpans(k))[j].page != page
    ensures found <==> i < |old(UsedSpans(k))|
    ensures !found ==> Now(k) == old(Now(k)) && FreeSpans(k) == old(FreeSpans(k)) && UsedSpans(k) == old(UsedSpans(k))
    ensures found ==>
              var x := old(UsedSpans(k))[i];
              && x.page == page && k.heapNext == old(k.heapNext)
              && FreeSpans(k) == [x.(length := 0)] + old(FreeSpans(k))
              && UsedSpans(k) == Without(old(UsedSpans(k)), i)
              && HeapStep(old(Now(k)), Now(k), page, page + x.count)
              && Filled(Now(k), page, page + x.count, 0)
  {
    hide VirtualEntry, Cell, Lin, Rooted, Layout, InTables, HeapStep, EntriesAgree, TablesExist, Filled, Shape, ZonesOk,
         Flags, ListAt, Spans;
    ghost var p := Now(k);
    ghost var free, used, next := FreeSpans(k), UsedSpans(k), k.heapNext;
    LayoutRooted(p, {}, {});
    var prev, current;
    prev, current, i := FindUsed(k, page);
    found := current.To?;
    if !found {
      return;
    }
    UsedSpanInHeap(free, used, next, i);
    UsedTables(p, free, used, i);
    UsedAt(k, i);
    var r := current.index;
    ReleasePages(k, page, k.records[r].count);
    ReturnRecord(k, prev, r, i);
    ReturnShape(free, used, next, i);
    ReleaseAgrees(p, Now(k), free, used, next, i);
    var pi := MoveToFree(free, used, i, used[i].(length := 0));
    RearrangedTables(p, Now(k), free + used, FreeSpans(k) + UsedSpans(k), pi, page, page + used[i].count);
  }

  lemma UsedTables(p: Paging, free: seq<Span>, used: seq<Span>, i: nat)
    requires TablesExist(p, free + used) && i < |used|
    ensures HasTables(p, used[i].page, used[i].page + used[i].count)
  {
    assert used[i] == (free + used)[|free| + i];
  }

  /** The record at position i of the used list is unlinked and put at the head of the free list. */
  method ReturnRecord(k: Kernel, prev: Link, r: nat, ghost i: nat)
    requires ListsOk(k) && i < |k.usedList| && r == k.usedList[i]
    requires prev == if i == 0 then Null else To(k.usedList[i - 1])
    modifies k`records, k`used, k`usedList, k`free, k`freeList, k`lengths
    ensures ListsOk(k)
    ensures FreeSpans(k) == [old(UsedSpans(k))[i].(length := 0)] + old(FreeSpans(k))
    ensures UsedSpans(k) == Without(old(UsedSpans(k)), i)
  {
    hide ListAt, Spans;
    UsedAt(k, i);
    if i > 0 {
      UsedAt(k, i - 1);
    }
    ReturnLists(k.records, k.lengths, k.free, k.freeList, k.used, k.usedList, i);
    var next := k.records[r].next;
    if prev == Null {
      k.used := next;
    } else {
      k.records := k.records[prev.index := k.records[prev.index].(next := next)];
    }
    k.records := k.records[r := k.records[r].(next := k.free)];
    k.free := To(r);
    k.usedList, k.freeList, k.lengths := Without(k.usedList, i), [r] + k.freeList, k.lengths[r := 0];
  }
}
