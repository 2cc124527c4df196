/** The timer list and its two users, arch/ia32/timer.c. */
module Timers {
  import opened Basics
  import opened Clock
  import opened TimerQueue

  class Timer {
    var next: Timer?
    var timer: nat
    var code: nat       // the address of the function to call
    var data: nat
    var second: int
    var nanosecond: int

    constructor ()
      ensures next == null
    {
      next, timer, code, data, second, nanosecond := null, 0, 0, 0, 0, 0;
    }

    ghost function View(): Entry
      reads this
    {
      Entry(timer, code, data, Time(second, nanosecond))
    }
  }

  /** The node behind node i, if any. */
  function Behind(nodes: seq<Timer>, i: nat): Timer? {
    if i + 1 < |nodes| then nodes[i + 1] else null
  }

  ghost predicate Linked(nodes: seq<Timer>)
    reads nodes
  {
    forall i :: 0 <= i < |nodes| ==> nodes[i].next == Behind(nodes, i)
  }

  /** The timers behind the list head. */
  ghost function Entries(nodes: seq<Timer>): (s: seq<Entry>)
    requires nodes != []
    reads nodes
    ensures |s| == |nodes| - 1
    ensures forall i :: 0 <= i < |s| ==> s[i] == nodes[i + 1].View()
  {
    seq(|nodes| - 1, i requires 0 <= i < |nodes| - 1 reads nodes => nodes[i + 1].View())
  }

  lemma LinkedAt(nodes: seq<Timer>)
    requires Linked(nodes) && Distinct(nodes)
    ensures forall i :: 0 <= i < |nodes| ==> nodes[i].next == Behind(nodes, i)
    ensures forall i, j :: 0 <= i < |nodes| && 0 <= j < |nodes| && i != j ==> nodes[i] != nodes[j]
  {
  }

  lemma InsertLinked(nodes: seq<Timer>, i: nat, n: Timer)
    requires i < |nodes| && n !in nodes && Distinct(nodes)
    requires nodes[i].next == n && n.next == Behind(nodes, i)
    requires forall j :: 0 <= j < |nodes| && j != i ==> nodes[j].next == Behind(nodes, j)
    ensures Linked(Inserted(nodes, i + 1, n))
  {
    var r := Inserted(nodes, i + 1, n);
    forall j | 0 <= j < |r|
      ensures r[j].next == Behind(r, j)
    {
      if j <= i {
        assert r[j] == nodes[j];
      } else if j > i + 1 {
        assert r[j] == nodes[j - 1] && Behind(r, j) == Behind(nodes, j - 1);
      }
    }
  }

  lemma InsertDistinct(nodes: seq<Timer>, k: nat, n: Timer)
    requires 1 <= k <= |nodes| && n !in nodes && Distinct(nodes)
    ensures Distinct(Inserted(nodes, k, n)) && Inserted(nodes, k, n)[0] == nodes[0]
    ensures forall x :: x in Inserted(nodes, k, n) ==> x == n || x in nodes
  {
  }

  lemma RemoveLinked(nodes: seq<Timer>)
    requires |nodes| >= 2 && Distinct(nodes)
    requires nodes[0].next == Behind(nodes, 1)
    requires forall j :: 1 <= j < |nodes| ==> nodes[j].next == Behind(nodes, j)
    ensures Linked([nodes[0]] + nodes[2..]) && Distinct([nodes[0]] + nodes[2..])
  {
    var r := [nodes[0]] + nodes[2..];
    forall j | 0 <= j < |r|
      ensures r[j].next == Behind(r, j)
    {
      if j > 0 {
        assert r[j] == nodes[j + 1] && Behind(r, j) == Behind(nodes, j + 1);
      }
    }
  }

  lemma EntriesInserted(nodes: seq<Timer>, k: nat, n: Timer)
    requires k < |nodes|
    ensures Entries(Inserted(nodes, k + 1, n)) == Inserted(Entries(nodes), k, n.View())
  {
    assert |Inserted(nodes, k + 1, n)| == |nodes| + 1;
  }

  lemma EntriesRemoved(nodes: seq<Timer>)
    requires |nodes| >= 2
    ensures Entries([nodes[0]] + nodes[2..]) == Entries(nodes)[1..]
  {
  }

  class TimerList {
    const head: Timer               // timer_list
    var count: nat                  // timer_count
    ghost var nodes: seq<Timer>     // the head and the pending timers, along the next pointers
    ghost var state: State          // the timers pending and taken

    constructor ()
      ensures Valid() && state == After([])
      ensures fresh(this) && fresh(nodes)
    {
      var h := new Timer();
      head, count, nodes, state := h, 0, [h], State([], []);
    }

    ghost predicate Valid()
      reads this, nodes
    {
      && nodes != [] && nodes[0] == head
      && Distinct(nodes) && Linked(nodes)
      && Entries(nodes) == state.pending && Sorted(state.pending)
    }

    /** ktimer_add; `room`: the page for the timer can be had. */
    method Add(code: nat, data: nat, delay: Time, now: Time, room: bool) returns (timer: nat)
      requires Valid()
      modifies this, nodes
      ensures Valid()
      ensures timer == if room then (old(count) + 1) % 0x1_0000_0000 else 0
      ensures room ==> count == timer && fresh(set n | n in nodes && n !in old(nodes))
      ensures !room ==> count == old(count) && nodes == old(nodes)
      ensures state == Next(old(state), if room then Event.Add(Entry(timer, code, data, Plus(now, delay))) else Refuse)
    {
      hide Linked, Distinct, Sorted, Place, IsPlace, Inserted, Entries, Int64, Int32;
      var second, nanosecond := now.second, now.nanosecond;
      second := Int64(second + delay.second);
      nanosecond := Int32(nanosecond + delay.nanosecond);
      ghost var deadline := Time(second, nanosecond);
      var p, c := FindPlace(second, nanosecond);
      ghost var k := Place(state.pending, deadline);
      timer := 0;
      if room {
        var n := new Timer();
        count := (count + 1) % 0x1_0000_0000;
        n.timer, n.code, n.data, n.second, n.nanosecond := count, code, data, second, nanosecond;
        Enqueue(p, n, c, k);
        timer := count;
      }
    }

    /** The walk of ktimer_add: p is the last node that is earlier, c the one behind it. */
    method FindPlace(second: int, nanosecond: int) returns (p: Timer, c: Timer?)
      requires Valid()
      ensures var k := Place(state.pending, Time(second, nanosecond));
              k < |nodes| && p == nodes[k] && c == Behind(nodes, k)
    {
      hide Place, Distinct, Sorted;
      LinkedAt(nodes);
      ghost var k := 0;
      p := head;
      c := p.next;
      while c != null
        invariant k < |nodes| && p == nodes[k] && c == Behind(nodes, k)
        invariant forall i :: 0 <= i < k ==> !NotAfter(Time(second, nanosecond), state.pending[i].deadline)
        decreases |nodes| - k
      {
        assert state.pending[k] == c.View();
        if second < c.second || (second == c.second && nanosecond <= c.nanosecond) {
          break;
        }
        p := c;
        c := c.next;
        k := k + 1;
      }
      PlaceUnique(state.pending, Time(second, nanosecond), k);
    }

    /** The new node joins the pending timers. */
    method Enqueue(p: Timer, n: Timer, c: Timer?, ghost k: nat)
      requires Valid() && n !in nodes && k == Place(state.pending, Time(n.second, n.nanosecond))
      requires k < |nodes| && p == nodes[k] && c == Behind(nodes, k)
      modifies this`nodes, this`state, p`next, n`next
      ensures Valid() && state == Next(old(state), Event.Add(old(n.View())))
      ensures n.timer == old(n.timer) && forall x :: x in nodes ==> x == n || x in old(nodes)
    {
      hide Linked, Distinct, Sorted, Place, IsPlace, Inserted, Entries, Behind;
      Link(p, n, c, k);
      AddedSorted(state.pending, n.View());
      assert Entries(nodes) == Added(state.pending, n.View());
      state := Next(state, Event.Add(n.View()));
    }

    /** The two stores that hang the new node between p and c. */
    method Hang(p: Timer, n: Timer, c: Timer?, ghost k: nat)
      requires Distinct(nodes) && Linked(nodes)
      requires k < |nodes| && p == nodes[k] && c == Behind(nodes, k) && n !in nodes
      modifies p`next, n`next
      ensures p.next == n && n.next == c
      ensures forall j :: 0 <= j < |nodes| && j != k ==> nodes[j].next == Behind(nodes, j)
      ensures n.View() == old(n.View()) && Entries(nodes) == old(Entries(nodes))
    {
      LinkedAt(nodes);
      hide Linked, Distinct, Behind;
      p.next := n;
      n.next := c;
    }

    /** The new node is linked in behind node k. */
    method Link(p: Timer, n: Timer, c: Timer?, ghost k: nat)
      requires Valid() && k < |nodes| && p == nodes[k] && c == Behind(nodes, k) && n !in nodes
      modifies this`nodes, p`next, n`next
      ensures nodes == Inserted(old(nodes), k + 1, n)
      ensures Distinct(nodes) && Linked(nodes) && Entries(nodes) == Inserted(state.pending, k, n.View())
      ensures n.View() == old(n.View()) && nodes[0] == old(nodes[0])
      ensures forall x :: x in nodes ==> x == n || x in old(nodes)
    {
      hide Linked, Distinct, Inserted, Sorted, Place, IsPlace, Entries, Behind;
      Hang(p, n, c, k);
      InsertDistinct(nodes, k + 1, n);
      InsertLinked(nodes, k, n);
      EntriesInserted(nodes, k, n);
      nodes := Inserted(nodes, k + 1, n);
    }

    /** The first pending timer is unhooked. */
    method Unlink(c: Timer)
      requires Valid() && |nodes| >= 2 && c == nodes[1]
      modifies this`nodes, head`next
      ensures nodes != [] && nodes[0] == head && (forall n :: n in nodes ==> n in old(nodes))
      ensures Distinct(nodes) && Linked(nodes) && Entries(nodes) == state.pending[1..]
    {
      LinkedAt(nodes);
      hide Linked, Distinct, Sorted;
      ghost var before := Entries(nodes);
      head.next := c.next;
      assert Entries(nodes) == before;
      hide Entries;
      RemoveLinked(nodes);
      EntriesRemoved(nodes);
      nodes := [nodes[0]] + nodes[2..];
    }

    /** One iteration of timer_thread: the function that is to be called, if any. */
    method TakeDue(now: Time) returns (due: bool, code: nat, data: nat)
      requires Valid()
      modifies this, head
      ensures Valid() && count == old(count)
      ensures due == Due(old(state.pending), now)
      ensures due ==> code == old(state.pending)[0].code && data == old(state.pending)[0].data
      ensures state == Next(old(state), Look(now))
    {
      hide Linked, Distinct, Sorted, Entries, Place, Inserted, Added;
      due, code, data := false, 0, 0;
      var c := First();
      if c != null {
        if c.second < now.second || (c.second == now.second && c.nanosecond <= now.nanosecond) {
          due, code, data := true, c.code, c.data;
          StepConserves(state, Look(now));
          Unlink(c);
          state := Next(state, Look(now));
        }
      }
    }

    method First() returns (c: Timer?)
      requires Valid()
      ensures c == null <==> state.pending == []
      ensures c != null ==> |nodes| >= 2 && c == nodes[1] && state.pending[0] == c.View()
    {
      LinkedAt(nodes);
      c := head.next;
    }
  }
}
