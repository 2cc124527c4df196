/** The thread list and its operations, arch/ia32/thread.c. */
module Threads {
  import opened Basics
  import opened Clock
  import opened Ring

  const NONE := Status(false, false, false)

  class Thread {
    var next: Thread?
    var tid: nat
    var status: Status
    var second: int
    var nanosecond: int
    var esp: nat

    /** A thread block in a page that reads as zeros. */
    constructor ()
      ensures next == null && View() == Tcb(0, NONE, Time(0, 0), 0)
    {
      next, tid, status, second, nanosecond, esp := null, 0, NONE, 0, 0, 0;
    }

    ghost function View(): Tcb
      reads this
    {
      Tcb(tid, status, Time(second, nanosecond), esp)
    }
  }

  /** The value of a kuint counter after n increments from 0. */
  function Counted(n: nat): nat {
    n % 0x1_0000_0000
  }

  lemma CountedNext(n: nat)
    ensures Counted(Counted(n) + 1) == Counted(n + 1)
  {
  }

  predicate SameThreads(a: seq<Thread>, b: seq<Thread>) {
    && |a| == |b|
    && (forall t :: t in a ==> t in b)
    && (forall t :: t in b ==> t in a)
  }

  /** The next pointers lead from each thread of the ring to the one after it, and back to the first. */
  ghost predicate Linked(ring: seq<Thread>)
    reads ring
  {
    forall i :: 0 <= i < |ring| ==> ring[i].next == ring[Ahead(i + 1, |ring|)]
  }

  ghost function Blocks(ring: seq<Thread>): (v: seq<Tcb>)
    reads ring
    ensures |v| == |ring|
    ensures forall i :: 0 <= i < |v| ==> v[i] == ring[i].View()
  {
    seq(|ring|, i requires 0 <= i < |ring| reads ring => ring[i].View())
  }

  /** The n-th thread created has the value of the counter after n increments as its tid. */
  ghost predicate Numbered(born: seq<Thread>)
    reads born
  {
    forall i :: 0 <= i < |born| ==> born[i].tid == Counted(i + 1)
  }

  lemma LinkedNext(ring: seq<Thread>)
    requires Linked(ring) && Distinct(ring)
    ensures forall i :: 0 <= i < |ring| ==> ring[i].next == ring[Ahead(i + 1, |ring|)]
    ensures forall i :: 1 <= i < |ring| ==> ring[i] != ring[0]
  {
  }

  lemma NumberedKept(born: seq<Thread>)
    requires Numbered(born)
    ensures forall i :: 0 <= i < |born| ==> born[i].tid == Counted(i + 1)
  {
  }

  lemma NumberedPush(born: seq<Thread>, t: Thread)
    requires forall i :: 0 <= i < |born| ==> born[i].tid == Counted(i + 1)
    requires t.tid == Counted(|born| + 1)
    ensures Numbered(born + [t])
  {
  }

  lemma RotateThreads(ring: seq<Thread>, d: nat)
    requires d <= |ring| && Linked(ring) && Distinct(ring)
    ensures Linked(Rotate(ring, d)) && Distinct(Rotate(ring, d)) && SameThreads(Rotate(ring, d), ring)
  {
    RotateMembers(ring, d);
    var r := Rotate(ring, d);
    forall i | 0 <= i < |r|
      ensures r[i].next == r[Ahead(i + 1, |r|)]
    {
      assert ring[Turned(i, d, |ring|)].next == ring[Ahead(Turned(i, d, |ring|) + 1, |ring|)];
    }
  }

  lemma RotateFirst(ring: seq<Thread>, d: nat)
    requires 1 <= d <= |ring|
    ensures Rotate(ring, d)[0] == ring[Ahead(d, |ring|)]
  {
  }

  lemma AheadBelow(d: nat, ring: seq<Thread>)
    requires 1 <= d <= |ring| && ring[Ahead(d, |ring|)] != ring[0]
    ensures d < |ring|
  {
  }

  /** Only the last step of a lap comes to the current thread. */
  lemma AheadLast(d: nat, ring: seq<Thread>)
    requires 1 <= d <= |ring| && ring[Ahead(d, |ring|)] == ring[0] && Distinct(ring)
    ensures d == |ring|
  {
  }

  lemma RotateMembers(ring: seq<Thread>, d: nat)
    requires d <= |ring|
    ensures SameThreads(Rotate(ring, d), ring)
  {
    assert ring[..d] + ring[d..] == ring;
  }

  lemma RotateBlocks(ring: seq<Thread>, d: nat)
    requires d <= |ring|
    ensures Blocks(Rotate(ring, d)) == Rotate(Blocks(ring), d)
  {
  }

  lemma MembersOf(a: seq<Thread>, b: seq<Thread>)
    requires SameThreads(a, b)
    ensures forall t :: t in b ==> t in a
  {
  }

  lemma SameTransitive(a: seq<Thread>, b: seq<Thread>, c: seq<Thread>)
    requires SameThreads(a, b) && SameThreads(b, c)
    ensures SameThreads(a, c)
  {
  }

  lemma InsertThreads(ring: seq<Thread>, t: Thread, born: seq<Thread>)
    requires 1 <= |ring| && Distinct(ring) && t !in ring && SameThreads(ring, born)
    ensures Distinct(InsertedNext(ring, t)) && SameThreads(InsertedNext(ring, t), born + [t])
    ensures Distinct(born) ==> Distinct(born + [t])
  {
    var r := InsertedNext(ring, t);
    assert ring == [ring[0]] + ring[1..];
    assert r[1] == t && r[0] == ring[0];
  }

  lemma InsertBlocks(ring: seq<Thread>, t: Thread)
    requires 1 <= |ring|
    ensures Blocks(InsertedNext(ring, t)) == InsertedNext(Blocks(ring), t.View())
    ensures InsertedNext(ring, t)[0] == ring[0] && |InsertedNext(ring, t)| == |ring| + 1
  {
  }

  lemma InsertLinked(ring: seq<Thread>, t: Thread)
    requires 1 <= |ring| && Distinct(ring) && t !in ring
    requires forall i :: 1 <= i < |ring| ==> ring[i].next == ring[Ahead(i + 1, |ring|)]
    requires t.next == ring[Ahead(1, |ring|)] && ring[0].next == t
    ensures Linked(InsertedNext(ring, t))
  {
    var r := InsertedNext(ring, t);
    assert forall i :: 2 <= i < |r| ==> r[i] == ring[i - 1];
  }

  class Scheduler {
    var current: Thread?
    var threadList: Thread?
    var tidCounter: nat
    ghost var ring: seq<Thread>   // all threads, the current one first, along the next pointers
    ghost var born: seq<Thread>   // all threads in the order of their creation

    /** The kernel's variables before kthread_setup. */
    constructor ()
      ensures fresh(this) && current == null && threadList == null && tidCounter == 0 && ring == [] && born == []
    {
      current, threadList, tidCounter, ring, born := null, null, 0, [], [];
    }

    /** Every thread ever created is in one cycle of next pointers, once. */
    ghost predicate Valid()
      reads this, ring, born
    {
      && 1 <= |ring| && current == ring[0]
      && Distinct(ring) && Linked(ring) && SameThreads(ring, born)
      && Distinct(born) && Numbered(born) && tidCounter == Counted(|born|)
      && threadList == null
    }

    ghost function View(): (v: seq<Tcb>)
      reads this, ring
      ensures |v| == |ring|
    {
      Blocks(ring)
    }

    /** kthread_setup. The page of the first thread is not cleared: `rest` is what its block holds
        besides the fields that are set. */
    method Setup(page: nat, rest: Time) returns (esp: nat)
      requires current == null && threadList == null && tidCounter == 0 && ring == [] && born == []
      modifies this
      ensures Valid() && fresh(ring[0]) && esp == page + 1024
      ensures View() == [Tcb(1, Status(true, false, false), rest, esp)]
    {
      var t := new Thread();
      tidCounter := Counted(tidCounter + 1);
      t.tid := tidCounter;
      t.status := ALIVE;
      t.second, t.nanosecond := rest.second, rest.nanosecond;
      t.next := t;
      t.esp := page + 1024;
      current := t;
      ring, born := [t], [t];
      esp := t.esp;
    }

    /** kthread_create up to the switch. `room`: both page allocations succeed; `top`: the end of
        the new thread's stack. */
    method Create(room: bool, top: nat) returns (tid: nat)
      requires Valid() && 13 <= top
      modifies this, ring
      ensures Valid()
      ensures !room ==> tid == 0 && View() == old(View()) && ring == old(ring) && born == old(born)
      ensures room ==> |born| == |old(born)| + 1 && tid == Counted(|born|) && fresh(born[|born| - 1])
      ensures room ==>
                Step(old(View()), Event.Create(Tcb(tid, Status(true, false, false), Time(0, 0), top - 13)), View())
      ensures room ==> |View()| == |old(View())| + 1 && View()[0] == old(View())[0] && View()[1].tid == tid
                       && forall p :: 1 <= p < |old(View())| ==> View()[p + 1] == old(View())[p]
    {
      if !room {
        return 0;
      }
      hide Linked, Distinct, SameThreads, Numbered, Counted, InsertedNext;
      ghost var before := View();
      InsertedNextIs(before, Tcb(Counted(|born| + 1), ALIVE, Time(0, 0), top - 13));
      var t := new Thread();
      t.status := ALIVE;
      t.esp := top - 13;
      Link(t);
      tid := t.tid;
    }

    /** The part of kthread_create under the lock. */
    method Link(t: Thread)
      requires Valid() && t !in ring
      modifies this, current, t
      ensures Valid() && born == old(born) + [t]
      ensures t.tid == Counted(|born|)
      ensures View() == InsertedNext(old(View()), old(t.View()).(tid := t.tid))
      ensures ring == InsertedNext(old(ring), t)
    {
      hide Linked, Distinct, SameThreads, Numbered, Counted, InsertedNext, Ahead;
      LinkedNext(ring);
      MembersOf(ring, born);
      NumberedKept(born);
      t.next := current.next;
      current.next := t;
      CountedNext(|born|);
      tidCounter := Counted(tidCounter + 1);
      t.tid := tidCounter;
      NumberedPush(born, t);
      InsertLinked(ring, t);
      InsertThreads(ring, t, born);
      assert Blocks(ring) == old(Blocks(ring));
      InsertBlocks(ring, t);
      ring := InsertedNext(ring, t);
      born := born + [t];
    }

    /** `list` holds the threads along the next pointers from thread_list, which nothing ever fills. */
    ghost predicate Listed(list: seq<Thread>)
      reads this, list
    {
      && (list == [] <==> threadList == null)
      && (list != [] ==> threadList == list[0])
      && (forall i :: 0 <= i < |list| - 1 ==> list[i].next == list[i + 1])
      && (list != [] ==> list[|list| - 1].next == null)
    }

    /** find_thread: the current thread, or else the first listed one with that tid. */
    method FindThread(tid: nat, ghost list: seq<Thread>) returns (t: Thread?)
      requires current != null && Listed(list)
      ensures t != null ==> t.tid == tid && (t == current || t in list)
      ensures t == null <==> current.tid != tid && forall i :: 0 <= i < |list| ==> list[i].tid != tid
      ensures current.tid == tid ==> t == current
    {
      if current.tid == tid {
        return current;
      }
      t := threadList;
      ghost var i := 0;
      while t != null && t.tid != tid
        invariant 0 <= i <= |list| && (t == null <==> i == |list|) && (i < |list| ==> t == list[i])
        invariant forall j :: 0 <= j < i ==> list[j].tid != tid
        decreases |list| - i
      {
        assert t == list[i] && (i < |list| - 1 ==> list[i].next == list[i + 1]);
        t := t.next;
        i := i + 1;
      }
    }

    method StoreStatus(t: Thread, status: Status)
      requires Valid() && t == current
      modifies t`status
      ensures Valid() && View() == old(View())[0 := old(View())[0].(status := status)]
    {
      t.status := status;
    }

    /** The part of kthread_suspend under the lock; `found` is false when the code would write
        through a null pointer. */
    method Suspend(tid: nat) returns (found: bool)
      requires Valid()
      modifies ring
      ensures Valid() && found == (tid == old(ring[0].tid))
      ensures !found ==> View() == old(View())
      ensures found ==>
                && View() == old(View())[0 := View()[0]]
                && View()[0].status.suspend
                && View()[0] == old(View())[0].(status := old(View())[0].status.(suspend := true))
      ensures found ==> Step(old(View()), Change(View()[0]), View())
    {
      var t := FindThread(tid, []);
      found := t != null;
      if found {
        StoreStatus(t, t.status.(suspend := true));
      }
    }

    /** The part of kthread_resume under the lock. */
    method Resume(tid: nat) returns (found: bool)
      requires Valid()
      modifies ring
      ensures Valid() && found == (tid == old(ring[0].tid))
      ensures !found ==> View() == old(View())
      ensures found ==>
                && View() == old(View())[0 := View()[0]]
                && !View()[0].status.suspend
                && View()[0] == old(View())[0].(status := old(View())[0].status.(suspend := false))
      ensures found ==> Step(old(View()), Change(View()[0]), View())
    {
      var t := FindThread(tid, []);
      found := t != null;
      if found {
        StoreStatus(t, t.status.(suspend := false));
      }
    }

    /** The part of kthread_kill under the lock. */
    method Kill(tid: nat) returns (found: bool)
      requires Valid()
      modifies ring
      ensures Valid() && found == (tid == old(ring[0].tid))
      ensures !found ==> View() == old(View())
      ensures found ==>
                && View() == old(View())[0 := View()[0]]
                && !View()[0].status.alive
                && View()[0] == old(View())[0].(status := old(View())[0].status.(alive := false))
      ensures found ==> Step(old(View()), Change(View()[0]), View())
    {
      var t := FindThread(tid, []);
      found := t != null;
      if found {
        StoreStatus(t, t.status.(alive := false));
      }
    }

    method StoreSleep(t: Thread, delay: Time, now: Time)
      requires Valid() && t == current
      modifies t`second, t`nanosecond, t`status
      ensures Valid() && View()[0].status.sleep
      ensures var was := old(View())[0];
              View() == old(View())[0 := was.(status := was.status.(sleep := true), deadline := Plus(now, delay))]
    {
      hide Int64, Int32;
      t.second, t.nanosecond := now.second, now.nanosecond;
      t.second := Int64(t.second + delay.second);
      t.nanosecond := Int32(t.nanosecond + delay.nanosecond);
      t.status := t.status.(sleep := true);
    }

    /** The part of kthread_sleep under the lock; `now` is what ktime_get reports. */
    method Sleep(tid: nat, delay: Time, now: Time) returns (found: bool)
      requires Valid()
      modifies ring
      ensures Valid() && found == (tid == old(ring[0].tid))
      ensures !found ==> View() == old(View())
      ensures found ==> var was := old(View())[0];
                        View() == old(View())[0 := Tcb(was.tid, Status(was.status.alive, true, was.status.suspend),
                                                       Plus(now, delay), was.esp)]
      ensures found ==> Step(old(View()), Change(View()[0]), View())
    {
      var t := FindThread(tid, []);
      found := t != null;
      if found {
        StoreSleep(t, delay, now);
      }
    }

    method NextOf(t: Thread, ghost p: nat) returns (n: Thread)
      requires Valid() && p < |ring| && t == ring[p]
      ensures n == ring[Ahead(p + 1, |ring|)]
    {
      assert t.next == ring[Ahead(p + 1, |ring|)];
      n := t.next;
    }

    /** The end of a sleep. */
    method Wake(t: Thread, ghost p: nat)
      requires Valid() && p < |ring| && t == ring[p] && t.status.sleep
      modifies t`second, t`nanosecond, t`status
      ensures Valid() && View() == old(View())[p := Woken(old(View())[p])]
      ensures !t.status.sleep && t.second == t.nanosecond == 0
    {
      t.second := 0;
      t.nanosecond := 0;
      t.status := t.status.(sleep := false);
    }

    /** What schedule_thread does at thread t: does the search end here? A due sleeper is woken. */
    method Examine(t: Thread, now: Time, ghost p: nat) returns (stop: bool)
      requires Valid() && p < |ring| && t == ring[p]
      modifies t`second, t`nanosecond, t`status
      ensures Valid() && stop == Eligible(old(View())[p], now)
      ensures View() == if stop then old(View())[p := Woken(old(View())[p])] else old(View())
    {
      hide Linked, Distinct, SameThreads, Numbered, Counted;
      assert View()[p] == t.View();
      if t.status.sleep {
        stop := t.second < now.second || (t.second == now.second && t.nanosecond <= now.nanosecond);
        if stop {
          Wake(t, p);
        }
      } else {
        stop := !t.status.suspend && t.status.alive;
        assert stop ==> View() == View()[p := Woken(View()[p])];
      }
    }

    /** schedule_thread. `found` is false when the search has come round to the current thread and
        has changed nothing: then it goes round for ever. */
    method Schedule(now: Time) returns (found: bool, t: Thread)
      requires Valid()
      modifies ring
      ensures Valid() && found == SomeEligible(old(View()), now)
      ensures !found ==> View() == old(View())
      ensures found ==>
                var p := Ahead(Choice(old(View()), now), |ring|);
                t == ring[p] && View() == old(View())[p := Woken(old(View())[p])]
    {
      hide Linked, Distinct, SameThreads, Numbered, Counted, Woken, Eligible, Blocks;
      ghost var d, v := 1, View();
      t := NextOf(current, 0);
      found := Examine(t, now, Ahead(d, |ring|));
      while !found && t != current
        invariant 1 <= d <= |ring| && t == ring[Ahead(d, |ring|)] && Valid()
        invariant found == EligibleAt(v, now, d) && forall e :: 1 <= e < d ==> !EligibleAt(v, now, e)
        invariant !found ==> View() == v
        invariant found ==> View() == v[Ahead(d, |ring|) := Woken(v[Ahead(d, |ring|)])]
        decreases |ring| - d, !found
      {
        AheadBelow(d, ring);
        t := NextOf(t, Ahead(d, |ring|));
        d := d + 1;
        found := Examine(t, now, Ahead(d, |ring|));
      }
      if found {
        ChoiceUnique(v, now, d, Choice(v, now));
      } else {
        AheadLast(d, ring);
      }
    }

    /** thread_switch: saves the stack pointer of the current thread, gives that of the next. `ok` is
        false when the search for the next thread does not end. */
    method Switch(esp: nat, now: Time) returns (ok: bool, next: nat)
      requires Valid()
      modifies this`current, this`ring, ring
      ensures Valid() && born == old(born) && ok == SomeEligible(Saved(old(View()), esp), now)
      ensures var v := old(View());
              ok <==>
              exists p :: 0 <= p < |v| &&
                          (|| (v[p].status.sleep
                               && (v[p].deadline.second < now.second
                                   || (v[p].deadline.second == now.second
                                       && v[p].deadline.nanosecond <= now.nanosecond)))
                           || (!v[p].status.sleep && !v[p].status.suspend && v[p].status.alive))
      ensures ok ==> Step(old(View()), Event.Switch(esp, now), View()) && next == View()[0].esp
      ensures !ok ==> View() == Saved(old(View()), esp)
    {
      hide Linked, Distinct, SameThreads, Numbered, Counted, Blocks, Rotate, Saved, Woken, IsChoice, EligibleAt,
           SomeEligible, Step, Switched;
      ghost var was, before := ring, View();
      SearchStopsIff(before, now);
      SavedStops(before, esp, now);
      SaveEsp(esp);
      ghost var saved := View();
      var t: Thread;
      ok, t := Schedule(now);
      next := 0;
      if ok {
        MoveOn(t, saved, now);
        SwitchStep(before, esp, now, View());
        next := current.esp;
      }
    }

    /** The thread that the search found becomes current. */
    method MoveOn(t: Thread, ghost saved: seq<Tcb>, ghost now: Time)
      requires Valid() && |saved| == |ring| && SomeEligible(saved, now)
      requires var p := Ahead(Choice(saved, now), |ring|); t == ring[p] && View() == saved[p := Woken(saved[p])]
      modifies this`current, this`ring
      ensures Valid()
      ensures var p := Ahead(Choice(saved, now), |saved|);
              View() == Rotate(saved[p := Woken(saved[p])], Choice(saved, now))
      ensures current == t
    {
      hide Linked, Distinct, SameThreads, Numbered, Counted, Blocks, Rotate, Woken, IsChoice, EligibleAt, SomeEligible;
      ChoiceInRing(saved, now);
      ghost var was, d := ring, Choice(saved, now);
      current := t;
      ring := Rotate(ring, d);
      RotateFirst(was, d);
      RotateThreads(was, d);
      SameTransitive(ring, was, born);
      RotateBlocks(was, d);
    }

    method SaveEsp(esp: nat)
      requires Valid()
      modifies current`esp
      ensures Valid() && View() == Saved(old(View()), esp)
    {
      current.esp := esp;
    }
  }

  /** Tids are 1 to the counter, each given once, exactly as long as the 32-bit counter has not gone
      round. */
  lemma TidsDistinctIff(s: Scheduler)
    requires s.Valid()
    ensures (forall i, j :: 0 <= i < j < |s.ring| ==> s.ring[i].tid != s.ring[j].tid) <==> |s.ring| <= 0x1_0000_0000
    ensures |s.ring| < 0x1_0000_0000 ==> forall t :: t in s.ring ==> 1 <= t.tid <= s.tidCounter
  {
    if |s.ring| > 0x1_0000_0000 {
      var a, b := s.born[0], s.born[0x1_0000_0000];
      assert a in s.born && b in s.born && a != b;
      var i: nat :| i < |s.ring| && s.ring[i] == a;
      var j: nat :| j < |s.ring| && s.ring[j] == b;
      assert a.tid == b.tid;
      assert i != j;
    } else {
      forall i, j | 0 <= i < j < |s.ring|
        ensures s.ring[i].tid != s.ring[j].tid
      {
        assert s.ring[i] in s.born && s.ring[j] in s.born;
        var a: nat :| a < |s.born| && s.born[a] == s.ring[i];
        var b: nat :| b < |s.born| && s.born[b] == s.ring[j];
        assert a != b;
        CountedApart(a + 1, b + 1);
      }
    }
    forall t | t in s.ring && |s.ring| < 0x1_0000_0000
      ensures 1 <= t.tid <= s.tidCounter
    {
      assert t in s.born;
      var a: nat :| a < |s.born| && s.born[a] == t;
      CountedSmall(a + 1);
      CountedSmall(|s.born|);
    }
  }

  lemma CountedSmall(n: nat)
    requires n < 0x1_0000_0000
    ensures Counted(n) == n
  {
  }

  lemma CountedApart(a: nat, b: nat)
    requires 1 <= a <= 0x1_0000_0000 && 1 <= b <= 0x1_0000_0000 && a != b
    ensures Counted(a) != Counted(b)
  {
    if a < 0x1_0000_0000 {
      CountedSmall(a);
    }
    if b < 0x1_0000_0000 {
      CountedSmall(b);
    }
  }
}
