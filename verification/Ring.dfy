/** The ring of threads as a value: the current thread comes first, the others follow in the order
    of their next pointers. */
module Ring {
  import opened Clock

  /** The status word: one flag for each of its three bits. */
  datatype Status = Status(alive: bool, sleep: bool, suspend: bool)

  const ALIVE := Status(true, false, false)

  datatype Tcb = Tcb(tid: nat, status: Status, deadline: Time, esp: nat)

  predicate Sleeping(t: Tcb) {
    t.status.sleep
  }

  /** What schedule_thread accepts: a sleeper whose time has come, whatever its other bits say, or
      a live thread that neither sleeps nor is suspended. */
  predicate Eligible(t: Tcb, now: Time) {
    if Sleeping(t) then NotAfter(t.deadline, now) else !t.status.suspend && t.status.alive
  }

  /** The position of the thread `d` links behind the current one, in a ring of n. */
  function Ahead(d: nat, n: nat): nat {
    if d == n then 0 else d
  }

  /** How many links lead from the current thread to position p; n for the current thread itself. */
  function Distance(p: nat, n: nat): nat {
    if p == 0 then n else p
  }

  predicate EligibleAt(ring: seq<Tcb>, now: Time, d: nat) {
    1 <= d <= |ring| && Eligible(ring[Ahead(d, |ring|)], now)
  }

  ghost predicate SomeEligible(ring: seq<Tcb>, now: Time) {
    exists d :: EligibleAt(ring, now, d)
  }

  /** d leads to the first eligible thread after the current one. */
  ghost predicate IsChoice(ring: seq<Tcb>, now: Time, d: nat) {
    EligibleAt(ring, now, d) && forall e :: 1 <= e < d ==> !EligibleAt(ring, now, e)
  }

  ghost function Choice(ring: seq<Tcb>, now: Time): (d: nat)
    requires SomeEligible(ring, now)
    ensures IsChoice(ring, now, d)
  {
    var d :| EligibleAt(ring, now, d);
    ChoiceBelow(ring, now, d);
    var c :| IsChoice(ring, now, c);
    c
  }

  lemma {:induction false} ChoiceBelow(ring: seq<Tcb>, now: Time, d: nat)
    requires EligibleAt(ring, now, d)
    ensures exists c :: IsChoice(ring, now, c)
    decreases d
  {
    if e :| 1 <= e < d && EligibleAt(ring, now, e) {
      ChoiceBelow(ring, now, e);
    } else {
      assert IsChoice(ring, now, d);
    }
  }

  lemma ChoiceInRing(ring: seq<Tcb>, now: Time)
    requires SomeEligible(ring, now)
    ensures var d := Choice(ring, now);
            1 <= d <= |ring| && Rotate(ring, d)[0] == ring[Ahead(d, |ring|)]
  {
  }

  lemma ChoiceUnique(ring: seq<Tcb>, now: Time, c: nat, d: nat)
    requires IsChoice(ring, now, c) && IsChoice(ring, now, d)
    ensures c == d
  {
  }

  /** A due sleeper loses its deadline and its sleep bit when it is picked. */
  function Woken(t: Tcb): Tcb {
    if Sleeping(t) then t.(status := t.status.(sleep := false), deadline := Time(0, 0)) else t
  }

  /** The position that `d` links lead to from position p, in a ring of n. */
  function Turned(p: nat, d: nat, n: nat): nat
    requires p < n && d <= n
  {
    if p + d < n then p + d else p + d - n
  }

  function Rotate<T>(ring: seq<T>, d: nat): (r: seq<T>)
    requires d <= |ring|
    ensures |r| == |ring|
    ensures forall p :: 0 <= p < |r| ==> r[p] == ring[Turned(p, d, |ring|)]
  {
    ring[d..] + ring[..d]
  }

  /** What the ring of threads looks like after a creation. */
  lemma InsertedNextIs<T>(ring: seq<T>, t: T)
    requires 1 <= |ring|
    ensures var r := InsertedNext(ring, t);
            |r| == |ring| + 1 && r[0] == ring[0] && r[1] == t && forall p :: 1 <= p < |ring| ==> r[p + 1] == ring[p]
  {
  }

  lemma RotateHead<T>(s: seq<T>, d: nat, x: T)
    requires 1 <= d <= |s|
    ensures Rotate(s[Ahead(d, |s|) := x], d) == Rotate(s, d)[0 := x]
  {
  }

  /** thread_switch: the current thread's stack pointer is saved, the first eligible thread is made
      current and woken. */
  ghost function Switched(ring: seq<Tcb>, esp: nat, now: Time): seq<Tcb>
    requires 1 <= |ring| && SomeEligible(Saved(ring, esp), now)
  {
    var s := Saved(ring, esp);
    var r := Rotate(s, Choice(s, now));
    r[0 := Woken(r[0])]
  }

  function Saved(ring: seq<Tcb>, esp: nat): seq<Tcb>
    requires 1 <= |ring|
  {
    ring[0 := ring[0].(esp := esp)]
  }

  /** kthread_create: a new thread comes right behind the current one. */
  function InsertedNext<T>(ring: seq<T>, t: T): (r: seq<T>)
    requires 1 <= |ring|
    ensures |r| == |ring| + 1
  {
    [ring[0], t] + ring[1..]
  }

  // ---------------------------------------------------------------- runs

  /** What may happen to the ring: a thread is created, the processor is switched, or the current
      thread changes its own status. */
  datatype Event = Create(t: Tcb) | Switch(esp: nat, now: Time) | Change(t: Tcb)

  ghost predicate Step(a: seq<Tcb>, e: Event, b: seq<Tcb>) {
    && 1 <= |a|
    && match e
       case Create(t) => b == InsertedNext(a, t)
       case Switch(esp, now) => SomeEligible(Saved(a, esp), now) && b == Switched(a, esp, now)
       case Change(t) => t.tid == a[0].tid && b == a[0 := t]
  }

  lemma SwitchStep(a: seq<Tcb>, esp: nat, now: Time, b: seq<Tcb>)
    requires 1 <= |a| && SomeEligible(Saved(a, esp), now)
    requires var s := Saved(a, esp);
             var p := Ahead(Choice(s, now), |a|);
             b == Rotate(s[p := Woken(s[p])], Choice(s, now))
    ensures Step(a, Switch(esp, now), b)
  {
    var s := Saved(a, esp);
    var d := Choice(s, now);
    ChoiceInRing(s, now);
    hide Saved, IsChoice, EligibleAt, SomeEligible, Rotate, Woken;
    RotateHead(s, d, Woken(s[Ahead(d, |s|)]));
  }

  ghost predicate Run(states: seq<seq<Tcb>>, events: seq<Event>) {
    |states| == |events| + 1 && forall i :: 0 <= i < |events| ==> StepAt(states, events, i)
  }

  ghost predicate StepAt(states: seq<seq<Tcb>>, events: seq<Event>, i: nat)
    requires |states| == |events| + 1 && i < |events|
  {
    Step(states[i], events[i], states[i + 1])
  }

  /** Where the thread at position p of ring a goes. */
  ghost function Moved(a: seq<Tcb>, e: Event, p: nat): nat {
    match e
    case Create(t) => if p == 0 then 0 else p + 1
    case Change(t) => p
    case Switch(esp, now) =>
      if 1 <= |a| && SomeEligible(Saved(a, esp), now) then
        var d := Choice(Saved(a, esp), now);
        if d <= p then p - d else p + |a| - d
      else p
  }

  /** The position after the first i events of the thread that starts at position p. */
  ghost function Position(states: seq<seq<Tcb>>, events: seq<Event>, p: nat, i: nat): nat
    requires |states| == |events| + 1 && i <= |events|
  {
    if i == 0 then p else Moved(states[i - 1], events[i - 1], Position(states, events, p, i - 1))
  }

  lemma MovedStep(a: seq<Tcb>, e: Event, b: seq<Tcb>, p: nat)
    requires Step(a, e, b) && p < |a|
    ensures Moved(a, e, p) < |b| && b[Moved(a, e, p)].tid == a[p].tid
  {
  }

  /** A position keeps naming the same thread. */
  lemma {:induction false} PositionTracks(states: seq<seq<Tcb>>, events: seq<Event>, p: nat, i: nat)
    requires Run(states, events) && p < |states[0]| && i <= |events|
    ensures var q := Position(states, events, p, i); q < |states[i]| && states[i][q].tid == states[0][p].tid
  {
    if i > 0 {
      PositionTracks(states, events, p, i - 1);
      assert StepAt(states, events, i - 1);
      MovedStep(states[i - 1], events[i - 1], states[i], Position(states, events, p, i - 1));
    }
  }

  /** Event i gives the processor to the thread that started at position p. */
  ghost predicate Picked(states: seq<seq<Tcb>>, events: seq<Event>, p: nat, i: nat)
    requires |states| == |events| + 1 && i < |events|
  {
    events[i].Switch? && Position(states, events, p, i + 1) == 0
  }

  /** At each switch of the run the thread that started at position p is eligible. */
  ghost predicate StaysEligible(states: seq<seq<Tcb>>, events: seq<Event>, p: nat)
    requires Run(states, events)
  {
    forall i :: 0 <= i < |events| && events[i].Switch? ==> EligibleThen(states, events, p, i)
  }

  ghost predicate EligibleThen(states: seq<seq<Tcb>>, events: seq<Event>, p: nat, i: nat)
    requires |states| == |events| + 1 && i < |events| && events[i].Switch?
  {
    var q := Position(states, events, p, i);
    q < |states[i]| && Eligible(states[i][q], events[i].now)
  }

  ghost function Switches(events: seq<Event>, n: nat): nat
    requires n <= |events|
  {
    if n == 0 then 0 else Switches(events, n - 1) + if events[n - 1].Switch? then 1 else 0
  }

  ghost function Creations(events: seq<Event>, n: nat): nat
    requires n <= |events|
  {
    if n == 0 then 0 else Creations(events, n - 1) + if events[n - 1].Create? then 1 else 0
  }

  /** One switch that passes over an eligible thread brings it nearer. */
  lemma Nearer(a: seq<Tcb>, esp: nat, now: Time, p: nat)
    requires 1 <= |a| && SomeEligible(Saved(a, esp), now) && p < |a| && Eligible(a[p], now)
    ensures var q := Moved(a, Switch(esp, now), p);
            q != 0 ==> Distance(q, |a|) < Distance(p, |a|)
  {
    assert EligibleAt(Saved(a, esp), now, Distance(p, |a|));
  }

  lemma {:induction false} WaitingShrinks(states: seq<seq<Tcb>>, events: seq<Event>, p: nat, n: nat)
    requires Run(states, events) && p < |states[0]| && n <= |events|
    requires StaysEligible(states, events, p)
    requires forall i :: 0 <= i < n ==> !Picked(states, events, p, i)
    ensures Position(states, events, p, n) < |states[n]|
    ensures Distance(Position(states, events, p, n), |states[n]|) + Switches(events, n)
            <= Distance(p, |states[0]|) + Creations(events, n)
  {
    if n > 0 {
      WaitingShrinks(states, events, p, n - 1);
      PositionTracks(states, events, p, n);
      assert StepAt(states, events, n - 1);
      var q := Position(states, events, p, n - 1);
      if events[n - 1].Switch? {
        assert EligibleThen(states, events, p, n - 1);
        assert !Picked(states, events, p, n - 1);
        Nearer(states[n - 1], events[n - 1].esp, events[n - 1].now, q);
      }
    }
  }

  /** Bounded waiting: a thread that stays eligible runs again within as many switches as it is
      links away from the current thread, plus one for every thread created meanwhile. */
  lemma BoundedWaiting(states: seq<seq<Tcb>>, events: seq<Event>, p: nat)
    requires Run(states, events) && p < |states[0]| && StaysEligible(states, events, p)
    requires Switches(events, |events|) >= Distance(p, |states[0]|) + Creations(events, |events|)
    ensures exists i :: 0 <= i < |events| && Picked(states, events, p, i)
  {
    if forall i :: 0 <= i < |events| ==> !Picked(states, events, p, i) {
      WaitingShrinks(states, events, p, |events|);
    }
  }

  /** No switch among the events finds thread t eligible. */
  ghost predicate NeverEligible(t: Tcb, events: seq<Event>) {
    forall i :: 0 <= i < |events| && events[i].Switch? ==> !Eligible(t, events[i].now)
  }

  lemma Passed(a: seq<Tcb>, e: Event, b: seq<Tcb>, p: nat)
    requires Step(a, e, b) && 1 <= p < |a| && (e.Switch? ==> !Eligible(a[p], e.now))
    ensures 1 <= Moved(a, e, p) < |b| && b[Moved(a, e, p)] == a[p]
  {
    if e.Switch? {
      assert !EligibleAt(Saved(a, e.esp), e.now, p);
    }
  }

  /** A thread that is not current and that no switch finds eligible keeps its block and never
      runs: only the current thread can change a status, and only its own. */
  lemma {:induction false} Parked(states: seq<seq<Tcb>>, events: seq<Event>, p: nat, n: nat)
    requires Run(states, events) && 1 <= p < |states[0]| && n <= |events|
    requires NeverEligible(states[0][p], events)
    ensures 1 <= Position(states, events, p, n) < |states[n]|
    ensures states[n][Position(states, events, p, n)] == states[0][p]
    ensures forall i :: 0 <= i < n ==> !Picked(states, events, p, i)
  {
    if n > 0 {
      Parked(states, events, p, n - 1);
      assert StepAt(states, events, n - 1);
      Passed(states[n - 1], events[n - 1], states[n], Position(states, events, p, n - 1));
    }
  }

  /** A sleeper is never run before its deadline. */
  lemma SleepsUntilDeadline(states: seq<seq<Tcb>>, events: seq<Event>, p: nat)
    requires Run(states, events) && 1 <= p < |states[0]| && states[0][p].status.sleep
    requires forall i :: 0 <= i < |events| && events[i].Switch? ==> !NotAfter(states[0][p].deadline, events[i].now)
    ensures forall i :: 0 <= i < |events| ==> !Picked(states, events, p, i)
  {
    Parked(states, events, p, |events|);
  }

  /** A thread that has died, or has been suspended, while it was not asleep never runs again. For
      a suspended thread this falls short of kthread_resume's intent. */
  lemma DeadOrSuspendedForever(states: seq<seq<Tcb>>, events: seq<Event>, p: nat)
    requires Run(states, events) && 1 <= p < |states[0]| && !states[0][p].status.sleep
    requires !states[0][p].status.alive || states[0][p].status.suspend
    ensures forall i :: 0 <= i < |events| ==> !Picked(states, events, p, i)
  {
    Parked(states, events, p, |events|);
  }

  // -------------------------------------------------- which thread is picked

  /** schedule_thread stops at the thread d links behind the current one, told from its status bits and its
      deadline alone. */
  lemma StopsIff(v: seq<Tcb>, now: Time, d: nat)
    requires 1 <= d <= |v|
    ensures var t := v[if d == |v| then 0 else d];
            EligibleAt(v, now, d) <==>
              || (t.status.sleep && (t.deadline.second < now.second
                                     || (t.deadline.second == now.second && t.deadline.nanosecond <= now.nanosecond)))
              || (!t.status.sleep && !t.status.suspend && t.status.alive)
  {
  }

  /** Where the search ends: at the first thread behind the current one that is alive and neither asleep nor
      suspended, or asleep with a deadline that has come. */
  lemma ChoiceIs(v: seq<Tcb>, now: Time, d: nat)
    requires IsChoice(v, now, d)
    ensures 1 <= d <= |v|
    ensures var t := v[if d == |v| then 0 else d];
            || (t.status.sleep && (t.deadline.second < now.second
                                   || (t.deadline.second == now.second && t.deadline.nanosecond <= now.nanosecond)))
            || (!t.status.sleep && !t.status.suspend && t.status.alive)
    ensures forall e :: 1 <= e < d ==>
              if v[e].status.sleep
              then !(v[e].deadline.second < now.second
                     || (v[e].deadline.second == now.second && v[e].deadline.nanosecond <= now.nanosecond))
              else v[e].status.suspend || !v[e].status.alive
  {
    StopsIff(v, now, d);
    forall e | 1 <= e < d
      ensures if v[e].status.sleep
              then !(v[e].deadline.second < now.second
                     || (v[e].deadline.second == now.second && v[e].deadline.nanosecond <= now.nanosecond))
              else v[e].status.suspend || !v[e].status.alive
    {
      assert !EligibleAt(v, now, e);
      StopsIff(v, now, e);
    }
  }

  /** The search ends exactly when some thread, the current one included, is alive and neither asleep nor
      suspended, or is asleep and its time has come. */
  lemma SearchStopsIff(v: seq<Tcb>, now: Time)
    ensures SomeEligible(v, now) <==>
              exists p :: 0 <= p < |v| &&
                          (|| (v[p].status.sleep
                               && (v[p].deadline.second < now.second
                                   || (v[p].deadline.second == now.second
                                       && v[p].deadline.nanosecond <= now.nanosecond)))
                           || (!v[p].status.sleep && !v[p].status.suspend && v[p].status.alive))
  {
    if SomeEligible(v, now) {
      var d :| EligibleAt(v, now, d);
      StopsIff(v, now, d);
    }
    forall p | 0 <= p < |v|
      ensures Eligible(v[p], now) ==> SomeEligible(v, now)
    {
      assert Eligible(v[p], now) ==> EligibleAt(v, now, Distance(p, |v|));
    }
  }

  /** Saving a stack pointer makes no difference to it. */
  lemma SavedStops(a: seq<Tcb>, esp: nat, now: Time)
    requires 1 <= |a|
    ensures SomeEligible(Saved(a, esp), now) <==> SomeEligible(a, now)
  {
    if d :| EligibleAt(a, now, d) {
      assert EligibleAt(Saved(a, esp), now, d);
    }
    if d :| EligibleAt(Saved(a, esp), now, d) {
      assert EligibleAt(a, now, d);
    }
  }

  /** The thread that a switch picks: it is the first behind the current one that is alive and neither asleep nor
      suspended, or asleep with a deadline that has come. It is awake then, without a deadline if it was asleep,
      and otherwise as before; the threads behind it follow in their order, and the others behind those. */
  lemma PickedIs(a: seq<Tcb>, esp: nat, now: Time, b: seq<Tcb>) returns (d: nat)
    requires Step(a, Switch(esp, now), b)
    ensures 1 <= d <= |a| == |b|
    ensures var t := a[if d == |a| then 0 else d];
            || (t.status.sleep && (t.deadline.second < now.second
                                   || (t.deadline.second == now.second && t.deadline.nanosecond <= now.nanosecond)))
            || (!t.status.sleep && !t.status.suspend && t.status.alive)
    ensures forall e :: 1 <= e < d ==>
              if a[e].status.sleep
              then !(a[e].deadline.second < now.second
                     || (a[e].deadline.second == now.second && a[e].deadline.nanosecond <= now.nanosecond))
              else a[e].status.suspend || !a[e].status.alive
    ensures var t := a[if d == |a| then 0 else d];
            b[0] == Tcb(t.tid, Status(t.status.alive, false, t.status.suspend),
                        if t.status.sleep then Time(0, 0) else t.deadline, if d == |a| then esp else t.esp)
    ensures forall q :: 1 <= q < |b| ==>
              b[q] == if q + d < |a| then a[q + d]
                      else if q + d == |a| then Tcb(a[0].tid, a[0].status, a[0].deadline, esp)
                      else a[q + d - |a|]
  {
    var v := Saved(a, esp);
    d := Choice(v, now);
    ChoiceIs(v, now, d);
    assert forall e :: 1 <= e < d ==> v[e] == a[e];
  }

  /** A live thread right behind the current one, not asleep and not suspended, is the next to run. */
  lemma NextRuns(a: seq<Tcb>, esp: nat, now: Time)
    requires 2 <= |a| && a[1].status.alive && !a[1].status.sleep && !a[1].status.suspend
    ensures SomeEligible(Saved(a, esp), now) && Switched(a, esp, now)[0] == a[1]
  {
    StopsIff(Saved(a, esp), now, 1);
    ChoiceUnique(Saved(a, esp), now, 1, Choice(Saved(a, esp), now));
  }

  /** A lone live thread goes on running, and only its stack pointer is saved. */
  lemma LoneThreadRuns(t: Tcb, esp: nat, now: Time)
    requires t.status.alive && !t.status.sleep && !t.status.suspend
    ensures SomeEligible(Saved([t], esp), now)
    ensures Switched([t], esp, now) == [Tcb(t.tid, Status(true, false, false), t.deadline, esp)]
  {
    StopsIff(Saved([t], esp), now, 1);
    ChoiceUnique(Saved([t], esp), now, 1, Choice(Saved([t], esp), now));
  }

  /** Event i is a change by which the current thread dies or is suspended, and a switch follows at once, as the
      code of both calls has it. */
  ghost predicate Stops(states: seq<seq<Tcb>>, events: seq<Event>, i: nat)
    requires Run(states, events)
  {
    && i + 1 < |events| && events[i].Change? && events[i + 1].Switch?
    && states[i] != [] && !states[i][0].status.sleep && !events[i].t.status.sleep
    && (!events[i].t.status.alive || events[i].t.status.suspend)
  }

  /** A thread that dies or is suspended at event i is not picked from then on, whatever happens. */
  lemma StoppedNeverRuns(states: seq<seq<Tcb>>, events: seq<Event>, i: nat, p: nat)
    requires Run(states, events) && Stops(states, events, i) && p < |states[0]|
    requires Position(states, events, p, i) == 0
    ensures forall j :: i < j < |events| ==> !Picked(states, events, p, j)
  {
    var k := i + 2;
    assert StepAt(states, events, i) && StepAt(states, events, i + 1);
    PositionTracks(states, events, p, k);
    var q := Position(states, events, p, k);
    StoppedPassed(states[i + 1], events[i + 1], states[k]);
    var later, rest := states[k..], events[k..];
    assert Run(later, rest) by {
      forall j | 0 <= j < |rest|
        ensures StepAt(later, rest, j)
      {
        assert StepAt(states, events, k + j);
      }
    }
    DeadOrSuspendedForever(later, rest, q);
    forall j | i < j < |events|
      ensures !Picked(states, events, p, j)
    {
      if j >= k {
        PositionShift(states, events, p, k, j + 1 - k);
        assert !Picked(later, rest, q, j - k);
      }
    }
  }

  /** The switch behind it passes over the current thread. */
  lemma StoppedPassed(a: seq<Tcb>, e: Event, b: seq<Tcb>)
    requires Step(a, e, b) && e.Switch? && !a[0].status.sleep && (!a[0].status.alive || a[0].status.suspend)
    ensures var q := Moved(a, e, 0);
            1 <= q < |b| && b[q].status == a[0].status
  {
    StopsIff(Saved(a, e.esp), e.now, |a|);
  }

  lemma {:induction false} PositionShift(states: seq<seq<Tcb>>, events: seq<Event>, p: nat, k: nat, n: nat)
    requires |states| == |events| + 1 && k + n <= |events|
    ensures Position(states, events, p, k + n) == Position(states[k..], events[k..], Position(states, events, p, k), n)
  {
    if n > 0 {
      PositionShift(states, events, p, k, n - 1);
      assert states[k..][n - 1] == states[k + n - 1] && events[k..][n - 1] == events[k + n - 1];
    }
  }

  /** Death does not end sleep: the next thread is picked once its time has come, dead or not. It is awake then
      and without a deadline. */
  lemma DueSleeperPicked(a: seq<Tcb>, esp: nat, now: Time)
    requires 2 <= |a| && a[1].status.sleep && NotAfter(a[1].deadline, now)
    ensures SomeEligible(Saved(a, esp), now)
    ensures Switched(a, esp, now)[0] == Tcb(a[1].tid, Status(a[1].status.alive, false, a[1].status.suspend),
                                            Time(0, 0), a[1].esp)
  {
    assert EligibleAt(Saved(a, esp), now, 1);
    ChoiceUnique(Saved(a, esp), now, 1, Choice(Saved(a, esp), now));
  }

  /** The search of schedule_thread ends exactly when some thread is eligible: otherwise no thread
      it visits, however often it goes round, stops it. */
  lemma SearchEndsIff(ring: seq<Tcb>, now: Time)
    requires 1 <= |ring|
    ensures SomeEligible(ring, now) <==> exists k: nat :: k >= 1 && Eligible(Visited(ring, k), now)
  {
    if k: nat :| k >= 1 && Eligible(Visited(ring, k), now) {
      assert EligibleAt(ring, now, Distance(k % |ring|, |ring|));
    }
    if d :| EligibleAt(ring, now, d) {
      VisitedAhead(ring, d);
    }
  }

  /** The thread that k steps along the next pointers lead to. */
  function Visited(ring: seq<Tcb>, k: nat): Tcb
    requires 1 <= |ring|
  {
    ring[k % |ring|]
  }

  lemma VisitedAhead(ring: seq<Tcb>, d: nat)
    requires 1 <= d <= |ring|
    ensures Visited(ring, d) == ring[Ahead(d, |ring|)]
  {
    if d < |ring| {
      assert d % |ring| == d;
    }
  }
}
