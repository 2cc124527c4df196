/** The pending timers as a value, and runs of additions and firings. */
module TimerQueue {
  import opened Clock

  datatype Entry = Entry(id: nat, code: nat, data: nat, deadline: Time)

  predicate Sorted(s: seq<Entry>) {
    forall i, j :: 0 <= i < j < |s| ==> NotAfter(s[i].deadline, s[j].deadline)
  }

  /** Where ktimer_add puts a deadline: before the first pending one that is not earlier. */
  predicate IsPlace(s: seq<Entry>, deadline: Time, k: nat) {
    && k <= |s|
    && (forall i :: 0 <= i < k ==> !NotAfter(deadline, s[i].deadline))
    && (k < |s| ==> NotAfter(deadline, s[k].deadline))
  }

  function Place(s: seq<Entry>, deadline: Time): (k: nat)
    ensures IsPlace(s, deadline, k)
  {
    if s == [] || NotAfter(deadline, s[0].deadline) then 0 else 1 + Place(s[1..], deadline)
  }

  lemma PlaceUnique(s: seq<Entry>, deadline: Time, k: nat)
    requires IsPlace(s, deadline, k)
    ensures k == Place(s, deadline)
  {
  }

  function Inserted<T>(s: seq<T>, k: nat, e: T): (r: seq<T>)
    requires k <= |s|
    ensures |r| == |s| + 1
    ensures forall i :: 0 <= i < |r| ==> r[i] == if i < k then s[i] else if i == k then e else s[i - 1]
  {
    s[..k] + [e] + s[k..]
  }

  function Added(s: seq<Entry>, e: Entry): seq<Entry> {
    Inserted(s, Place(s, e.deadline), e)
  }

  lemma NotAfterTransitive(a: Time, b: Time, c: Time)
    requires NotAfter(a, b) && NotAfter(b, c)
    ensures NotAfter(a, c)
  {
  }

  lemma NotAfterTotal(a: Time, b: Time)
    ensures NotAfter(a, b) || NotAfter(b, a)
    ensures NotAfter(a, a)
  {
  }

  /** The list stays sorted. */
  lemma AddedSorted(s: seq<Entry>, e: Entry)
    requires Sorted(s)
    ensures Sorted(Added(s, e))
  {
    var k := Place(s, e.deadline);
    var r := Added(s, e);
    hide NotAfter, Place;
    forall i, j | 0 <= i < j < |r|
      ensures NotAfter(r[i].deadline, r[j].deadline)
    {
      if i == k {
        if j - 1 > k {
          NotAfterTransitive(e.deadline, s[k].deadline, s[j - 1].deadline);
        }
      } else if j == k {
        NotAfterTotal(s[i].deadline, e.deadline);
      }
    }
  }

  /** Among equal deadlines the newest comes first. */
  lemma NewestFirst(s: seq<Entry>, e: Entry, i: nat)
    requires Sorted(s) && i < |s| && s[i].deadline == e.deadline
    ensures var k := Place(s, e.deadline); k <= i && Added(s, e)[k] == e && Added(s, e)[i + 1] == s[i]
  {
    NotAfterTotal(e.deadline, e.deadline);
    hide NotAfter, Place;
  }

  /** One iteration of timer_thread takes the head of the list. */
  predicate Due(s: seq<Entry>, now: Time) {
    s != [] && NotAfter(s[0].deadline, now)
  }

  // ---------------------------------------------------------------- runs

  /** A timer is added, is refused for want of a page, or the timer thread looks at the list. */
  datatype Event = Add(e: Entry) | Refuse | Look(now: Time)

  /** The pending timers, and those taken for firing, oldest first. */
  datatype State = State(pending: seq<Entry>, taken: seq<Entry>)

  function Next(s: State, e: Event): State {
    match e
    case Add(t) => State(Added(s.pending, t), s.taken)
    case Refuse => s
    case Look(now) =>
      if Due(s.pending, now) then State(s.pending[1..], s.taken + [s.pending[0]]) else s
  }

  function After(events: seq<Event>): State {
    if events == [] then State([], []) else Next(After(events[..|events| - 1]), events[|events| - 1])
  }

  function AllAdded(events: seq<Event>): multiset<Entry> {
    if events == [] then multiset{}
    else AllAdded(events[..|events| - 1])
         + (if events[|events| - 1].Add? then multiset{events[|events| - 1].e} else multiset{})
  }

  lemma InsertedMultiset<T>(s: seq<T>, k: nat, e: T)
    requires k <= |s|
    ensures multiset(Inserted(s, k, e)) == multiset(s) + multiset{e}
  {
    assert s == s[..k] + s[k..];
  }

  /** In every run the list is sorted, and every timer added is pending or has been taken, once. */
  lemma {:induction false} RunConserves(events: seq<Event>)
    ensures Sorted(After(events).pending)
    ensures multiset(After(events).pending) + multiset(After(events).taken) == AllAdded(events)
  {
    if events != [] {
      var before := events[..|events| - 1];
      RunConserves(before);
      StepConserves(After(before), events[|events| - 1]);
    }
  }

  lemma StepConserves(s: State, e: Event)
    requires Sorted(s.pending)
    ensures Sorted(Next(s, e).pending)
    ensures multiset(Next(s, e).pending) + multiset(Next(s, e).taken)
            == multiset(s.pending) + multiset(s.taken) + if e.Add? then multiset{e.e} else multiset{}
  {
    if e.Add? {
      AddedSorted(s.pending, e.e);
      InsertedMultiset(s.pending, Place(s.pending, e.e.deadline), e.e);
    } else if e.Look? && Due(s.pending, e.now) {
      assert s.pending == [s.pending[0]] + s.pending[1..];
    }
  }

  /** A look takes a least pending deadline, and only once it has come. */
  lemma TakesLeast(events: seq<Event>, now: Time)
    ensures var s := After(events);
            var t := After(events + [Look(now)]);
            if t.taken == s.taken
            then t == s && forall i :: 0 <= i < |s.pending| ==> !NotAfter(s.pending[i].deadline, now)
            else && s.pending != [] && t == State(s.pending[1..], s.taken + [s.pending[0]])
                 && NotAfter(s.pending[0].deadline, now)
                 && forall i :: 0 <= i < |s.pending| ==> NotAfter(s.pending[0].deadline, s.pending[i].deadline)
  {
    RunConserves(events);
    assert (events + [Look(now)])[..|events|] == events;
    var s := After(events);
    if s.pending != [] {
      forall i | 0 <= i < |s.pending|
        ensures NotAfter(s.pending[0].deadline, s.pending[i].deadline)
      {
      }
    }
  }

  // -------------------------------------------------------- bounded waiting

  /** The state after the first n of the events that follow state s. */
  function Later(s: State, events: seq<Event>, n: nat): State
    requires n <= |events|
  {
    if n == 0 then s else Next(Later(s, events, n - 1), events[n - 1])
  }

  /** How many of the first n events are looks. */
  function Looks(events: seq<Event>, n: nat): nat
    requires n <= |events|
  {
    if n == 0 then 0 else Looks(events, n - 1) + if events[n - 1].Look? then 1 else 0
  }

  function Adds(events: seq<Event>, n: nat): nat
    requires n <= |events|
  {
    if n == 0 then 0 else Adds(events, n - 1) + if events[n - 1].Add? then 1 else 0
  }

  /** A timer whose deadline has come by the first look is taken within as many looks as there are
      timers before it and timers added meanwhile, plus one. */
  lemma {:induction false} FiresInTime(s: State, events: seq<Event>, p: nat, n: nat)
    requires Sorted(s.pending) && p < |s.pending| && n <= |events|
    requires forall i :: 0 <= i < |events| && events[i].Look? ==> NotAfter(s.pending[p].deadline, events[i].now)
    ensures var t := Later(s, events, n);
            && Sorted(t.pending) && |t.taken| >= |s.taken|
            && (s.pending[p] in t.taken[|s.taken|..] ||
                exists q: nat :: Waits(t, s.pending[p], q) && q + Looks(events, n) <= p + Adds(events, n))
  {
    if n == 0 {
      assert Waits(s, s.pending[p], p);
    } else {
      FiresInTime(s, events, p, n - 1);
      var t := Later(s, events, n - 1);
      StepConserves(t, events[n - 1]);
      if s.pending[p] in t.taken[|s.taken|..] {
        StaysTaken(t, events[n - 1], |s.taken|, s.pending[p]);
      } else {
        var q: nat :| Waits(t, s.pending[p], q) && q + Looks(events, n - 1) <= p + Adds(events, n - 1);
        OneStep(t, events[n - 1], s.pending[p], q, |s.taken|);
      }
    }
  }

  predicate Waits(s: State, e: Entry, q: nat) {
    q < |s.pending| && s.pending[q] == e
  }

  lemma StaysTaken(t: State, e: Event, from: nat, x: Entry)
    requires from <= |t.taken| && x in t.taken[from..]
    ensures |Next(t, e).taken| >= |t.taken| && x in Next(t, e).taken[from..]
  {
    if e.Look? && Due(t.pending, e.now) {
      assert Next(t, e).taken[from..] == t.taken[from..] + [t.pending[0]];
    }
  }

  lemma OneStep(t: State, e: Event, x: Entry, q: nat, from: nat)
    requires Sorted(t.pending) && Waits(t, x, q) && from <= |t.taken|
    requires e.Look? ==> NotAfter(x.deadline, e.now)
    ensures |Next(t, e).taken| >= |t.taken|
    ensures x in Next(t, e).taken[from..] ||
            exists r: nat :: Waits(Next(t, e), x, r) && r <= q + (if e.Add? then 1 else 0) - (if e.Look? then 1 else 0)
  {
    match e
    case Add(a) =>
      var r := if q < Place(t.pending, a.deadline) then q else q + 1;
      assert Waits(Next(t, e), x, r);
    case Refuse =>
      assert Waits(Next(t, e), x, q);
    case Look(now) =>
      assert Due(t.pending, now) by {
        assert q > 0 ==> NotAfter(t.pending[0].deadline, t.pending[q].deadline);
      }
      if q == 0 {
        assert Next(t, e).taken[|t.taken|] == x;
      } else {
        assert Waits(Next(t, e), x, q - 1);
      }
  }

  /** ... so that many looks are enough. */
  lemma FiredAfter(s: State, events: seq<Event>, p: nat)
    requires Sorted(s.pending) && p < |s.pending|
    requires forall i :: 0 <= i < |events| && events[i].Look? ==> NotAfter(s.pending[p].deadline, events[i].now)
    requires Looks(events, |events|) > p + Adds(events, |events|)
    ensures var t := Later(s, events, |events|);
            |t.taken| >= |s.taken| && s.pending[p] in t.taken[|s.taken|..]
  {
    FiresInTime(s, events, p, |events|);
  }
}
