/** The memory a client of the virtual heap sees: pages that are isolated from each other. */
module FlatMemory {
  import opened Machine

  /** A page that has been allocated: not touched yet, or holding 1024 words. */
  datatype PageState =
    | Fresh(zero: bool)
    | Held(words: seq<Word>)

  /** The live pages, and the allocations (first page and number of pages) they belong to. */
  datatype Flat = Flat(pages: map<PageNo, PageState>, blocks: set<(nat, nat)>)

  datatype Event =
    | Allocated(page: nat, count: nat, zero: bool)
    | Freed(page: nat, count: nat)
    | Loaded(at: PageNo, index: Slot, word: Word)
    | Stored(at: PageNo, index: Slot, word: Word)
    | Other   // anything else the kernel does, including accesses that kill the thread

  predicate Within(v: nat, page: nat, count: nat) {
    page <= v < page + count
  }

  /** A page that has been touched: its words, zeros if it was to be zeroed, else anything. */
  ghost predicate Touched(s: PageState, words: seq<Word>) {
    && |words| == 1024
    && match s
       case Fresh(zero) => zero ==> forall i: Slot :: words[i] == 0
       case Held(ws) => words == ws
  }

  ghost predicate Step(s: Flat, e: Event, t: Flat) {
    match e
    case Allocated(page, count, zero) =>
      && 1 <= count && page + count <= 0x100000
      && (forall v: PageNo :: Within(v, page, count) ==> v !in s.pages)
      && (forall v: PageNo :: v in t.pages <==> v in s.pages || Within(v, page, count))
      && (forall v: PageNo :: v in s.pages ==> t.pages[v] == s.pages[v])
      && (forall v: PageNo :: Within(v, page, count) ==> t.pages[v] == Fresh(zero))
      && t.blocks == s.blocks + {(page, count)} && (page, count) !in s.blocks
    case Freed(page, count) =>
      && (page, count) in s.blocks && t.blocks == s.blocks - {(page, count)}
      && (forall v: PageNo :: Within(v, page, count) ==> v in s.pages)
      && (forall v: PageNo :: v in t.pages <==> v in s.pages && !Within(v, page, count))
      && (forall v: PageNo :: v in t.pages ==> t.pages[v] == s.pages[v])
    case Loaded(v, i, w) =>
      && v in s.pages
      && exists words :: Touched(s.pages[v], words) && w == words[i]
                         && t == s.(pages := s.pages[v := Held(words)])
    case Stored(v, i, w) =>
      && v in s.pages
      && exists words :: Touched(s.pages[v], words)
                         && t == s.(pages := s.pages[v := Held(words[i := w])])
    case Other => t == s
  }

  // ------------------------------------------------------------------- runs

  ghost predicate Run(states: seq<Flat>, events: seq<Event>) {
    && |states| == |events| + 1
    && forall n :: 0 <= n < |events| ==> Step(states[n], events[n], states[n + 1])
  }

  /** Word i of page v can only be read as w. */
  ghost predicate Knows(s: Flat, v: PageNo, i: Slot, w: Word) {
    && v in s.pages
    && match s.pages[v]
       case Fresh(zero) => zero && w == 0
       case Held(words) => |words| == 1024 && words[i] == w
  }

  /** An event that may change word i of page v. */
  predicate Affects(e: Event, v: PageNo, i: Slot) {
    || (e.Stored? && e.at == v && e.index == i)
    || (e.Freed? && Within(v, e.page, e.count))
  }

  lemma StepKeepsWord(s: Flat, e: Event, t: Flat, v: PageNo, i: Slot, w: Word)
    requires Step(s, e, t) && Knows(s, v, i, w) && !Affects(e, v, i)
    ensures Knows(t, v, i, w)
    ensures e.Loaded? && e.at == v && e.index == i ==> e.word == w
  {
  }

  lemma {:induction false} RunKeepsWord(states: seq<Flat>, events: seq<Event>, a: nat, b: nat, v: PageNo, i: Slot,
                                        w: Word)
    requires Run(states, events) && a <= b <= |events| && Knows(states[a], v, i, w)
    requires forall n :: a <= n < b ==> !Affects(events[n], v, i)
    ensures Knows(states[b], v, i, w)
    decreases b - a
  {
    if a < b {
      StepKeepsWord(states[a], events[a], states[a + 1], v, i, w);
      RunKeepsWord(states, events, a + 1, b, v, i, w);
    }
  }

  /** In every run a load returns the word of the last store to the same place. */
  lemma LoadReturnsLastStore(states: seq<Flat>, events: seq<Event>, a: nat, b: nat, v: PageNo, i: Slot, w: Word,
                             r: Word)
    requires Run(states, events) && a < b < |events|
    requires events[a] == Stored(v, i, w) && events[b] == Loaded(v, i, r)
    requires forall n :: a < n < b ==> !Affects(events[n], v, i)
    ensures r == w
  {
    assert Step(states[a], events[a], states[a + 1]);
    assert Knows(states[a + 1], v, i, w);
    RunKeepsWord(states, events, a + 1, b, v, i, w);
    StepKeepsWord(states[b], events[b], states[b + 1], v, i, w);
  }

  /** In every run a page allocated with the zero flag reads as zeros until it is stored to. */
  lemma ZeroPageReadsZero(states: seq<Flat>, events: seq<Event>, a: nat, b: nat, page: nat, count: nat,
                          v: PageNo, i: Slot, r: Word)
    requires Run(states, events) && a < b < |events|
    requires events[a] == Allocated(page, count, true) && Within(v, page, count) && events[b] == Loaded(v, i, r)
    requires forall n :: a < n < b ==> !Affects(events[n], v, i)
    ensures r == 0
  {
    assert Step(states[a], events[a], states[a + 1]);
    assert Knows(states[a + 1], v, i, 0);
    RunKeepsWord(states, events, a + 1, b, v, i, 0);
    StepKeepsWord(states[b], events[b], states[b + 1], v, i, 0);
  }

  /** In every run two loads of a word that nothing has changed in between agree. */
  lemma LoadsAgree(states: seq<Flat>, events: seq<Event>, a: nat, b: nat, v: PageNo, i: Slot, r: Word, r': Word)
    requires Run(states, events) && a < b < |events|
    requires events[a] == Loaded(v, i, r) && events[b] == Loaded(v, i, r')
    requires forall n :: a < n < b ==> !Affects(events[n], v, i)
    ensures r' == r
  {
    assert Step(states[a], events[a], states[a + 1]);
    assert Knows(states[a + 1], v, i, r);
    RunKeepsWord(states, events, a + 1, b, v, i, r);
    StepKeepsWord(states[b], events[b], states[b + 1], v, i, r);
  }

  /** The page an event works on; every other page is left exactly as it was. */
  lemma OtherPagesKept(s: Flat, e: Event, t: Flat, v: PageNo)
    requires Step(s, e, t)
    requires match e
             case Allocated(page, count, _) => !Within(v, page, count)
             case Freed(page, count) => !Within(v, page, count)
             case Loaded(u, _, _) => u != v
             case Stored(u, _, _) => u != v
             case Other => true
    ensures v in t.pages <==> v in s.pages
    ensures v in s.pages ==> t.pages[v] == s.pages[v]
  {
  }

  ghost predicate Covered(blocks: set<(nat, nat)>, v: nat) {
    exists b :: b in blocks && Within(v, b.0, b.1)
  }

  ghost predicate BlocksApart(blocks: set<(nat, nat)>) {
    && (forall b, c :: b in blocks && c in blocks && b != c ==> b.0 + b.1 <= c.0 || c.0 + c.1 <= b.0)
    && (forall b :: b in blocks ==> b.1 >= 1 && b.0 + b.1 <= 0x100000)
  }

  /** Live pages are exactly the pages of the allocations, and allocations do not overlap. */
  ghost predicate Blocked(s: Flat) {
    BlocksApart(s.blocks) && forall v: PageNo :: v in s.pages <==> Covered(s.blocks, v)
  }

  lemma CoveredAdd(blocks: set<(nat, nat)>, x: (nat, nat), v: nat)
    ensures Covered(blocks + {x}, v) <==> Covered(blocks, v) || Within(v, x.0, x.1)
  {
    if Covered(blocks, v) {
      var b :| b in blocks && Within(v, b.0, b.1);
      assert b in blocks + {x};
    }
    assert x in blocks + {x};
  }

  lemma CoveredRemove(blocks: set<(nat, nat)>, x: (nat, nat), v: nat)
    requires BlocksApart(blocks) && x in blocks
    ensures Covered(blocks - {x}, v) <==> Covered(blocks, v) && !Within(v, x.0, x.1)
  {
    if Covered(blocks - {x}, v) {
      var b :| b in blocks - {x} && Within(v, b.0, b.1);
      assert b in blocks;
    }
    if Covered(blocks, v) && !Within(v, x.0, x.1) {
      var b :| b in blocks && Within(v, b.0, b.1);
      assert b in blocks - {x};
    }
  }

  /** A new block that covers no live page overlaps no block. */
  lemma NewBlockApart(blocks: set<(nat, nat)>, x: (nat, nat))
    requires BlocksApart(blocks) && x.1 >= 1 && x.0 + x.1 <= 0x100000
    requires forall v: PageNo :: Within(v, x.0, x.1) ==> !Covered(blocks, v)
    ensures BlocksApart(blocks + {x})
  {
    forall b | b in blocks
      ensures b.0 + b.1 <= x.0 || x.0 + x.1 <= b.0
    {
      var v: PageNo := if x.0 < b.0 then b.0 else x.0;
      assert Within(v, x.0, x.1) ==> !Covered(blocks, v);
      assert Within(v, b.0, b.1) ==> Covered(blocks, v);
    }
  }

  lemma StepKeepsBlocked(s: Flat, e: Event, t: Flat)
    requires Blocked(s) && Step(s, e, t)
    ensures Blocked(t)
  {
    hide Covered, BlocksApart;
    match e
    case Allocated(page, count, zero) =>
      NewBlockApart(s.blocks, (page, count));
      forall v: PageNo
        ensures v in t.pages <==> Covered(t.blocks, v)
      {
        CoveredAdd(s.blocks, (page, count), v);
      }
    case Freed(page, count) =>
      FewerBlocksApart(s.blocks, (page, count));
      forall v: PageNo
        ensures v in t.pages <==> Covered(t.blocks, v)
      {
        CoveredRemove(s.blocks, (page, count), v);
      }
    case Loaded(_, _, _) =>
    case Stored(_, _, _) =>
    case Other =>
  }

  lemma FewerBlocksApart(blocks: set<(nat, nat)>, x: (nat, nat))
    requires BlocksApart(blocks)
    ensures BlocksApart(blocks - {x})
  {
  }

  /** In every run from a state in which they do so, the live pages stay the pages of the
      allocations, and allocations stay disjoint. */
  lemma {:induction false} RunKeepsBlocked(states: seq<Flat>, events: seq<Event>, n: nat)
    requires Run(states, events) && n <= |events| && Blocked(states[0])
    ensures Blocked(states[n])
  {
    if n > 0 {
      RunKeepsBlocked(states, events, n - 1);
      StepKeepsBlocked(states[n - 1], events[n - 1], states[n]);
    }
  }
}
