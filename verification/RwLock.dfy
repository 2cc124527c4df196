/** The reader/writer lock, arch/ia32/rwlock.c: one word under a spinlock. */
module RwLock {
  import opened Machine

  // The fields of the word: bits 0-14, bit 15, bits 16-30 and bit 31, which is its spinlock.

  function Readers(w: Word): nat {
    w % 0x8000
  }

  predicate Wanted(w: Word) {
    w / 0x8000 % 2 == 1
  }

  function Writers(w: Word): nat {
    w / 0x1_0000 % 0x8000
  }

  predicate Spinning(w: Word) {
    w >= 0x8000_0000
  }

  /** kspinlock_lock on a free lock. */
  function Spin(w: Word): Word {
    if Spinning(w) then w else w + 0x8000_0000
  }

  /** kspinlock_unlock. */
  function Unspin(w: Word): Word {
    if Spinning(w) then w - 0x8000_0000 else w
  }

  function Low(w: Word): (n: nat)
    ensures n < 0x1_0000
  {
    w % 0x1_0000
  }

  /** A 16-bit pattern read as a kint16. */
  function Signed16(n: nat): int
    requires n < 0x1_0000
  {
    if n < 0x8000 then n else n - 0x1_0000
  }

  /** The word after its low half has been incremented as a kint16. */
  function Incremented(w: Word): Word {
    w - Low(w) + (Low(w) + 1) % 0x1_0000
  }

  function Decremented(w: Word): Word {
    w - Low(w) + (Low(w) + 0xFFFF) % 0x1_0000
  }

  /** Bit 15 set. */
  function WithWanted(w: Word): Word {
    if Wanted(w) then w else w + 0x8000
  }

  function WithoutWanted(w: Word): Word {
    if Wanted(w) then w - 0x8000 else w
  }

  /** The condition under which a writer stays outside: behind one that came first, any reader or
      writer; otherwise only readers. */
  predicate Blocked(w: Word, behind: bool) {
    Readers(w) != 0 || (behind && Writers(w) != 0)
  }

  /** A sum in 32 bits. */
  function Sum32(a: Word, b: Word): Word {
    if a + b < 0x1_0000_0000 then a + b else a + b - 0x1_0000_0000
  }

  /** One writer more, and one fewer, inside a section. */
  function WriterIn(w: Word): Word {
    Sum32(w, 0x1_0000)
  }

  function WriterOut(w: Word): Word {
    var v := Sum32(w, 0xFFFF_0000);  // minus 0x1_0000
    if Writers(v) == 0 then WithoutWanted(v) else v
  }

  /** The lock word, and the sections of the four operations that run under its spinlock. Each takes
      the spinlock when it is free. */
  class Lock {
    var word: Word

    constructor ()
      ensures word == 0
    {
      word := 0;
    }

    /** One round of krwlock_read_lock. A reader enters exactly when no writer has asked and the
        count has room. */
    method ReadTry() returns (entered: bool)
      requires !Spinning(word)
      modifies this
      ensures !Spinning(word)
      ensures entered <==> !Wanted(old(word)) && Readers(old(word)) < 0x7FFF
      ensures word == if entered then old(word) + 1 else old(word)
    {
      SpinFields(word);
      TriedWord(Spin(word));
      SpunUp(word);
      hide Incremented, Decremented, Low, Signed16, Wanted, Readers, Writers;
      word := Spin(word);
      word := Incremented(word);
      if Signed16(Low(word)) > 0 {
        word := Unspin(word);
        return true;
      }
      word := Decremented(word);
      word := Unspin(word);
      entered := false;
    }

    /** krwlock_read_unlock: one reader fewer, where there was one. */
    method ReadUnlock()
      requires !Spinning(word)
      modifies this
      ensures !Spinning(word) && word == Decremented(old(word))
      ensures Readers(old(word)) >= 1 ==>
                && Readers(word) == Readers(old(word)) - 1
                && Wanted(word) == Wanted(old(word)) && Writers(word) == Writers(old(word))
    {
      SpinFields(word);
      DecrementedSpin(word);
      if Readers(word) >= 1 {
        ReaderOutWord(word);
      }
      hide Decremented, Readers, Wanted, Writers, Spinning, Spin, Unspin;
      word := Spin(word);
      word := Decremented(word);
      word := Unspin(word);
    }

    /** krwlock_write_lock up to its first check. */
    method WriteRequest() returns (behind: bool, entered: bool)
      requires !Spinning(word)
      modifies this
      ensures !Spinning(word)
      ensures behind == Wanted(old(word)) && entered == !Blocked(old(word), behind)
      ensures entered <==> Readers(old(word)) == 0 && (behind ==> Writers(old(word)) == 0)
      ensures word == if entered then Enter(WithWanted(old(word))) else WithWanted(old(word))
    {
      SpinFields(word);
      WantedWord(word);
      WantedWord(Spin(word));
      WantedSpin(word);
      hide Readers, Wanted, Writers, WithWanted, Spinning, Spin, Unspin, WriterIn;
      word := Spin(word);
      behind := Wanted(word);
      word := WithWanted(word);
      entered := Check(behind);
    }

    /** A later check of krwlock_write_lock, and the entry that follows when it succeeds. */
    method WriteTry(behind: bool) returns (entered: bool)
      requires !Spinning(word)
      modifies this
      ensures !Spinning(word)
      ensures entered == !Blocked(old(word), behind)
      ensures entered <==> Readers(old(word)) == 0 && (behind ==> Writers(old(word)) == 0)
      ensures word == if entered then Enter(old(word)) else old(word)
    {
      SpinFields(word);
      hide Readers, Wanted, Writers, WriterIn;
      word := Spin(word);
      entered := Check(behind);
    }

    /** The check under the mask of the branch, and the end of the section. */
    method Check(behind: bool) returns (entered: bool)
      modifies this
      ensures !Spinning(word)
      ensures entered == !Blocked(old(word), behind)
      ensures word == Unspin(if entered then WriterIn(old(word)) else old(word))
    {
      var temp := if behind then Readers(word) + 0x1_0000 * Writers(word) else Readers(word);
      entered := temp == 0;
      if entered {
        word := Sum32(word, 0x1_0000);
      }
      word := Unspin(word);
    }

    /** krwlock_write_unlock: one writer fewer, where there was one, and bit 15 goes with the last. */
    method WriteUnlock()
      requires !Spinning(word)
      modifies this
      ensures !Spinning(word) && word == Leave(old(word))
      ensures Writers(old(word)) >= 1 ==>
                && Writers(word) == Writers(old(word)) - 1 && Readers(word) == Readers(old(word))
                && (Wanted(word) <==> Wanted(old(word)) && Writers(word) != 0)
    {
      UnspinFields(WriterOut(Spin(word)));
      if Writers(word) >= 1 {
        LeaveFields(word);
      }
      hide Readers, Wanted, WithoutWanted, Spinning, Spin, Unspin, Sum32;
      word := Spin(word);
      word := Sum32(word, 0xFFFF_0000);
      if Writers(word) == 0 {
        word := WithoutWanted(word);
      }
      word := Unspin(word);
    }
  }

  /** The sections in which a writer enters and leaves, from the spinlock being taken to its release. */
  function Enter(w: Word): Word {
    Unspin(WriterIn(Spin(w)))
  }

  function Leave(w: Word): Word {
    Unspin(WriterOut(Spin(w)))
  }

  /** The fields of a word made of two halves. */
  lemma FieldsOf(h: nat, l: nat)
    requires h < 0x1_0000 && l < 0x1_0000
    ensures var w: Word := h * 0x1_0000 + l;
            && w / 0x1_0000 == h && Low(w) == l && (Wanted(w) <==> l >= 0x8000)
            && Readers(w) == (if l >= 0x8000 then l - 0x8000 else l)
            && Writers(w) == (if h >= 0x8000 then h - 0x8000 else h) && (Spinning(w) <==> h >= 0x8000)
  {
    var w: Word := h * 0x1_0000 + l;
    assert w / 0x8000 == h * 2 + l / 0x8000;
  }

  /** Taking the spinlock touches no other field. */
  lemma SpinFields(w: Word)
    requires !Spinning(w)
    ensures var v := Spin(w);
            && Spinning(v) && Unspin(v) == w
            && Readers(v) == Readers(w) && Wanted(v) == Wanted(w) && Writers(v) == Writers(w)
  {
    FieldsOf(w / 0x1_0000, Low(w));
    FieldsOf(w / 0x1_0000 + 0x8000, Low(w));
    hide Readers, Wanted, Writers;
  }

  lemma UnspinFields(w: Word)
    ensures var v := Unspin(w);
            !Spinning(v) && Readers(v) == Readers(w) && Wanted(v) == Wanted(w) && Writers(v) == Writers(w)
  {
    var h := w / 0x1_0000;
    FieldsOf(h, Low(w));
    FieldsOf(if h >= 0x8000 then h - 0x8000 else h, Low(w));
    hide Readers, Wanted, Writers;
  }

  lemma SpunUp(w: Word)
    requires !Spinning(w)
    ensures Spin(w) + 1 < 0x1_0000_0000 ==> Unspin(Spin(w) + 1) == w + 1
    ensures !Wanted(w) ==> w + 1 < 0x8000_0000
  {
    FieldsOf(w / 0x1_0000, Low(w));
    hide Readers, Wanted, Writers;
  }

  lemma TriedWord(w: Word)
    ensures Signed16(Low(Incremented(w))) > 0 <==> !Wanted(w) && Readers(w) < 0x7FFF
    ensures Low(w) < 0xFFFF ==> Incremented(w) == w + 1
    ensures !Wanted(w) && Readers(w) < 0x7FFF ==> Low(w) < 0xFFFF
    ensures Decremented(Incremented(w)) == w
  {
    var h, l := w / 0x1_0000, Low(w);
    FieldsOf(h, l);
    FieldsOf(h, if l == 0xFFFF then 0 else l + 1);
    hide Low, Wanted, Readers, Writers;
  }

  // ------------------------------------------------------------ the protocol

  /** Where a thread stands: outside, inside as a reader, waiting as the first writer to ask or
      behind another, or inside as a writer. */
  datatype Phase = Outside | Reading | WaitingFirst | WaitingBehind | Writing

  datatype Action = ReadLock | ReadUnlock | WriteLock | WriteRetry | WriteUnlock

  datatype State = State(word: Word, threads: seq<Phase>)

  function Count(threads: seq<Phase>, p: Phase): nat {
    if threads == [] then 0 else (if threads[0] == p then 1 else 0) + Count(threads[1..], p)
  }

  /** Thread i runs one section. */
  ghost predicate Step(s: State, i: nat, action: Action, t: State) {
    && i < |s.threads|
    && match action
       case ReadLock =>
         && s.threads[i] == Outside
         && t == if !Wanted(s.word) && Readers(s.word) < 0x7FFF
                 then State(s.word + 1, s.threads[i := Reading])
                 else s
       case ReadUnlock =>
         s.threads[i] == Reading && t == State(Decremented(s.word), s.threads[i := Outside])
       case WriteLock =>
         && s.threads[i] == Outside
         && t == Checked(State(WithWanted(s.word),
                               s.threads[i := if Wanted(s.word) then WaitingBehind else WaitingFirst]), i)
       case WriteRetry =>
         s.threads[i] in {WaitingFirst, WaitingBehind} && t == Checked(s, i)
       case WriteUnlock =>
         s.threads[i] == Writing && t == State(Leave(s.word), s.threads[i := Outside])
  }

  /** Thread i, a waiting writer, enters unless it is blocked. */
  function Checked(s: State, i: nat): State
    requires i < |s.threads|
  {
    if Blocked(s.word, s.threads[i] == WaitingBehind) then s
    else State(Enter(s.word), s.threads[i := Writing])
  }

  ghost predicate Run(states: seq<State>, threads: seq<nat>, actions: seq<Action>) {
    && |states| == |actions| + 1 == |threads| + 1
    && states[0] == State(0, seq(|states[0].threads|, i => Outside))
    && forall k :: 0 <= k < |actions| ==> StepAt(states, threads, actions, k)
  }

  ghost predicate StepAt(states: seq<State>, threads: seq<nat>, actions: seq<Action>, k: nat)
    requires |states| == |actions| + 1 == |threads| + 1 && k < |actions|
  {
    Step(states[k], threads[k], actions[k], states[k + 1])
  }

  /** The spinlock is free, and the word counts: bits 0 to 14 the readers inside, bits 16 to 30 the
      writers inside. */
  ghost predicate Counts(s: State) {
    && !Spinning(s.word)
    && Readers(s.word) == Count(s.threads, Reading)
    && Writers(s.word) == Count(s.threads, Writing)
  }

  lemma {:induction false} CountUpdate(threads: seq<Phase>, i: nat, q: Phase, p: Phase)
    requires i < |threads|
    ensures Count(threads[i := q], p)
            == Count(threads, p) - (if threads[i] == p then 1 else 0) + (if q == p then 1 else 0)
    ensures threads[i] == p ==> Count(threads, p) >= 1
  {
    if i > 0 {
      assert threads[i := q][1..] == threads[1..][i - 1 := q];
      CountUpdate(threads[1..], i - 1, q, p);
    } else {
      assert threads[i := q][1..] == threads[1..];
    }
  }

  lemma {:induction false} NoneOutside(n: nat, p: Phase)
    requires p != Outside
    ensures Count(seq(n, i => Outside), p) == 0
  {
    if n > 0 {
      assert seq(n, i => Outside)[1..] == seq(n - 1, i => Outside);
      NoneOutside((n - 1) as nat, p);
    }
  }

  // Each section's arithmetic on the word.

  lemma ReaderInWord(w: Word)
    requires Readers(w) < 0x7FFF
    ensures w + 1 < 0x1_0000_0000
    ensures Readers(w + 1) == Readers(w) + 1 && Writers(w + 1) == Writers(w) && Wanted(w + 1) == Wanted(w)
    ensures Spinning(w + 1) == Spinning(w)
  {
    var h, l := w / 0x1_0000, Low(w);
    FieldsOf(h, l);
    FieldsOf(h, l + 1);
    hide Low, Wanted, Readers, Writers;
  }

  lemma ReaderOutWord(w: Word)
    requires Readers(w) >= 1
    ensures var v := Decremented(w);
            && Readers(v) == Readers(w) - 1 && Writers(v) == Writers(w) && Wanted(v) == Wanted(w)
            && Spinning(v) == Spinning(w)
  {
    var h, l := w / 0x1_0000, Low(w);
    FieldsOf(h, l);
    FieldsOf(h, l - 1);
    hide Low, Wanted, Readers, Writers;
  }

  lemma WantedWord(w: Word)
    ensures var v := WithWanted(w);
            Readers(v) == Readers(w) && Writers(v) == Writers(w) && Wanted(v) && Spinning(v) == Spinning(w)
  {
    var h, l := w / 0x1_0000, Low(w);
    FieldsOf(h, l);
    FieldsOf(h, if l >= 0x8000 then l else l + 0x8000);
    hide Low, Wanted, Readers, Writers;
  }

  lemma WantedSpin(w: Word)
    requires !Spinning(w)
    ensures WithWanted(Spin(w)) == Spin(WithWanted(w)) && Unspin(WithWanted(Spin(w))) == WithWanted(w)
  {
    SpinFields(w);
    WantedWord(w);
    hide Wanted, Readers, Writers;
  }

  lemma DecrementedSpin(w: Word)
    requires !Spinning(w)
    ensures Unspin(Decremented(Spin(w))) == Decremented(w) && !Spinning(Decremented(w))
  {
    var h, l := w / 0x1_0000, Low(w);
    FieldsOf(h, l);
    FieldsOf(h + 0x8000, l);
    FieldsOf(h, if l == 0 then 0xFFFF else l - 1);
    FieldsOf(h + 0x8000, if l == 0 then 0xFFFF else l - 1);
    hide Low, Wanted, Readers, Writers;
  }

  lemma UnwantedWord(w: Word)
    ensures var v := WithoutWanted(w);
            Readers(v) == Readers(w) && Writers(v) == Writers(w) && !Wanted(v) && Spinning(v) == Spinning(w)
  {
    var h, l := w / 0x1_0000, Low(w);
    FieldsOf(h, l);
    FieldsOf(h, if l >= 0x8000 then l - 0x8000 else l);
    hide Low, Wanted, Readers, Writers;
  }

  /** A writer that enters is counted, and the section keeps its spinlock, exactly when there have been
      fewer than 2^15 - 1 writers; the next one carries out of bit 31, which frees the spinlock inside
      the section and leaves a count of 0. */
  lemma EnterFields(w: Word)
    requires !Spinning(w)
    ensures Spinning(WriterIn(Spin(w))) <==> Writers(w) < 0x7FFF
    ensures var v := Enter(w);
            && !Spinning(v) && Readers(v) == Readers(w) && Wanted(v) == Wanted(w)
            && Writers(v) == if Writers(w) < 0x7FFF then Writers(w) + 1 else 0
  {
    var h, l := w / 0x1_0000, Low(w);
    FieldsOf(h, l);
    FieldsOf(if h == 0x7FFF then 0 else h + 1, l);
    assert h < 0x7FFF ==> WriterIn(Spin(w)) == w + 0x8001_0000;
    assert h == 0x7FFF ==> WriterIn(Spin(w)) == l;
    hide Low, Wanted, Readers, Writers;
  }

  /** A writer that leaves is no longer counted, and the section keeps its spinlock. */
  lemma LeaveFields(w: Word)
    requires !Spinning(w) && Writers(w) >= 1
    ensures Spinning(WriterOut(Spin(w)))
    ensures var v := Leave(w);
            && !Spinning(v) && Readers(v) == Readers(w) && Writers(v) == Writers(w) - 1
            && (Wanted(v) <==> Wanted(w) && Writers(v) != 0)
  {
    var h, l := w / 0x1_0000, Low(w);
    var u := Sum32(Spin(w), 0xFFFF_0000);
    FieldsOf(h, l);
    FieldsOf(h + 0x7FFF, l);
    assert u == w + 0x7FFF_0000;
    UnwantedWord(u);
    UnspinFields(WriterOut(Spin(w)));
    hide Low, Wanted, Readers, Writers, Spinning, WithoutWanted, Unspin;
  }

  /** Every section keeps the counts, whatever the other threads do, exactly as long as there are fewer
      than 2^15 writers inside. */
  lemma StepKeepsCountsIff(s: State, i: nat, action: Action, t: State)
    requires Counts(s) && Step(s, i, action, t)
    ensures Counts(t) <==> Count(t.threads, Writing) < 0x8000
  {
    if Count(t.threads, Writing) < 0x8000 {
      StepKeepsCounts(s, i, action, t);
    } else {
      WritersBelow(t.word);
      hide Writers, Count, Step;
    }
  }

  lemma WritersBelow(w: Word)
    ensures Writers(w) < 0x8000
  {
  }

  lemma StepKeepsCounts(s: State, i: nat, action: Action, t: State)
    requires Counts(s) && Step(s, i, action, t) && Count(t.threads, Writing) < 0x8000
    ensures Counts(t)
  {
    if action == WriteLock {
      var phase := if Wanted(s.word) then WaitingBehind else WaitingFirst;
      var asked := State(WithWanted(s.word), s.threads[i := phase]);
      WantedWord(s.word);
      CountUpdate(s.threads, i, phase, Reading);
      CountUpdate(s.threads, i, phase, Writing);
      hide Readers, Writers, Wanted, WithWanted, Count, Checked, Spinning;
      CheckKeepsCounts(asked, i);
    } else if action == WriteRetry {
      CheckKeepsCounts(s, i);
    } else {
      UnlockKeepsCounts(s, i, action, t);
    }
  }

  lemma CheckKeepsCounts(s: State, i: nat)
    requires Counts(s) && i < |s.threads| && s.threads[i] in {WaitingFirst, WaitingBehind}
    requires Count(Checked(s, i).threads, Writing) < 0x8000
    ensures Counts(Checked(s, i))
  {
    EnterFields(s.word);
    CountUpdate(s.threads, i, Writing, Reading);
    CountUpdate(s.threads, i, Writing, Writing);
    hide Readers, Wanted, Writers, Enter, Count, Blocked, Spinning;
  }

  lemma UnlockKeepsCounts(s: State, i: nat, action: Action, t: State)
    requires Counts(s) && Step(s, i, action, t) && action in {ReadLock, ReadUnlock, WriteUnlock}
    ensures Counts(t)
  {
    CountUpdate(s.threads, i, t.threads[i], Reading);
    CountUpdate(s.threads, i, t.threads[i], Writing);
    if action == WriteUnlock {
      LeaveFields(s.word);
    } else if action == ReadUnlock {
      ReaderOutWord(s.word);
    } else if Readers(s.word) < 0x7FFF {
      ReaderInWord(s.word);
    }
    hide Readers, Wanted, Writers, Leave, Decremented, Count, Checked, Spinning;
  }

  /** As long as there have been fewer than 2^15 writers inside at a time, in every state of every run
      the spinlock is free, bits 0 to 14 count the readers inside and bits 16 to 30 the writers. */
  lemma {:induction false} RunCounts(states: seq<State>, threads: seq<nat>, actions: seq<Action>, k: nat)
    requires Run(states, threads, actions) && k < |states|
    requires forall j :: 0 <= j <= k ==> Count(states[j].threads, Writing) < 0x8000
    ensures Counts(states[k])
  {
    if k == 0 {
      NoneOutside(|states[0].threads|, Reading);
      NoneOutside(|states[0].threads|, Writing);
    } else {
      RunCounts(states, threads, actions, k - 1);
      assert StepAt(states, threads, actions, k - 1);
      StepKeepsCounts(states[k - 1], threads[k - 1], actions[k - 1], states[k]);
    }
  }

  /** A writer enters only when no reader is inside. */
  lemma WriterEntersWithoutReaders(s: State, i: nat, action: Action, t: State)
    requires Counts(s) && Step(s, i, action, t) && s.threads[i] != Writing && t.threads[i] == Writing
    ensures Count(s.threads, Reading) == 0 && Count(t.threads, Reading) == 0
  {
    assert t.threads == s.threads[i := Writing];
    CountUpdate(s.threads, i, Writing, Reading);
    WantedWord(s.word);
    hide Readers, Wanted, WithWanted, Writers, Enter, Leave, Count, Spinning;
  }

  /** While bit 15 is set no reader gets in. */
  lemma WantedKeepsReadersOut(s: State, i: nat, action: Action, t: State)
    requires Step(s, i, action, t) && Wanted(s.word)
    ensures Count(t.threads, Reading) <= Count(s.threads, Reading)
  {
    if action == WriteLock {
      CountUpdate(s.threads, i, WaitingBehind, Reading);
      CountUpdate(s.threads[i := WaitingBehind], i, Writing, Reading);
    } else {
      CountUpdate(s.threads, i, t.threads[i], Reading);
    }
    hide Wanted, WithWanted, Leave, Decremented, Enter, Readers;
  }

  // ------------------------------------------------------ serialised writers

  /** How many threads are between the first section of krwlock_write_lock and the end of
      krwlock_write_unlock. */
  function Claims(threads: seq<Phase>): nat {
    Count(threads, WaitingFirst) + Count(threads, WaitingBehind) + Count(threads, Writing)
  }

  predicate Claiming(p: Phase) {
    p.WaitingFirst? || p.WaitingBehind? || p.Writing?
  }

  lemma ClaimsUpdate(threads: seq<Phase>, i: nat, q: Phase)
    requires i < |threads|
    ensures Claims(threads[i := q])
            == Claims(threads) - (if Claiming(threads[i]) then 1 else 0) + (if Claiming(q) then 1 else 0)
    ensures Claiming(threads[i]) ==> Claims(threads) >= 1
  {
    CountUpdate(threads, i, q, WaitingFirst);
    CountUpdate(threads, i, q, WaitingBehind);
    CountUpdate(threads, i, q, Writing);
  }

  /** With at most one writer about, bit 15 says whether there is one, and a writer inside shuts out
      all readers. */
  ghost predicate Exclusion(s: State) {
    && Counts(s)
    && (Wanted(s.word) <==> Claims(s.threads) == 1)
    && (Count(s.threads, Writing) >= 1 ==> Count(s.threads, Reading) == 0)
  }

  lemma SerialStep(s: State, i: nat, action: Action, t: State)
    requires Exclusion(s) && Step(s, i, action, t)
    requires Claims(s.threads) <= 1 && Claims(t.threads) <= 1
    ensures Exclusion(t)
  {
    assert Count(t.threads, Writing) <= Claims(t.threads);
    StepKeepsCounts(s, i, action, t);
    CountUpdate(s.threads, i, t.threads[i], Reading);
    CountUpdate(s.threads, i, t.threads[i], Writing);
    ClaimsUpdate(s.threads, i, t.threads[i]);
    if action == WriteLock {
      SerialRequest(s, i, t);
    } else if action == WriteRetry {
      EnterFields(s.word);
      hide Wanted, Enter, Count, Claims, Readers, Writers, Spinning;
    } else if action == WriteUnlock {
      assert Count(s.threads, Writing) <= Claims(s.threads);
      LeaveFields(s.word);
      hide Wanted, Leave, Count, Claims, Readers, Writers, Spinning;
    } else {
      if action == ReadUnlock {
        ReaderOutWord(s.word);
      } else if Readers(s.word) < 0x7FFF {
        ReaderInWord(s.word);
      }
      hide Wanted, Count, Claims, Readers, Writers, Decremented, Spinning;
    }
  }

  lemma SerialRequest(s: State, i: nat, t: State)
    requires Exclusion(s) && Counts(t) && Step(s, i, WriteLock, t) && Claims(t.threads) <= 1
    ensures Exclusion(t)
  {
    assert Count(s.threads, Writing) <= Claims(s.threads);
    assert t.threads == s.threads[i := t.threads[i]];
    CountUpdate(s.threads, i, t.threads[i], Reading);
    CountUpdate(s.threads, i, t.threads[i], Writing);
    ClaimsUpdate(s.threads, i, t.threads[i]);
    WantedWord(s.word);
    EnterFields(WithWanted(s.word));
    hide Wanted, WithWanted, Enter, Count, Claims, Readers, Writers, Spinning;
  }

  /** Over any run in which writers do not overlap: a writer inside is alone. */
  lemma {:induction false} SerialRunExcludes(states: seq<State>, threads: seq<nat>, actions: seq<Action>, k: nat)
    requires Run(states, threads, actions) && k < |states|
    requires forall j :: 0 <= j < |states| ==> Claims(states[j].threads) <= 1
    ensures Exclusion(states[k])
  {
    if k == 0 {
      NoneOutside(|states[0].threads|, Reading);
      NoneOutside(|states[0].threads|, WaitingFirst);
      NoneOutside(|states[0].threads|, WaitingBehind);
      NoneOutside(|states[0].threads|, Writing);
    } else {
      SerialRunExcludes(states, threads, actions, k - 1);
      assert StepAt(states, threads, actions, k - 1);
      SerialStep(states[k - 1], threads[k - 1], actions[k - 1], states[k]);
    }
  }

  /** ... and once a writer waits, the number of readers inside never rises until it has left. */
  lemma {:induction false} ReadersDrain(states: seq<State>, threads: seq<nat>, actions: seq<Action>, j: nat, k: nat)
    requires Run(states, threads, actions) && j <= k < |states|
    requires forall m :: 0 <= m < |states| ==> Claims(states[m].threads) <= 1
    requires forall m :: j <= m <= k ==> Claims(states[m].threads) == 1
    ensures Count(states[k].threads, Reading) <= Count(states[j].threads, Reading)
  {
    if j < k {
      ReadersDrain(states, threads, actions, j, k - 1);
      SerialRunExcludes(states, threads, actions, k - 1);
      assert StepAt(states, threads, actions, k - 1);
      WantedKeepsReadersOut(states[k - 1], threads[k - 1], actions[k - 1], states[k]);
    }
  }

  // ------------------------------------------------------ overlapping writers

  /** A writer inside is alone. */
  ghost predicate Exclusive(s: State) {
    Count(s.threads, Writing) == 0 || (Count(s.threads, Writing) == 1 && Count(s.threads, Reading) == 0)
  }

  /** A reader that asks gets in exactly when no writer has asked and the count has room. */
  lemma ReaderEntersIff(s: State, i: nat, t: State)
    requires Counts(s) && Step(s, i, ReadLock, t)
    ensures i < |t.threads| && (t.threads[i] == Reading <==> !Wanted(s.word) && Count(s.threads, Reading) < 0x7FFF)
  {
  }

  /** A writer that asks or checks gets in exactly when no reader is inside and, unless it asked first, no writer. */
  lemma WriterEntersIff(s: State, i: nat, action: Action, t: State)
    requires Counts(s) && Step(s, i, action, t) && (action == WriteLock || action == WriteRetry)
    ensures i < |t.threads|
    ensures var first := if action == WriteLock then !Wanted(s.word) else s.threads[i] == WaitingFirst;
            t.threads[i] == Writing <==>
              Count(s.threads, Reading) == 0 && (first || Count(s.threads, Writing) == 0)
  {
    WantedWord(s.word);
    hide Wanted, WithWanted, Enter, Count, Readers, Writers, Spinning;
  }

  /** A step breaks exclusion exactly when, with a writer inside, either a reader comes while bit 15
      is clear, or a writer checks without regard to writers: one that asks while bit 15 is clear,
      or one that asked first. */
  lemma BreaksExclusionIff(s: State, i: nat, action: Action, t: State)
    requires Counts(s) && Exclusive(s) && Step(s, i, action, t)
    ensures !Exclusive(t) <==>
            Count(s.threads, Writing) == 1 &&
            (  (action == ReadLock && !Wanted(s.word))
            || (action == WriteLock && !Wanted(s.word))
            || (action == WriteRetry && s.threads[i] == WaitingFirst))
  {
    assert t.threads == s.threads[i := t.threads[i]];
    CountUpdate(s.threads, i, t.threads[i], Reading);
    CountUpdate(s.threads, i, t.threads[i], Writing);
    WantedWord(s.word);
    hide Wanted, WithWanted, Enter, Leave, Decremented, Count, Readers, Writers, Spinning;
  }

  lemma CountThree(a: Phase, b: Phase, c: Phase, p: Phase)
    ensures Count([a, b, c], p) == (if a == p then 1 else 0) + (if b == p then 1 else 0) + (if c == p then 1 else 0)
  {
    assert [c][1..] == [];
    assert Count([c], p) == if c == p then 1 else 0;
    assert [b, c][1..] == [c];
    assert Count([b, c], p) == (if b == p then 1 else 0) + Count([c], p);
    assert [a, b, c][1..] == [b, c];
  }

  /** A state of three threads. */
  function Three(word: Word, a: Phase, b: Phase, c: Phase): State {
    State(word, [a, b, c])
  }

  /** The first writer leaves while the second waits. */
  lemma HandOver()
    ensures Step(Three(0, Outside, Outside, Outside), 0, WriteLock, Three(0x1_8000, Writing, Outside, Outside))
    ensures Step(Three(0x1_8000, Writing, Outside, Outside), 1, WriteLock,
                 Three(0x1_8000, Writing, WaitingBehind, Outside))
    ensures Step(Three(0x1_8000, Writing, WaitingBehind, Outside), 0, WriteUnlock,
                 Three(0, Outside, WaitingBehind, Outside))
  {
  }

  /** The second writer enters with bit 15 clear, and a reader follows. */
  lemma Follow()
    ensures Step(Three(0, Outside, WaitingBehind, Outside), 1, WriteRetry, Three(0x1_0000, Outside, Writing, Outside))
    ensures Step(Three(0x1_0000, Outside, Writing, Outside), 2, ReadLock, Three(0x1_0001, Outside, Writing, Reading))
  {
  }

  /** Two writers wait for a reader. */
  lemma WaitForReader()
    ensures Step(Three(0, Outside, Outside, Outside), 2, ReadLock, Three(1, Outside, Outside, Reading))
    ensures Step(Three(1, Outside, Outside, Reading), 0, WriteLock, Three(0x8001, WaitingFirst, Outside, Reading))
    ensures Step(Three(0x8001, WaitingFirst, Outside, Reading), 1, WriteLock,
                 Three(0x8001, WaitingFirst, WaitingBehind, Reading))
  {
  }

  /** The reader leaves, and both writers enter. */
  lemma BothEnter()
    ensures Step(Three(0x8001, WaitingFirst, WaitingBehind, Reading), 2, ReadUnlock,
                 Three(0x8000, WaitingFirst, WaitingBehind, Outside))
    ensures Step(Three(0x8000, WaitingFirst, WaitingBehind, Outside), 1, WriteRetry,
                 Three(0x1_8000, WaitingFirst, Writing, Outside))
    ensures Step(Three(0x1_8000, WaitingFirst, Writing, Outside), 0, WriteRetry,
                 Three(0x2_8000, Writing, Writing, Outside))
  {
  }

  /** Writers that overlap can let a reader in beside a writer: the first writer's leaving clears
      the bit that the second has set. */
  lemma ReaderBesideWriter()
    ensures exists states: seq<State>, threads: seq<nat>, actions: seq<Action> ::
              Run(states, threads, actions) && Count(states[|actions|].threads, Writing) == 1
              && Count(states[|actions|].threads, Reading) == 1
  {
    HandOver();
    Follow();
    CountThree(Outside, Writing, Reading, Writing);
    CountThree(Outside, Writing, Reading, Reading);
    var o := Outside;
    var states := [Three(0, o, o, o), Three(0x1_8000, Writing, o, o), Three(0x1_8000, Writing, WaitingBehind, o),
                   Three(0, o, WaitingBehind, o), Three(0x1_0000, o, Writing, o), Three(0x1_0001, o, Writing, Reading)];
    assert states[0].threads == seq(3, i => o);
    hide Step, Count;
    var threads: seq<nat> := [0, 1, 0, 1, 2];
    var actions := [WriteLock, WriteLock, WriteUnlock, WriteRetry, ReadLock];
    assert Run(states, threads, actions);
  }

  /** Two writers can also be inside together: the one that asked first ignores writers. */
  lemma TwoWriters()
    ensures exists states: seq<State>, threads: seq<nat>, actions: seq<Action> ::
              Run(states, threads, actions) && Count(states[|actions|].threads, Writing) == 2
  {
    WaitForReader();
    BothEnter();
    CountThree(Writing, Writing, Outside, Writing);
    var o := Outside;
    var states := [Three(0, o, o, o), Three(1, o, o, Reading), Three(0x8001, WaitingFirst, o, Reading),
                   Three(0x8001, WaitingFirst, WaitingBehind, Reading), Three(0x8000, WaitingFirst, WaitingBehind, o),
                   Three(0x1_8000, WaitingFirst, Writing, o), Three(0x2_8000, Writing, Writing, o)];
    assert states[0].threads == seq(3, i => o);
    hide Step, Count;
    var threads: seq<nat> := [2, 0, 1, 2, 1, 0];
    var actions := [ReadLock, WriteLock, WriteLock, ReadUnlock, WriteRetry, WriteRetry];
    assert Run(states, threads, actions);
  }
}
