/** Saving and restoring a thread's registers, arch/ia32/entry.S, and the first frame of a thread.
    Memory is an array of words and stack pointers count words. */
module Context {
  import opened Basics
  import opened Machine
  import opened Clock
  import opened Ring
  import opened Threads

  datatype Cpu = Cpu(eax: Word, ebx: Word, ecx: Word, edx: Word, edi: Word, esi: Word, ebp: Word,
                     eflags: Word, cs: Word, eip: Word, esp: Word)

  const FRAME: nat := 11      // words from the saved ebp to the saved eflags
  const SWITCH_ROOM: nat := 14  // words that an interrupt and the call of thread_switch push

  /** The registers that RESTOREREGS (behind its popl %esp), popfl and iret load from the frame at
      word `at`. */
  function Decode(m: seq<Word>, at: Word): Cpu
    requires at + FRAME <= |m| && at + FRAME < 0x1_0000_0000
  {
    Cpu(m[at + 6], m[at + 5], m[at + 4], m[at + 3], m[at + 2], m[at + 1], m[at],
        m[at + 10], m[at + 9], m[at + 8], at + FRAME)
  }

  lemma DecodeKept(m: seq<Word>, n: seq<Word>, at: Word)
    requires |m| == |n| && at + FRAME <= |m| && at + FRAME < 0x1_0000_0000
    requires forall k :: at <= k < at + FRAME ==> n[k] == m[k]
    ensures Decode(n, at) == Decode(m, at)
  {
  }

  /** What one interrupt that switches threads does to memory and registers: the interrupted
      registers can be decoded from a frame right below the stack pointer, nothing else but the
      words just below that frame changes, and the frame at `next` is what the processor goes on
      with. */
  ghost predicate Exchanges(m: seq<Word>, cpu: Cpu, n: seq<Word>, now: Cpu, next: Word) {
    && SWITCH_ROOM <= cpu.esp <= |m| && |n| == |m|
    && (forall a :: 0 <= a < |m| && !(cpu.esp - SWITCH_ROOM <= a < cpu.esp) ==> n[a] == m[a])
    && Decode(n, cpu.esp - FRAME) == cpu
    && next + FRAME <= |n| && next + FRAME < 0x1_0000_0000 && now == Decode(n, next)
  }

  /** Entering and leaving make an exchange when only the word that names the frame changes between. */
  lemma ExchangeComplete(m: seq<Word>, cpu: Cpu, e: seq<Word>, n: seq<Word>, now: Cpu, next: Word)
    requires SWITCH_ROOM <= cpu.esp <= |m| && |m| == |e| == |n|
    requires forall a :: 0 <= a < |m| && !(cpu.esp - SWITCH_ROOM <= a < cpu.esp) ==> e[a] == m[a]
    requires forall a :: 0 <= a < |m| && a != cpu.esp - 12 ==> n[a] == e[a]
    requires Decode(e, cpu.esp - FRAME) == cpu
    requires next + FRAME <= |n| && next + FRAME < 0x1_0000_0000 && now == Decode(n, next)
    ensures Exchanges(m, cpu, n, now, next)
  {
    DecodeKept(e, n, cpu.esp - FRAME);
    hide Decode;
  }

  class Processor {
    const mem: array<Word>
    var eax: Word
    var ebx: Word
    var ecx: Word
    var edx: Word
    var edi: Word
    var esi: Word
    var ebp: Word
    var eflags: Word
    var cs: Word
    var eip: Word
    var esp: Word

    constructor (mem: array<Word>)
      ensures this.mem == mem
    {
      this.mem := mem;
      eax, ebx, ecx, edx, edi, esi, ebp, eflags, cs, eip, esp := 0, 0, 0, 0, 0, 0, 0, 0, 0, 0, 0;
    }

    ghost function View(): Cpu
      reads this
    {
      Cpu(eax, ebx, ecx, edx, edi, esi, ebp, eflags, cs, eip, esp)
    }

    method Push(w: Word)
      requires 1 <= esp <= mem.Length
      modifies this`esp, mem
      ensures esp == old(esp) - 1 && mem[esp] == w
      ensures forall a :: 0 <= a < mem.Length && a != esp ==> mem[a] == old(mem[a])
    {
      esp := esp - 1;
      mem[esp] := w;
    }

    method Pop() returns (w: Word)
      requires esp < mem.Length && esp < 0xFFFF_FFFF
      modifies this`esp
      ensures esp == old(esp) + 1 && w == mem[old(esp)]
    {
      w := mem[esp];
      esp := esp + 1;
    }

    /** Memory is as before, but for the words from `from` to `to`. */
    twostate predicate OnlyWritten(from: nat, to: nat)
      reads mem
    {
      forall a :: 0 <= a < mem.Length && !(from <= a < to) ==> mem[a] == old(mem[a])
    }

    /** The interrupt gate: flags, code segment and instruction pointer are pushed, and the interrupt
        flag is cleared. */
    method Interrupt(handler: Word, kernelCs: Word)
      requires 3 <= esp <= mem.Length
      modifies this`esp, this`eflags, this`cs, this`eip, mem
      ensures esp == old(esp) - 3
      ensures mem[esp] == old(eip) && mem[esp + 1] == old(cs) && mem[esp + 2] == old(eflags)
      ensures cs == kernelCs && eip == handler
      ensures eflags == old(eflags) - old(eflags) / 0x200 % 2 * 0x200
      ensures OnlyWritten(esp, old(esp))
    {
      Push(eflags);
      Push(cs);
      Push(eip);
      if eflags / 0x200 % 2 == 1 {
        eflags := eflags - 0x200;
      }
      cs, eip := kernelCs, handler;
    }

    method SaveRegs()
      requires 8 <= esp <= mem.Length
      modifies this`esp, mem
      ensures esp == old(esp) - 8 && OnlyWritten(esp, old(esp))
      ensures mem[esp] == esp + 1
      ensures mem[esp + 1] == ebp && mem[esp + 2] == esi && mem[esp + 3] == edi && mem[esp + 4] == edx
      ensures mem[esp + 5] == ecx && mem[esp + 6] == ebx && mem[esp + 7] == eax
    {
      Push(eax);
      Push(ebx);
      Push(ecx);
      Push(edx);
      Push(edi);
      Push(esi);
      Push(ebp);
      Push(esp);
    }

    /** RESTOREREGS. Its popl %esp makes the stack pointer the word it pops. */
    method RestoreRegs(ghost at: nat)
      requires esp < mem.Length && mem[esp] == at && at + 7 <= mem.Length && at + 7 < 0x1_0000_0000
      modifies this
      ensures esp == at + 7 && eflags == old(eflags) && cs == old(cs) && eip == old(eip)
      ensures ebp == mem[at] && esi == mem[at + 1] && edi == mem[at + 2] && edx == mem[at + 3]
      ensures ecx == mem[at + 4] && ebx == mem[at + 5] && eax == mem[at + 6]
    {
      esp := mem[esp];
      RestoreIndexes();
      RestoreData();
    }

    method RestoreIndexes()
      requires esp + 3 <= mem.Length && esp + 3 < 0x1_0000_0000
      modifies this`esp, this`ebp, this`esi, this`edi
      ensures esp == old(esp) + 3 && ebp == mem[old(esp)] && esi == mem[old(esp) + 1] && edi == mem[old(esp) + 2]
    {
      ebp := Pop();
      esi := Pop();
      edi := Pop();
    }

    method RestoreData()
      requires esp + 4 <= mem.Length && esp + 4 < 0x1_0000_0000
      modifies this`esp, this`edx, this`ecx, this`ebx, this`eax
      ensures esp == old(esp) + 4
      ensures edx == mem[old(esp)] && ecx == mem[old(esp) + 1] && ebx == mem[old(esp) + 2] && eax == mem[old(esp) + 3]
    {
      edx := Pop();
      ecx := Pop();
      ebx := Pop();
      eax := Pop();
    }

    /** handle_thread_switch up to the first instruction of thread_switch. */
    method EnterSwitch(handler: Word, kernelCs: Word, returnTo: Word)
      requires SWITCH_ROOM <= esp <= mem.Length
      modifies this`esp, this`eflags, this`cs, this`eip, mem
      ensures esp == old(esp) - SWITCH_ROOM && mem[old(esp) - 12] == old(esp) - FRAME
      ensures OnlyWritten(esp, old(esp))
      ensures Decode(mem[..], old(esp) - FRAME) == old(View())
    {
      Interrupt(handler, kernelCs);
      Push(eflags);
      SaveRegs();
      Push(esp);
      Push(returnTo);
    }

    /** handle_thread_switch from the return of thread_switch to the iret. */
    method LeaveSwitch(ghost next: Word)
      requires esp + 2 < mem.Length < 0x1_0000_0000 && mem[esp + 2] == next && next + FRAME <= mem.Length
      modifies this
      ensures View() == Decode(mem[..], next)
    {
      var _ := Pop();
      esp := esp + 1;
      RestoreRegs(next);
      eflags := Pop();
      eip := Pop();
      cs := Pop();
      eflags := Pop();
    }

    /** int $0x30: handle_thread_switch from the interrupt to the iret. When no thread is eligible the
        search of the scheduler does not end: `ok` is false, with the interrupted registers saved. */
    method ThreadSwitch(s: Scheduler, now: Time, handler: Word, kernelCs: Word, returnTo: Word) returns (ok: bool)
      requires s.Valid() && mem.Length < 0x1_0000_0000
      requires SWITCH_ROOM <= esp <= mem.Length
      requires forall p :: 1 <= p < |s.View()| ==> s.View()[p].esp + FRAME <= mem.Length
      modifies this, mem, s`current, s`ring, s.ring
      ensures s.Valid() && ok == SomeEligible(Saved(old(s.View()), old(esp) - FRAME), now)
      ensures ok ==> Step(old(s.View()), Switch(old(esp) - FRAME, now), s.View())
      ensures ok ==> s.View()[0].esp + FRAME <= mem.Length
      ensures ok ==> Exchanges(old(mem[..]), old(View()), mem[..], View(), s.View()[0].esp)
      ensures !ok ==> s.View() == Saved(old(s.View()), old(esp) - FRAME)
      ensures !ok ==> Decode(mem[..], old(esp) - FRAME) == old(View()) && OnlyWritten(old(esp) - SWITCH_ROOM, old(esp))
    {
      hide SomeEligible, EligibleAt, Choice, Switched, Saved, Step, Linked, Distinct, SameThreads, Numbered, Counted,
           Blocks, Decode, Exchanges;
      ghost var a, was, cpu := s.View(), mem[..], View();
      var top := esp;
      EnterSwitch(handler, kernelCs, returnTo);
      assert s.View() == a;
      ghost var entered := mem[..];
      ghost var next: Word;
      ok, next := SwitchOnFrame(s, now, top - 12);
      if ok {
        ghost var b := s.View();
        LeaveSwitch(next);
        assert s.View() == b;
        ExchangeComplete(was, cpu, entered, mem[..], View(), next);
      }
    }

    /** thread_switch on the register structure at word `regs`: its esp field is handed to the
        scheduler and replaced by what the scheduler gives back. */
    method SwitchOnFrame(s: Scheduler, now: Time, regs: Word) returns (ok: bool, ghost next: Word)
      requires s.Valid() && regs + FRAME < mem.Length < 0x1_0000_0000 && mem[regs] == regs + 1
      requires forall p :: 1 <= p < |s.View()| ==> s.View()[p].esp + FRAME <= mem.Length
      modifies mem, s`current, s`ring, s.ring
      ensures s.Valid() && ok == SomeEligible(Saved(old(s.View()), regs + 1), now)
      ensures ok ==> Step(old(s.View()), Switch(regs + 1, now), s.View())
      ensures ok ==> next == s.View()[0].esp && next + FRAME <= mem.Length
      ensures ok ==> mem[regs] == next && OnlyWritten(regs, regs + 1)
      ensures !ok ==> s.View() == Saved(old(s.View()), regs + 1) && mem[..] == old(mem[..])
    {
      hide SomeEligible, EligibleAt, Choice, Switched, Saved, Step, Linked, Distinct, SameThreads, Numbered, Counted,
           Blocks;
      ghost var a := s.View();
      next := 0;
      var esp': nat;
      ok, esp' := s.Switch(mem[regs], now);
      if ok {
        ghost var b := s.View();
        HeadFits(a, regs + 1, now, b, mem.Length);
        mem[regs] := esp';
        assert s.View() == b;
        next := esp';
      }
    }

    /** What kthread_create writes below the end `top` of a new thread's stack. */
    method LayFrame(top: Word, entry: Word, data: Word, killCurrent: Word)
      requires 14 <= top <= mem.Length
      modifies mem
      ensures Laid(mem[..], top, entry, data, killCurrent)
      ensures forall a :: 0 <= a < mem.Length && !(top - 14 <= a < top) ==> mem[a] == old(mem[a])
    {
      mem[top - 1] := data;
      mem[top - 2] := killCurrent;
      mem[top - 3] := 0x200;
      mem[top - 4] := 0x10;
      mem[top - 5] := entry;
      mem[top - 6] := 0;
      mem[top - 7] := 0;
      mem[top - 8] := 0;
      mem[top - 9] := 0;
      mem[top - 10] := 0;
      mem[top - 11] := 0;
      mem[top - 12] := 0;
      mem[top - 13] := 0;
      mem[top - 14] := 0;
    }
  }

  /** The registers with which a new thread enters its function: interrupts are enabled, and the
      stack pointer is at the return address, with the argument behind it. */
  function Started(top: Word, entry: Word): Cpu
    requires 2 <= top
  {
    Cpu(0, 0, 0, 0, 0, 0, 0, 0x200, 0x10, entry, top - 2)
  }

  /** The first frame of a thread decodes to a call function(data) that returns to
      kthread_kill_current. */
  ghost predicate Laid(m: seq<Word>, top: Word, entry: Word, data: Word, killCurrent: Word) {
    && 14 <= top <= |m|
    && Decode(m, top - 13) == Started(top, entry)
    && m[top - 2] == killCurrent && m[top - 1] == data
  }

  /** The thread that becomes current keeps the stack pointer it had; a lone thread its own. */
  lemma HeadFits(a: seq<Tcb>, esp: nat, now: Time, b: seq<Tcb>, limit: nat)
    requires Step(a, Switch(esp, now), b) && esp + FRAME <= limit
    requires forall p :: 1 <= p < |a| ==> a[p].esp + FRAME <= limit
    ensures b[0].esp + FRAME <= limit
  {
    ChoiceInRing(Saved(a, esp), now);
  }

  // ------------------------------------------------------------------ runs

  /** The stack of a thread: the words from lo up to hi. */
  datatype Stack = Stack(lo: nat, hi: nat)

  predicate Within(a: nat, s: Stack) {
    s.lo <= a < s.hi
  }

  predicate Disjoint(s: Stack, t: Stack) {
    s.hi <= t.lo || t.hi <= s.lo
  }

  /** Memory, threads, their stacks in the order of the ring, and the processor. */
  datatype System = System(mem: seq<Word>, ring: seq<Tcb>, stacks: seq<Stack>, cpu: Cpu)

  /** Stacks do not overlap. */
  predicate StacksApart(stacks: seq<Stack>) {
    forall i, j :: 0 <= i < j < |stacks| ==> Disjoint(stacks[i], stacks[j])
  }

  ghost predicate WellFormed(s: System) {
    && 1 <= |s.ring| && |s.stacks| == |s.ring| && StacksApart(s.stacks)
    && forall i :: 0 <= i < |s.stacks| ==> s.stacks[i].hi <= |s.mem|
  }

  /** The words of all stacks but the current one are the same. */
  ghost predicate OthersKept(a: System, m: seq<Word>) {
    |m| == |a.mem| &&
    forall p, x {:trigger Within(x, a.stacks[p])} ::
      1 <= p < |a.stacks| && 0 <= x < |m| && Within(x, a.stacks[p]) ==> m[x] == a.mem[x]
  }

  /** A new thread comes with a stack of its own. */
  ghost predicate NewStack(a: System, stacks: seq<Stack>) {
    && 1 <= |a.stacks| && |stacks| == |a.stacks| + 1 && stacks == InsertedNext(a.stacks, stacks[1])
    && stacks[1].hi <= |a.mem|
    && forall i :: 0 <= i < |a.stacks| ==> Disjoint(a.stacks[i], stacks[1])
  }

  /** One step of the system. While a thread runs it may change registers, its own block and any
      memory besides the other threads' stacks. A switch needs room on the current stack. */
  ghost predicate SystemStep(a: System, e: Event, b: System) {
    && WellFormed(a) && Step(a.ring, e, b.ring)
    && match e
       case Change(t) => OthersKept(a, b.mem) && b.stacks == a.stacks
       case Create(t) => OthersKept(a, b.mem) && NewStack(a, b.stacks)
       case Switch(esp, now) =>
         && a.stacks[0].lo + SWITCH_ROOM <= a.cpu.esp <= a.stacks[0].hi
         && esp == a.cpu.esp - FRAME
         && b.stacks == Rotate(a.stacks, Choice(Saved(a.ring, esp), now))
         && b.ring[0].esp < 0x1_0000_0000
         && Exchanges(a.mem, a.cpu, b.mem, b.cpu, b.ring[0].esp)
  }

  ghost predicate SystemRun(states: seq<System>, events: seq<Event>) {
    |states| == |events| + 1 && WellFormed(states[0]) &&
    forall i :: 0 <= i < |events| ==> SystemStepAt(states, events, i)
  }

  ghost predicate SystemStepAt(states: seq<System>, events: seq<Event>, i: nat)
    requires |states| == |events| + 1 && i < |events|
  {
    SystemStep(states[i], events[i], states[i + 1])
  }

  function Rings(states: seq<System>): (r: seq<seq<Tcb>>)
    ensures |r| == |states| && forall i :: 0 <= i < |r| ==> r[i] == states[i].ring
  {
    seq(|states|, i requires 0 <= i < |states| => states[i].ring)
  }

  lemma RunStep(states: seq<System>, events: seq<Event>, i: nat)
    requires SystemRun(states, events) && i < |events|
    ensures SystemStep(states[i], events[i], states[i + 1])
  {
    hide SystemStep;
    assert SystemStepAt(states, events, i);
  }

  lemma RunStates(states: seq<System>, events: seq<Event>)
    requires SystemRun(states, events)
    ensures |states| == |events| + 1
  {
  }

  lemma RunOfRings(states: seq<System>, events: seq<Event>)
    requires SystemRun(states, events)
    ensures Run(Rings(states), events)
  {
    forall i | 0 <= i < |events|
      ensures StepAt(Rings(states), events, i)
    {
      assert SystemStepAt(states, events, i);
    }
  }

  /** The thread at position p of a is at position q of b, with the same stack pointer and the same
      words on the same stack. */
  ghost predicate SameThread(a: System, p: nat, b: System, q: nat) {
    && p < |a.ring| == |a.stacks| && q < |b.ring| == |b.stacks|
    && b.ring[q].esp == a.ring[p].esp && b.stacks[q] == a.stacks[p]
    && |a.mem| == |b.mem|
    && forall x :: 0 <= x < |a.mem| && Within(x, a.stacks[p]) ==> b.mem[x] == a.mem[x]
  }

  /** A step leaves the stacks of the threads that wait alone, also of one that it picks. */
  lemma WaitingKept(a: System, e: Event, b: System, p: nat)
    requires SystemStep(a, e, b) && 1 <= p < |a.ring|
    ensures SameThread(a, p, b, Moved(a.ring, e, p))
  {
    WaitingMoves(a, e, b, p);
    hide Step, Choice, Moved, InsertedNext, Rotate, Decode, Saved;
    if e.Switch? {
      assert Disjoint(a.stacks[0], a.stacks[p]);
    } else {
      assert OthersKept(a, b.mem);
    }
  }

  /** Stacks stay apart. */
  lemma StepKeepsStacks(a: System, e: Event, b: System)
    requires SystemStep(a, e, b)
    ensures WellFormed(b)
  {
    hide StacksApart, OthersKept, Exchanges, Choice, Disjoint, Rotate, InsertedNext;
    match e
    case Change(t) =>
      assert OthersKept(a, b.mem);
      SizeKept(a, b.mem);
    case Create(t) =>
      assert OthersKept(a, b.mem) && NewStack(a, b.stacks);
      SizeKept(a, b.mem);
      ApartInserted(a.stacks, b.stacks[1], |b.mem|);
    case Switch(esp, now) =>
      ChoiceInRing(Saved(a.ring, esp), now);
      ExchangeSize(a.mem, a.cpu, b.mem, b.cpu, b.ring[0].esp);
      ApartRotated(a.stacks, Choice(Saved(a.ring, esp), now), |b.mem|);
  }

  lemma SizeKept(a: System, m: seq<Word>)
    requires OthersKept(a, m)
    ensures |m| == |a.mem|
  {
  }

  lemma ExchangeSize(m: seq<Word>, c: Cpu, m': seq<Word>, c': Cpu, next: Word)
    requires Exchanges(m, c, m', c', next)
    ensures |m'| == |m|
  {
  }

  /** A stack that is apart from all others joins them. */
  lemma ApartInserted(stacks: seq<Stack>, s: Stack, limit: nat)
    requires StacksApart(stacks) && 1 <= |stacks| && s.hi <= limit
    requires forall i :: 0 <= i < |stacks| ==> Disjoint(stacks[i], s) && stacks[i].hi <= limit
    ensures StacksApart(InsertedNext(stacks, s))
    ensures forall i :: 0 <= i < |InsertedNext(stacks, s)| ==> InsertedNext(stacks, s)[i].hi <= limit
  {
    DisjointBack(stacks, s);
    hide Disjoint;
  }

  lemma DisjointBack(stacks: seq<Stack>, s: Stack)
    requires forall i :: 0 <= i < |stacks| ==> Disjoint(stacks[i], s)
    ensures forall i :: 0 <= i < |stacks| ==> Disjoint(s, stacks[i])
  {
  }

  /** Going round the ring keeps stacks apart. */
  lemma ApartRotated(stacks: seq<Stack>, c: nat, limit: nat)
    requires StacksApart(stacks) && c <= |stacks|
    requires forall i :: 0 <= i < |stacks| ==> stacks[i].hi <= limit
    ensures StacksApart(Rotate(stacks, c))
    ensures forall i :: 0 <= i < |Rotate(stacks, c)| ==> Rotate(stacks, c)[i].hi <= limit
  {
    var r := Rotate(stacks, c);
    forall i, j | 0 <= i < j < |r|
      ensures Disjoint(r[i], r[j])
    {
      var m := |stacks| - c;
      var k, l := if i < m then i + c else i - m, if j < m then j + c else j - m;
      assert r[i] == stacks[k] && r[j] == stacks[l];
      if k < l {
        assert Disjoint(stacks[k], stacks[l]);
      } else {
        assert Disjoint(stacks[l], stacks[k]);
      }
    }
  }

  lemma {:induction false} RunKeepsStacks(states: seq<System>, events: seq<Event>, n: nat)
    requires SystemRun(states, events) && n <= |events|
    ensures WellFormed(states[n])
  {
    if n > 0 {
      RunStep(states, events, n - 1);
      StepKeepsStacks(states[n - 1], events[n - 1], states[n]);
    }
  }

  lemma WaitingMoves(a: System, e: Event, b: System, p: nat)
    requires SystemStep(a, e, b) && 1 <= p < |a.ring|
    ensures var q := Moved(a.ring, e, p);
            q < |b.ring| && b.ring[q].esp == a.ring[p].esp && b.stacks[q] == a.stacks[p]
  {
    StepKeepsStacks(a, e, b);
    Sizes(a);
    Sizes(b);
    hide OthersKept, WellFormed, Exchanges;
    if e.Switch? {
      ChoiceInRing(Saved(a.ring, e.esp), e.now);
    }
  }

  lemma Sizes(a: System)
    requires WellFormed(a)
    ensures |a.stacks| == |a.ring|
  {
  }

  /** While it waits, from before event i to before event j, a thread keeps its stack. */
  lemma {:induction false} WaitingThread(states: seq<System>, events: seq<Event>, p: nat, i: nat, j: nat)
    requires SystemRun(states, events) && p < |states[0].ring| && i <= j <= |events|
    requires Position(Rings(states), events, p, i) != 0
    requires forall k :: i <= k < j ==> !Picked(Rings(states), events, p, k)
    ensures var q := Position(Rings(states), events, p, j);
            q != 0 && SameThread(states[i], Position(Rings(states), events, p, i), states[j], q)
    decreases j
  {
    RunOfRings(states, events);
    PositionTracks(Rings(states), events, p, i);
    if i == j {
      RunKeepsStacks(states, events, i);
      Sizes(states[i]);
    } else {
      WaitingThread(states, events, p, i, j - 1);
      RunStep(states, events, j - 1);
      var q := Position(Rings(states), events, p, j - 1);
      WaitingKept(states[j - 1], events[j - 1], states[j], q);
      assert !Picked(Rings(states), events, p, j - 1);
    }
  }

  /** The frame at word `at` lies in stack s. */
  predicate FrameWithin(at: nat, s: Stack) {
    s.lo <= at && at + FRAME <= s.hi
  }

  lemma StackInMemory(s: System)
    requires WellFormed(s)
    ensures forall i :: 0 <= i < |s.stacks| ==> s.stacks[i].hi <= |s.mem|
  {
  }

  lemma WordsWithin(at: nat, s: Stack)
    requires FrameWithin(at, s)
    ensures forall x {:trigger Within(x, s)} :: at <= x < at + FRAME ==> Within(x, s)
  {
  }

  lemma FrameKept(a: System, p: nat, b: System, q: nat)
    requires SameThread(a, p, b, q) && FrameWithin(a.ring[p].esp, a.stacks[p]) && a.stacks[p].hi <= |a.mem|
    requires a.ring[p].esp + FRAME < 0x1_0000_0000
    ensures FrameWithin(b.ring[q].esp, b.stacks[q]) && b.ring[q].esp + FRAME <= |b.mem|
    ensures Decode(b.mem, b.ring[q].esp) == Decode(a.mem, a.ring[p].esp)
  {
    var at := a.ring[p].esp;
    forall k | at <= k < at + FRAME
      ensures b.mem[k] == a.mem[k]
    {
      assert Within(k, a.stacks[p]);
    }
    DecodeKept(a.mem, b.mem, at);
  }

  /** A switch goes on with the frame that the thread it picks has had on its stack. */
  lemma PickDecodes(a: System, e: Event, b: System, p: nat)
    requires SystemStep(a, e, b) && e.Switch? && 1 <= p < |a.ring| && Moved(a.ring, e, p) == 0
    requires p < |a.stacks| && FrameWithin(a.ring[p].esp, a.stacks[p])
    ensures a.ring[p].esp + FRAME <= |a.mem| && a.ring[p].esp + FRAME < 0x1_0000_0000
    ensures b.cpu == Decode(a.mem, a.ring[p].esp)
  {
    WaitingKept(a, e, b, p);
    hide Step, Choice, Moved, Rotate, Saved, Decode;
    WordsWithin(a.ring[p].esp, a.stacks[p]);
    DecodeKept(a.mem, b.mem, b.ring[0].esp);
  }

  /** The thread that a switch takes the processor from is left with a frame that decodes to its
      registers. */
  lemma SwitchedOut(a: System, e: Event, b: System)
    requires SystemStep(a, e, b) && e.Switch? && Moved(a.ring, e, 0) != 0
    ensures var q := Moved(a.ring, e, 0);
            && q < |b.ring| == |b.stacks| && b.ring[q].esp == a.cpu.esp - FRAME
            && b.stacks[q] == a.stacks[0] && FrameWithin(b.ring[q].esp, b.stacks[q])
    ensures a.cpu.esp <= |b.mem| && Decode(b.mem, a.cpu.esp - FRAME) == a.cpu
  {
    ChoiceInRing(Saved(a.ring, e.esp), e.now);
    hide Decode;
  }

  /** A switch that picks the thread it interrupts changes no register. */
  lemma SwitchToSelf(a: System, e: Event, b: System)
    requires SystemStep(a, e, b) && e.Switch? && Moved(a.ring, e, 0) == 0
    ensures b.cpu == a.cpu
  {
    ChoiceInRing(Saved(a.ring, e.esp), e.now);
    hide Decode;
  }

  /** A thread is switched out by a step from a to a', stays at its place up to b, and is picked by a
      step from b to b'. */
  lemma ResumesAfterWait(a: System, d: Event, a': System, q: nat, b: System, e: Event, b': System, r: nat)
    requires SystemStep(a, d, a') && d.Switch? && q == Moved(a.ring, d, 0) && q != 0 && WellFormed(a')
    requires SameThread(a', q, b, r) && r != 0
    requires SystemStep(b, e, b') && e.Switch? && Moved(b.ring, e, r) == 0
    ensures b'.cpu == a.cpu
  {
    SwitchedOut(a, d, a');
    StackInMemory(a');
    StackPointerSmall(a, d, a', q);
    SameThreadExists(a', q, b, r);
    hide SystemStep, Moved, Decode, WellFormed, SameThread;
    FrameKept(a', q, b, r);
    PickDecodes(b, e, b', r);
  }

  lemma StackPointerSmall(a: System, d: Event, a': System, q: nat)
    requires SystemStep(a, d, a') && d.Switch?
    ensures a.cpu.esp < 0x1_0000_0000
  {
  }

  lemma SameThreadExists(a: System, p: nat, b: System, q: nat)
    requires SameThread(a, p, b, q)
    ensures p < |a.ring| == |a.stacks| && q < |b.ring| == |b.stacks|
    ensures b.ring[q].esp == a.ring[p].esp && b.stacks[q] == a.stacks[p]
  {
  }

  /** Over any run: a thread that is switched out at event i and picked next at event j goes on
      with exactly the registers it was switched out with. */
  lemma ResumesExactly(states: seq<System>, events: seq<Event>, p: nat, i: nat, j: nat)
    requires SystemRun(states, events) && p < |states[0].ring| && i <= j < |events|
    requires events[i].Switch? && Position(Rings(states), events, p, i) == 0
    requires forall k :: i <= k < j ==> !Picked(Rings(states), events, p, k)
    requires Picked(Rings(states), events, p, j)
    ensures states[j + 1].cpu == states[i].cpu
  {
    hide SystemRun, SystemStep, Picked, Position, Moved, Rings, WellFormed, SameThread;
    RunStates(states, events);
    RunStep(states, events, i);
    RunStep(states, events, j);
    RunKeepsStacks(states, events, i + 1);
    OneMove(states, events, p, i);
    OneMove(states, events, p, j);
    if i == j {
      SwitchToSelf(states[i], events[i], states[i + 1]);
    } else {
      var q := Position(Rings(states), events, p, i + 1);
      var r := Position(Rings(states), events, p, j);
      WaitingThread(states, events, p, i + 1, j);
      ResumesAfterWait(states[i], events[i], states[i + 1], q, states[j], events[j], states[j + 1], r);
    }
  }

  lemma PositionAtStart(states: seq<System>, events: seq<Event>, p: nat)
    requires |states| == |events| + 1
    ensures Position(Rings(states), events, p, 0) == p
  {
  }

  lemma OneMove(states: seq<System>, events: seq<Event>, p: nat, i: nat)
    requires |states| == |events| + 1 && i < |events|
    ensures Position(Rings(states), events, p, i + 1)
            == Moved(states[i].ring, events[i], Position(Rings(states), events, p, i))
    ensures Picked(Rings(states), events, p, i) ==> events[i].Switch? && Position(Rings(states), events, p, i + 1) == 0
    ensures events[i].Switch? && Position(Rings(states), events, p, i + 1) == 0 ==> Picked(Rings(states), events, p, i)
  {
  }

  /** Over any run: a thread that waits with the frame kthread_create laid is picked first to enter
      its function, with its argument and kthread_kill_current as return address on its stack. */
  lemma StartsAtFunction(states: seq<System>, events: seq<Event>, p: nat, j: nat, top: Word, entry: Word, data: Word,
                         killCurrent: Word)
    requires SystemRun(states, events) && 1 <= p < |states[0].ring| && j < |events|
    requires Laid(states[0].mem, top, entry, data, killCurrent)
    requires states[0].ring[p].esp == top - 13
    requires p < |states[0].stacks| && states[0].stacks[p].lo <= top - 14 && top <= states[0].stacks[p].hi
    requires forall k :: 0 <= k < j ==> !Picked(Rings(states), events, p, k)
    requires Picked(Rings(states), events, p, j)
    ensures states[j + 1].cpu == Started(top, entry)
    ensures var cpu := states[j + 1].cpu;
            && cpu.eip == entry && cpu.esp == top - 2 && cpu.eflags / 0x200 % 2 == 1 && cpu.cs == 0x10
            && cpu.eax == cpu.ebx == cpu.ecx == cpu.edx == cpu.edi == cpu.esi == cpu.ebp == 0
    ensures top <= |states[j + 1].mem| && states[j + 1].mem[top - 2] == killCurrent
    ensures states[j + 1].mem[top - 1] == data
  {
    hide SystemRun, SystemStep, Picked, Position, Moved, Rings, Decode, WellFormed;
    RunStates(states, events);
    RunStep(states, events, j);
    RunKeepsStacks(states, events, 0);
    StackInMemory(states[0]);
    PositionAtStart(states, events, p);
    OneMove(states, events, p, j);
    WaitingThread(states, events, p, 0, j);
    var r := Position(Rings(states), events, p, j);
    assert Within(top - 2, states[0].stacks[p]) && Within(top - 1, states[0].stacks[p]);
    FrameKept(states[0], p, states[j], r);
    PickDecodes(states[j], events[j], states[j + 1], r);
    WaitingKept(states[j], events[j], states[j + 1], r);
  }
}
