/** What a call of execute and the halt that answers it leave behind, and where processes live in memory. */
module Sessions {
  import opened Kernel
  import opened Processes

  // ---------------------------------------------------------------- call and return

  /** A process that has halted never comes back: its pid is not given out again. */
  lemma {:induction false} NeverBack(s: State, ch: Chains, es: seq<Event>, p: int)
    requires Inv(s, ch) && AllAllowed(s, es)
    requires 1 <= p <= SLOTS && s.bits[p - 1] == 1 && !IsLive(ch, p)
    ensures !IsLive(RunChains(s, ch, es), p)
    decreases |es|
  {
    if es == [] {
    } else {
      StepKeeps(s, ch, es[0]);
      NotRevived(s, ch, es[0], p);
      NeverBack(Step(s, es[0]), StepChains(s, ch, es[0]), es[1..], p);
    }
  }

  lemma {:induction false} NotRevived(s: State, ch: Chains, e: Event, p: int)
    requires Inv(s, ch) && Allowed(s, e)
    requires 1 <= p <= SLOTS && s.bits[p - 1] == 1 && !IsLive(ch, p)
    ensures !IsLive(StepChains(s, ch, e), p) && Step(s, e).bits[p - 1] == 1
  {
    var ch' := StepChains(s, ch, e);
    forall i, j | 0 <= i < 3 && 0 <= j < |ch'[i]| ensures ch'[i][j] != p {
      if j < |ch[i]| {
        assert ch'[i][j] == ch[i][j];
      }
    }
    if e == Halt {
      SlotIsCurrent(s, ch);
    }
  }

  /** A step changes a chain only at its end. */
  lemma {:induction false} StepPrefix(s: State, ch: Chains, e: Event, i: int, j: int)
    requires Inv(s, ch) && Allowed(s, e) && 0 <= i < 3 && 0 <= j < |ch[i]|
    ensures KeepsOrEnds(ch, StepChains(s, ch, e), i, j)
    ensures 1 <= ch[i][j] <= SLOTS && Step(s, e).bits[ch[i][j] - 1] == 1
  {
    assert IsChain(s.bits, s.memory, ch[i], i + 1);
    assert Member(s.bits, s.memory, ch[i], j);
    if e == Halt {
      HaltEffect(s, ch);
      PoppedPrefix(ch, s.current, i, j);
    }
  }

  /** The chain up to process j is as it was, or that process does not live any more. */
  ghost predicate KeepsOrEnds(ch: Chains, ch': Chains, i: int, j: int)
    requires 0 <= i < 3 && 0 <= j < |ch[i]|
  {
    SameUpTo(ch, ch', i, j) || !IsLive(ch', ch[i][j])
  }

  ghost predicate SameUpTo(ch: Chains, ch': Chains, i: int, j: int)
    requires 0 <= i < 3 && 0 <= j < |ch[i]|
  {
    |ch'[i]| > j && ch'[i][..j + 1] == ch[i][..j + 1]
  }

  lemma {:induction false} SameMember(ch: Chains, ch': Chains, i: int, j: int)
    requires 0 <= i < 3 && 0 <= j < |ch[i]| && SameUpTo(ch, ch', i, j)
    ensures ch'[i][j] == ch[i][j]
  {
    assert ch'[i][j] == ch'[i][..j + 1][j];
  }

  lemma {:induction false} PoppedPrefix(ch: Chains, c: int, i: int, j: int)
    requires 0 <= c < 3 && |ch[c]| > 1 && Distinct(ch) && 0 <= i < 3 && 0 <= j < |ch[i]|
    ensures KeepsOrEnds(ch, Popped(ch, c), i, j)
  {
    var ch' := Popped(ch, c);
    if |ch'[i]| <= j {
      forall k, l | 0 <= k < 3 && 0 <= l < |ch'[k]| ensures ch'[k][l] != ch[i][j] {
        assert ch'[k][l] == ch[k][l];
      }
    }
  }

  /** While a process lives, it and its ancestors keep their places in their chain. */
  lemma {:induction false} AncestorsStay(s: State, ch: Chains, es: seq<Event>, i: int, j: int)
    requires Inv(s, ch) && AllAllowed(s, es) && 0 <= i < 3 && 0 <= j < |ch[i]|
    requires IsLive(RunChains(s, ch, es), ch[i][j])
    ensures SameUpTo(ch, RunChains(s, ch, es), i, j)
    decreases |es|
  {
    if es == [] {
    } else {
      var s', ch' := Step(s, es[0]), StepChains(s, ch, es[0]);
      StepKeeps(s, ch, es[0]);
      StepPrefix(s, ch, es[0], i, j);
      if SameUpTo(ch, ch', i, j) {
        SameMember(ch, ch', i, j);
        AncestorsStay(s', ch', es[1..], i, j);
      } else {
        NeverBack(s', ch', es[1..], ch[i][j]);
      }
    }
  }

  /** When the child runs again, after any run, its chain is the one that its start left. */
  lemma {:induction false} ChildRunsAgain(s: State, ch: Chains, es: seq<Event>)
    requires Inv(s, ch) && AllAllowed(s, es) && Run(s, es).running == s.running
    ensures var s', ch' := Run(s, es), RunChains(s, ch, es);
      Inv(s', ch') && s'.current == s.current && ch'[s.current] == ch[s.current]
  {
    var s', ch' := Run(s, es), RunChains(s, ch, es);
    var i, j := s.current, |ch[s.current]| - 1;
    RunKeeps(s, ch, es);
    ChildIsLeaf(s', ch', s.running);
    Leaf(s, ch, i);
    AncestorsStay(s, ch, es, i, j);
    assert ch'[i][j] == ch'[i][..j + 1][j] == ch[i][j];
    WhereItRuns(s', ch', i, j);
    assert ch'[i] == ch'[i][..j + 1] && ch[i] == ch[i][..j + 1];
  }

  /** The same process runs in the same slot, with the same page and kernel stack. */
  predicate SameTask(s: State, t: State) {
    && s.Shaped() && t.Shaped() && t.current == s.current && s.current >= 0
    && t.slots[s.current] == s.slots[s.current]
    && t.running == s.running && t.pageEntry == s.pageEntry && t.esp0 == s.esp0
  }

  /**
   * A process executes a child; after any run of ticks, executes and halts, on this
   * terminal and the others, the child runs again and halts. Then slot, page, kernel
   * stack and chain of the caller are what they were and the caller runs. (By
   * CallEffect and ReturnEffect neither the call nor the return touches another slot.)
   */
  lemma {:induction false} CallReturns(s: State, ch: Chains, es: seq<Event>)
    requires Inv(s, ch) && Accepts(s, Execute(true)) && FirstZero(s.bits) < SLOTS
    requires AllAllowed(Spawn(s), es) && Run(Spawn(s), es).running == Spawn(s).running
    ensures var s1, i := Spawn(s), s.current;
      var s2, ch2 := Run(s1, es), RunChains(s1, StepChains(s, ch, Execute(true)), es);
      var s3 := Halted(s2);
      && 0 <= i < 3 && ch2[i] != [] && Inv(s3, Popped(ch2, i)) && Popped(ch2, i)[i] == ch[i]
      && SameTask(s, s3)
  {
    var s1, ch1 := Spawn(s), StepChains(s, ch, Execute(true));
    CallEffect(s, ch);
    var s2, ch2 := Run(s1, es), RunChains(s1, ch1, es);
    ChildRunsAgain(s1, ch1, es);
    ReturnEffect(s2, ch2, ch[s.current], s1.running);
  }

  /** halt hands the slot back to the caller, the last of the chain c below the child, and changes no other. */
  lemma {:induction false} ReturnEffect(s: State, ch: Chains, c: seq<int>, pid: int)
    requires Inv(s, ch) && s.running > 3 && c != [] && ch[s.current] == c + [pid]
    ensures var t, caller := Halted(s), Last(c);
      && Inv(t, Popped(ch, s.current)) && Popped(ch, s.current)[s.current] == c
      && t.running == caller && t.pageEntry == PageEntry(caller) && t.esp0 == StackTop(caller)
      && t.current == s.current && t.slots == s.slots[s.current := caller] && t.total == s.total - 1
  {
    HaltKeeps(s, ch);
    HaltEffect(s, ch);
    assert Popped(ch, s.current)[s.current] == c;
  }

  /** execute enters the child in the caller's slot and changes no other. */
  lemma {:induction false} CallEffect(s: State, ch: Chains)
    requires Inv(s, ch) && Accepts(s, Execute(true)) && FirstZero(s.bits) < SLOTS
    ensures var s1, ch1, pid := Spawn(s), StepChains(s, ch, Execute(true)), FirstZero(s.bits) + 1;
      && Inv(s1, ch1) && ch1[s.current] == ch[s.current] + [pid]
      && s1.running == pid > 3 && s1.current == s.current && s1.total == s.total + 1
      && s1.slots == s.slots[s.current := pid]
    ensures s.running == Last(ch[s.current]) && ch[s.current] != []
  {
    Leaf(s, ch, s.current);
    StepKeeps(s, ch, Execute(true));
    PidIsFresh(s.bits, s.memory, ch);
    SlotIsCurrent(s, ch);
  }

  lemma {:induction false} ChildIsLeaf(s: State, ch: Chains, p: int)
    requires Inv(s, ch) && s.running == p
    ensures IsLive(ch, p)
  {
    Leaf(s, ch, s.current);
    assert ch[s.current][|ch[s.current]| - 1] == p;
  }

  /** The running process is the last of the current chain, so its place tells the chain and its length. */
  lemma {:induction false} WhereItRuns(s: State, ch: Chains, i: int, j: int)
    requires Inv(s, ch) && 0 <= i < 3 && 0 <= j < |ch[i]| && ch[i][j] == s.running
    ensures s.current == i && |ch[i]| == j + 1
  {
    Leaf(s, ch, s.current);
  }

  // ---------------------------------------------------------------- root shells

  /** The exit of a root shell puts its pid into a second slot. */
  lemma {:induction false} RootExit(s: State, ch: Chains)
    requires Inv(s, ch) && s.running <= 3
    ensures var t := Halted(s);
      && t.running == s.running && t.slots[s.current] == s.running && t.current == 3 && t.slots[3] == s.running
      && t.total == s.total && t.bits == s.bits
  {
    SlotIsCurrent(s, ch);
    var p := s.running;
    forall k | 0 <= k < 3 ensures s.bits[k] == 1 && s.slots[k] > 0 {
      assert IsChain(s.bits, s.memory, ch[k], k + 1);
      assert Member(s.bits, s.memory, ch[k], 0);
      Leaf(s, ch, k);
    }
    var r := s.(total := s.total - 1, bits := s.bits[p - 1 := 0]);
    assert r.bits[p - 1] == 0;
    assert FirstZero(r.bits) == p - 1;
    assert s.slots[3] == -1;
    assert FirstEmpty(r.slots) == 3;
  }

  /** halt keeps the chains and the slots in order if and only if the process that halts is no root shell. */
  lemma {:induction false} HaltKeepsIff(s: State, ch: Chains)
    requires Inv(s, ch)
    ensures (exists ch' :: Inv(Halted(s), ch')) <==> s.running > 3
  {
    if s.running > 3 {
      HaltKeeps(s, ch);
    } else {
      RootExit(s, ch);
      SlotIsCurrent(s, ch);
    }
  }

  // ---------------------------------------------------------------- pids run out

  /** A process is started and halts, n times. */
  function Visits(n: nat): seq<Event> {
    if n == 0 then [] else Visits(n - 1) + [Execute(true)] + [Halt]
  }

  lemma {:induction false} RunLast(s: State, es: seq<Event>, e: Event)
    requires s.Shaped()
    ensures Run(s, es + [e]) == Step(Run(s, es), e)
    ensures AllAllowed(s, es + [e]) <==> AllAllowed(s, es) && Allowed(Run(s, es), e)
    ensures Count(es + [e], Halt) == Count(es, Halt) + if e == Halt then 1 else 0
    decreases |es|
  {
    var all := es + [e];
    if es == [] {
      assert all[1..] == [];
    } else {
      assert all[1..] == es[1..] + [e];
      RunLast(Step(s, es[0]), es[1..], e);
    }
  }

  lemma {:induction false} ChildStarts(s: State, ch: Chains)
    requires Inv(s, ch) && s.total < MAX_TASKS && FirstZero(s.bits) < SLOTS
    ensures Allowed(s, Execute(true)) && Allowed(Step(s, Execute(true)), Halt)
    ensures Step(s, Execute(true)).total == s.total + 1
  {
    CallEffect(s, ch);
  }

  lemma {:induction false} ChildHalts(s: State, ch: Chains)
    requires Inv(s, ch) && s.running > 3
    ensures Step(s, Halt).total == s.total - 1
  {
    HaltEffect(s, ch);
  }

  /** After a run from b with these counts. */
  ghost predicate Visited(b: State, es: seq<Event>, n: nat)
    requires b.Shaped()
  {
    AllAllowed(b, es) && Run(b, es).total == b.total && Count(es, Halt) == n
  }

  lemma {:induction false} BitsLeft(b: State, ch: Chains, es: seq<Event>, n: nat)
    requires Inv(b, ch) && Visited(b, es, n)
    ensures Inv(Run(b, es), RunChains(b, ch, es))
    ensures FirstZero(Run(b, es).bits) < SLOTS <==> Sum(b.bits) + n < SLOTS
  {
    RunKeeps(b, ch, es);
    BitsCount(b, ch, es);
    SumOfBits(Run(b, es).bits);
  }

  /** A process more that is started and halts. */
  lemma {:induction false} OneVisit(b: State, ch: Chains, es: seq<Event>, n: nat)
    requires Inv(b, ch) && b.total < MAX_TASKS && Visited(b, es, n) && Sum(b.bits) + n < SLOTS
    ensures Visited(b, es + [Execute(true)] + [Halt], n + 1)
  {
    var es1 := es + [Execute(true)];
    BitsLeft(b, ch, es, n);
    ChildStarts(Run(b, es), RunChains(b, ch, es));
    RunLast(b, es, Execute(true));
    RunKeeps(b, ch, es1);
    ChildHalts(Run(b, es1), RunChains(b, ch, es1));
    RunLast(b, es1, Halt);
  }

  lemma {:induction false} VisitsRun(b: State, ch: Chains, n: nat)
    requires Inv(b, ch) && b.total < MAX_TASKS && Sum(b.bits) + n <= SLOTS
    ensures Visited(b, Visits(n), n)
  {
    if n == 0 {
    } else {
      VisitsRun(b, ch, n - 1);
      OneVisit(b, ch, Visits(n - 1), n - 1);
    }
  }

  lemma {:induction false} NoPidLeft(b: State, ch: Chains, n: nat)
    requires Inv(b, ch) && b.total < MAX_TASKS && Sum(b.bits) + n == SLOTS
    ensures AllAllowed(b, Visits(n))
    ensures var s := Run(b, Visits(n));
      s.total == b.total && Accepts(s, Execute(true)) && FirstZero(s.bits) == SLOTS && !Allowed(s, Execute(true))
  {
    VisitsRun(b, ch, n);
    BitsLeft(b, ch, Visits(n), n);
  }

  /**
   * After boot, four processes started and halted one after the other leave three shells,
   * room for three more processes, and no pid: the next execute passes its checks and
   * finds none.
   */
  lemma {:induction false} PidsRunOut()
    ensures AllAllowed(Booted(), Visits(4))
    ensures var s := Run(Booted(), Visits(4));
      s.total == 4 && Accepts(s, Execute(true)) && FirstZero(s.bits) == SLOTS && !Allowed(s, Execute(true))
  {
    Boot();
    NoPidLeft(Booted(), [[1], [2], [3]], 4);
  }

  // ---------------------------------------------------------------- how many processes live

  /**
   * While a pid is free, execute of an executable starts a process if and only if fewer
   * than six processes live; else it changes nothing.
   */
  lemma {:induction false} AcceptedIff(s: State, ch: Chains, k: nat)
    requires Inv(s, ch) && k < 7 && s.bits[k] == 0
    ensures Step(s, Execute(true)) != s <==> |ch[0]| + |ch[1]| + |ch[2]| < 6
    ensures |ch[0]| + |ch[1]| + |ch[2]| <= 6 && Step(s, Execute(false)) == s
  {
  }

  /** n executes of executables. */
  function Executes(n: nat): seq<Event> { seq(n, _ => Execute(true)) }

  /** The first n pids are given out. */
  ghost predicate Given(bits: seq<int>, n: nat) {
    |bits| == 7 && forall k :: 0 <= k < 7 ==> bits[k] == if k < n then 1 else 0
  }

  lemma {:induction false} NextPid(bits: seq<int>, n: nat)
    requires Given(bits, n) && n < 7
    ensures FirstZero(bits) == n && Given(bits[n := 1], n + 1)
  {
    assert bits[n] == 0;
  }

  /** With n executes behind boot. */
  ghost predicate NestedAt(s: State, ch: Chains, n: nat) {
    Inv(s, ch) && Given(s.bits, 3 + n) && s.total == 4 + n && s.running == 3 + n && s.current == 2
  }

  lemma {:induction false} OneNested(s: State, ch: Chains, n: nat)
    requires NestedAt(s, ch, n) && n < 3
    ensures NestedAt(Step(s, Execute(true)), StepChains(s, ch, Execute(true)), n + 1)
  {
    NextPid(s.bits, 3 + n);
    CallEffect(s, ch);
  }

  lemma {:induction false} Nested(b: State, ch: Chains, n: nat) returns (ch': Chains)
    requires NestedAt(b, ch, 0) && n <= 3
    ensures NestedAt(Run(b, Executes(n)), ch', n)
    decreases n
  {
    if n == 0 {
      ch' := ch;
    } else {
      var most := Nested(b, ch, n - 1);
      var s := Run(b, Executes(n - 1));
      assert Executes(n) == Executes(n - 1) + [Execute(true)];
      RunLast(b, Executes(n - 1), Execute(true));
      OneNested(s, most, n - 1);
      ch' := StepChains(s, most, Execute(true));
    }
  }

  lemma {:induction false} BootedIs(b: State)
    requires Booting(b, 3)
    ensures NestedAt(b, [[1], [2], [3]], 0)
  {
    BootDone(b);
  }

  lemma {:induction false} ThreeFit(b: State, ch: Chains)
    requires NestedAt(b, ch, 0)
    ensures forall n: nat :: n <= 3 ==> Run(b, Executes(n)).running == 3 + n
    ensures Run(b, Executes(4)) == Run(b, Executes(3))
  {
    forall n: nat | n <= 3 ensures Run(b, Executes(n)).running == 3 + n {
      var ch' := Nested(b, ch, n);
    }
    var d := Nested(b, ch, 3);
    assert Executes(4) == Executes(3) + [Execute(true)];
    RunLast(b, Executes(3), Execute(true));
    AcceptedIff(Run(b, Executes(3)), d, 6);
  }

  /** After boot three nested executes start the processes 4, 5 and 6, and a fourth is refused. */
  lemma {:induction false} ThreeNested(b: State)
    requires b == Booted()
    ensures forall n: nat :: n <= 3 ==> Run(b, Executes(n)).running == 3 + n
    ensures Run(b, Executes(4)) == Run(b, Executes(3))
  {
    BootTicks();
    BootedIs(b);
    ThreeFit(b, [[1], [2], [3]]);
  }

  // ---------------------------------------------------------------- memory

  /**
   * In every state that keeps the invariant the running process p has the frame at 8 MB +
   * (p - 1) 4 MB, mapped present, writable, for the user and as 4 MB; its kernel stack
   * ends at 8 MB - p 8 KB, and its control block lies 8 KB below that.
   */
  lemma {:induction false} AddressesAre(s: State, ch: Chains)
    requires Inv(s, ch)
    ensures 1 <= s.running <= 7 && s.pageEntry == 0x800000 + (s.running - 1) * 0x400000 + 0x87
    ensures s.esp0 == 0x800000 - s.running * 0x2000 && s.esp0 - 0x2000 in s.memory
    ensures s.memory[s.esp0 - 0x2000].pid == s.running && s.memory[s.esp0 - 0x2000].kernelStack == s.esp0
  {
    Leaf(s, ch, s.current);
  }

  /** Frames and kernel stacks of different processes do not meet; frames lie above the kernel page, stacks in it. */
  lemma {:induction false} ProcessesApart(p: int, q: int)
    requires 1 <= p <= SLOTS && 1 <= q <= SLOTS && p != q
    ensures FrameBase(p) + FOURMB <= FrameBase(q) || FrameBase(q) + FOURMB <= FrameBase(p)
    ensures StackTop(p) <= PcbAddr(q) || StackTop(q) <= PcbAddr(p)
    ensures FOURMB <= PcbAddr(p) < StackTop(p) < EIGHTMB <= FrameBase(p)
  {
  }

  /** current_PCB: clearing the low 13 bits of esp. */
  function CurrentPcb(esp: int): int { esp - esp % EIGHTKB }

  /** current_PCB gives the control block of a process exactly when esp is inside its stack, below the top. */
  lemma {:induction false} CurrentPcbIff(esp: int, p: int)
    ensures CurrentPcb(esp) == 0x800000 - (p + 1) * 0x2000 <==>
      0x800000 - (p + 1) * 0x2000 <= esp < 0x800000 - p * 0x2000
  {
    var k := esp / EIGHTKB;
    assert esp == k * EIGHTKB + esp % EIGHTKB;
    assert PcbAddr(p) == (1024 - p - 1) * EIGHTKB;
  }

  /** Translation through a 4 MB page-directory entry (section 4.3 of the Intel SDM, volume 3A). */
  function Translate(entry: int, linear: int): int { entry - entry % FOURMB + linear % FOURMB }

  /** In every state that keeps the invariant the user page shows the running process its own frame. */
  lemma {:induction false} UserPage(s: State, ch: Chains, linear: int)
    requires Inv(s, ch) && 0x8000000 <= linear < 0x8400000
    ensures s.pageEntry % 0x400000 == 0x87
    ensures Translate(s.pageEntry, linear) == 0x800000 + (s.running - 1) * 0x400000 + (linear - 0x8000000)
  {
    FrameAligned(s.running);
    assert linear % FOURMB == linear - 0x8000000;
  }

  lemma {:induction false} FrameAligned(p: int)
    ensures PageEntry(p) % FOURMB == USER_PAGE
  {
    assert PageEntry(p) == (p + 1) * FOURMB + USER_PAGE;
  }
}
