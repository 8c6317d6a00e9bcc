/**
 * What every run of the scheduler keeps. A terminal's processes form a chain: its
 * root shell, the program that shell runs, the program that one runs, and so on.
 */
module Processes {
  import opened Kernel

  datatype Event = Tick | Execute(ok: bool) | Halt

  function Step(s: State, e: Event): (s': State)
    requires s.Shaped()
    ensures s'.Shaped()
  {
    match e
    case Tick => Ticked(s)
    case Execute(ok) => Exec(s, ok)
    case Halt => Halted(s)
  }

  function Run(s: State, es: seq<Event>): (s': State)
    requires s.Shaped()
    ensures s'.Shaped()
    decreases |es|
  {
    if es == [] then s else Run(Step(s, es[0]), es[1..])
  }

  /** execute passes its checks and starts a process. */
  predicate Accepts(s: State, e: Event) {
    e == Execute(true) && s.total < MAX_TASKS
  }

  /** An accepted execute finds a free pid, and the process that halts is no root shell. */
  predicate Allowed(s: State, e: Event) {
    && (Accepts(s, e) ==> FirstZero(s.bits) < SLOTS)
    && (e == Halt ==> s.running > 3)
  }

  predicate AllAllowed(s: State, es: seq<Event>)
    requires s.Shaped()
    decreases |es|
  {
    es == [] || (Allowed(s, es[0]) && AllAllowed(Step(s, es[0]), es[1..]))
  }

  // ---------------------------------------------------------------- chains

  type Chains = c: seq<seq<int>> | |c| == 3 witness [[], [], []]

  function Live(ch: Chains): nat { |ch[0]| + |ch[1]| + |ch[2]| }

  function Last(c: seq<int>): int { if c == [] then 0 else c[|c| - 1] }

  /** The j-th process of a chain holds its pid, and its parent is the one before it. */
  ghost predicate Member(bits: seq<int>, memory: map<int, PCB>, c: seq<int>, j: int)
    requires |bits| == SLOTS && 0 <= j < |c|
  {
    && 1 <= c[j] <= SLOTS
    && (j > 0 ==> c[j] > 3)
    && bits[c[j] - 1] == 1
    && PcbAddr(c[j]) in memory
    && memory[PcbAddr(c[j])] == PCB(c[j], if j == 0 then -1 else PcbAddr(c[j - 1]), StackTop(c[j]))
  }

  ghost predicate IsChain(bits: seq<int>, memory: map<int, PCB>, c: seq<int>, root: int)
    requires |bits| == SLOTS
  {
    && c != [] && c[0] == root
    && forall j :: 0 <= j < |c| ==> Member(bits, memory, c, j)
  }

  /** No pid occurs twice, in one chain or in two. */
  ghost predicate Distinct(ch: Chains) {
    forall i, j, k, l ::
      0 <= i < 3 && 0 <= j < |ch[i]| && 0 <= k < 3 && 0 <= l < |ch[k]| && ch[i][j] == ch[k][l] ==> i == k && j == l
  }

  /** The processes are three disjoint chains from the three root shells. */
  ghost predicate ChainsHold(bits: seq<int>, memory: map<int, PCB>, ch: Chains) {
    && |bits| == SLOTS
    && (forall k :: 0 <= k < SLOTS ==> bits[k] == 0 || bits[k] == 1)
    && (forall i :: 0 <= i < 3 ==> IsChain(bits, memory, ch[i], i + 1))
    && Distinct(ch)
  }

  /** The occupied slots hold exactly the last members of the chains. */
  ghost predicate LeavesInSlots(slots: seq<int>, ch: Chains) {
    && |slots| == SLOTS
    && (forall i :: 0 <= i < 3 ==> slots[i] == Last(ch[i]))
    && (forall i :: 3 <= i < SLOTS ==> slots[i] == -1)
  }

  /** The running process is the one of the current slot, with its own page and kernel stack. */
  predicate RunsCurrent(s: State) {
    && s.Shaped() && 0 <= s.current < 3
    && s.running == s.slots[s.current]
    && s.pageEntry == PageEntry(s.running)
    && s.esp0 == StackTop(s.running)
  }

  ghost predicate Inv(s: State, ch: Chains) {
    && s.started
    && RunsCurrent(s)
    && ChainsHold(s.bits, s.memory, ch)
    && LeavesInSlots(s.slots, ch)
    && s.total == 1 + Live(ch) && s.total <= MAX_TASKS
  }

  /** The chains after an event: execute adds a member to the current chain, halt takes its last one. */
  function StepChains(s: State, ch: Chains, e: Event): Chains
    requires s.Shaped()
  {
    if !(0 <= s.current < 3) then ch
    else if Accepts(s, e) then Pushed(ch, s.current, FirstZero(s.bits) + 1)
    else if e == Halt && ch[s.current] != [] then Popped(ch, s.current)
    else ch
  }

  function RunChains(s: State, ch: Chains, es: seq<Event>): Chains
    requires s.Shaped()
    decreases |es|
  {
    if es == [] then ch else RunChains(Step(s, es[0]), StepChains(s, ch, es[0]), es[1..])
  }

  // ---------------------------------------------------------------- boot

  /** The state after boot. */
  function Booted(): (s: State)
    ensures s.Shaped()
  {
    Ticked(Ticked(Ticked(Initial())))
  }

  /** The chain of a root shell alone. */
  function Root(j: int): seq<int> { [j + 1] }

  /** k root shells have been started. */
  ghost predicate Booting(s: State, k: int) {
    && 0 <= k <= 3 && s.Shaped()
    && (forall j :: 0 <= j < SLOTS ==> s.bits[j] == if j < k then 1 else 0)
    && (forall j :: 0 <= j < SLOTS ==> s.slots[j] == if j < k then j + 1 else -1)
    && (forall j :: 0 <= j < k ==> Member(s.bits, s.memory, Root(j), 0))
    && s.terminal == 3 - k && s.started == (k == 3) && s.total == 1 + k && Sum(s.bits) == k
    && s.current == k - 1
    && (k > 0 ==> RunsCurrent(s))
  }

  lemma {:induction false} BootTick(s: State, k: int)
    requires Booting(s, k) && k < 3
    ensures Booting(Ticked(s), k + 1)
  {
    assert s.bits[k] == 0 && s.slots[k] == -1;
    SumUpdate(s.bits, k, 1);
    assert FirstZero(s.bits) == k && FirstEmpty(s.slots) == k;
    forall j | 0 <= j < k ensures Member(s.bits[k := 1], Ticked(s).memory, Root(j), 0) {
      assert Member(s.bits, s.memory, Root(j), 0);
      assert PcbAddr(j + 1) != PcbAddr(k + 1);
    }
  }

  lemma {:induction false} NothingStarted(s: State)
    requires s == Initial()
    ensures Booting(s, 0)
  {
    SumOfZeros(s.bits);
  }

  lemma {:induction false} ThreeTicks(s: State)
    requires Booting(s, 0)
    ensures Booting(Ticked(Ticked(Ticked(s))), 3)
  {
    BootTick(s, 0);
    BootTick(Ticked(s), 1);
    BootTick(Ticked(Ticked(s)), 2);
  }

  lemma {:induction false} BootTicks()
    ensures Booting(Booted(), 3)
  {
    NothingStarted(Initial());
    ThreeTicks(Initial());
  }

  /** Three ticks start the three root shells, and from there the invariant holds. */
  lemma {:induction false} Boot()
    ensures Inv(Booted(), [[1], [2], [3]]) && Sum(Booted().bits) == 3
  {
    BootTicks();
    BootDone(Booted());
  }

  lemma {:induction false} BootDone(s: State)
    requires Booting(s, 3)
    ensures Inv(s, [[1], [2], [3]])
  {
    assert Member(s.bits, s.memory, Root(0), 0) && Member(s.bits, s.memory, Root(1), 0)
        && Member(s.bits, s.memory, Root(2), 0);
  }

  // ---------------------------------------------------------------- one step

  /** The last member of a chain. */
  lemma {:induction false} Leaf(s: State, ch: Chains, i: int)
    requires Inv(s, ch) && 0 <= i < 3
    ensures ch[i] != [] && s.slots[i] == ch[i][|ch[i]| - 1] && 1 <= s.slots[i] <= SLOTS
    ensures Member(s.bits, s.memory, ch[i], |ch[i]| - 1)
  {
    assert IsChain(s.bits, s.memory, ch[i], i + 1);
    assert Member(s.bits, s.memory, ch[i], |ch[i]| - 1);
  }

  lemma {:induction false} TickKeeps(s: State, ch: Chains)
    requires Inv(s, ch)
    ensures Inv(Ticked(s), ch)
  {
    Leaf(s, ch, 0);
    SomeoneIsNext(s.slots, s.current);
  }

  /** The running process occupies the current slot and no other. */
  lemma {:induction false} SlotIsCurrent(s: State, ch: Chains)
    requires Inv(s, ch)
    ensures 1 <= s.running <= SLOTS && s.Self().pid == s.running
    ensures SlotOf(s.slots, s.running) == s.current
  {
    Leaf(s, ch, s.current);
    forall i | 0 <= i < s.current ensures s.slots[i] != s.running {
      Leaf(s, ch, i);
    }
  }

  /** A new pid is a child's and is held by no member of a chain. */
  lemma {:induction false} PidIsFresh(bits: seq<int>, memory: map<int, PCB>, ch: Chains)
    requires ChainsHold(bits, memory, ch) && FirstZero(bits) < SLOTS
    ensures FirstZero(bits) >= 3
    ensures forall i, j :: 0 <= i < 3 && 0 <= j < |ch[i]| ==> ch[i][j] != FirstZero(bits) + 1
  {
    forall i, j | 0 <= i < 3 && 0 <= j < |ch[i]| ensures ch[i][j] != FirstZero(bits) + 1 {
      assert IsChain(bits, memory, ch[i], i + 1);
      assert Member(bits, memory, ch[i], j);
    }
    assert IsChain(bits, memory, ch[0], 1) && IsChain(bits, memory, ch[1], 2) && IsChain(bits, memory, ch[2], 3);
    assert Member(bits, memory, ch[0], 0) && Member(bits, memory, ch[1], 0) && Member(bits, memory, ch[2], 0);
  }

  function Pushed(ch: Chains, i: int, pid: int): Chains
    requires 0 <= i < 3
  {
    ch[i := ch[i] + [pid]]
  }

  function Popped(ch: Chains, i: int): Chains
    requires 0 <= i < 3 && ch[i] != []
  {
    ch[i := ch[i][..|ch[i]| - 1]]
  }

  lemma {:induction false} PushDistinct(ch: Chains, i: int, pid: int)
    requires 0 <= i < 3 && Distinct(ch)
    requires forall k, l :: 0 <= k < 3 && 0 <= l < |ch[k]| ==> ch[k][l] != pid
    ensures Distinct(Pushed(ch, i, pid))
  {
    var d := Pushed(ch, i, pid);
    forall a, b, k, l | 0 <= a < 3 && 0 <= b < |d[a]| && 0 <= k < 3 && 0 <= l < |d[k]| && d[a][b] == d[k][l]
      ensures a == k && b == l
    {
      assert b < |ch[a]| ==> d[a][b] == ch[a][b];
      assert l < |ch[k]| ==> d[k][l] == ch[k][l];
    }
  }

  lemma {:induction false} PushChain(bits: seq<int>, memory: map<int, PCB>, ch: Chains, i: int)
    requires ChainsHold(bits, memory, ch) && 0 <= i < 3 && FirstZero(bits) < SLOTS
    ensures var pid := FirstZero(bits) + 1;
      ChainsHold(bits[pid - 1 := 1], memory[PcbAddr(pid) := PCB(pid, PcbAddr(Last(ch[i])), StackTop(pid))],
                 Pushed(ch, i, pid))
  {
    PidIsFresh(bits, memory, ch);
    var pid := FirstZero(bits) + 1;
    PushDistinct(ch, i, pid);
    var bits', memory' := bits[pid - 1 := 1], memory[PcbAddr(pid) := PCB(pid, PcbAddr(Last(ch[i])), StackTop(pid))];
    var d := Pushed(ch, i, pid);
    forall k | 0 <= k < 3 ensures IsChain(bits', memory', d[k], k + 1) {
      assert IsChain(bits, memory, ch[k], k + 1);
      forall j | 0 <= j < |d[k]| ensures Member(bits', memory', d[k], j) {
        if j < |ch[k]| {
          assert Member(bits, memory, ch[k], j);
          assert PcbAddr(ch[k][j]) != PcbAddr(pid);
        }
      }
    }
  }

  lemma {:induction false} PopChain(bits: seq<int>, memory: map<int, PCB>, ch: Chains, i: int)
    requires ChainsHold(bits, memory, ch) && 0 <= i < 3 && |ch[i]| > 1
    ensures ChainsHold(bits, memory, Popped(ch, i))
  {
    var d := Popped(ch, i);
    forall k | 0 <= k < 3 ensures IsChain(bits, memory, d[k], k + 1) {
      assert IsChain(bits, memory, ch[k], k + 1);
      forall j | 0 <= j < |d[k]| ensures Member(bits, memory, d[k], j) {
        assert Member(bits, memory, ch[k], j);
      }
    }
    forall a, b, k, l | 0 <= a < 3 && 0 <= b < |d[a]| && 0 <= k < 3 && 0 <= l < |d[k]| && d[a][b] == d[k][l]
      ensures a == k && b == l
    {
      assert d[a][b] == ch[a][b] && d[k][l] == ch[k][l];
    }
  }

  lemma {:induction false} SpawnKeeps(s: State, ch: Chains)
    requires Inv(s, ch) && FirstZero(s.bits) < SLOTS && s.total < MAX_TASKS
    ensures Inv(Spawn(s), Pushed(ch, s.current, FirstZero(s.bits) + 1))
  {
    SlotIsCurrent(s, ch);
    PidIsFresh(s.bits, s.memory, ch);
    PushChain(s.bits, s.memory, ch, s.current);
    assert s.running == Last(ch[s.current]);
  }

  /** halt of a child gives everything that was the child's to its parent, and changes nothing else. */
  lemma {:induction false} HaltEffect(s: State, ch: Chains)
    requires Inv(s, ch) && s.running > 3
    ensures |ch[s.current]| > 1
    ensures var parent := ch[s.current][|ch[s.current]| - 2];
      Halted(s) == s.(total := s.total - 1, slots := s.slots[s.current := parent],
                      pageEntry := PageEntry(parent), esp0 := StackTop(parent), running := parent)
  {
    var c := ch[s.current];
    Leaf(s, ch, s.current);
    assert IsChain(s.bits, s.memory, c, s.current + 1);
    assert |c| > 1;
    assert Member(s.bits, s.memory, c, |c| - 2);
    SlotIsCurrent(s, ch);
    assert s.PcbAt(s.Self().parentAddr) == s.memory[PcbAddr(c[|c| - 2])];
  }

  lemma {:induction false} HaltKeeps(s: State, ch: Chains)
    requires Inv(s, ch) && s.running > 3
    ensures |ch[s.current]| > 1 && Inv(Halted(s), Popped(ch, s.current))
  {
    HaltEffect(s, ch);
    PopChain(s.bits, s.memory, ch, s.current);
  }

  /** Every allowed step keeps the invariant. */
  lemma {:induction false} StepKeeps(s: State, ch: Chains, e: Event)
    requires Inv(s, ch) && Allowed(s, e)
    ensures Inv(Step(s, e), StepChains(s, ch, e))
  {
    match e
    case Tick => TickKeeps(s, ch);
    case Execute(ok) => if Accepts(s, e) { SpawnKeeps(s, ch); }
    case Halt => HaltKeeps(s, ch);
  }

  /** In every state that an allowed run reaches the processes are three chains, as Inv says. */
  lemma {:induction false} RunKeeps(s: State, ch: Chains, es: seq<Event>)
    requires Inv(s, ch) && AllAllowed(s, es)
    ensures Inv(Run(s, es), RunChains(s, ch, es))
    decreases |es|
  {
    if es == [] {
    } else {
      StepKeeps(s, ch, es[0]);
      RunKeeps(Step(s, es[0]), StepChains(s, ch, es[0]), es[1..]);
    }
  }

  // ---------------------------------------------------------------- blocked processes

  ghost predicate IsLive(ch: Chains, p: int) {
    exists i, j :: 0 <= i < 3 && 0 <= j < |ch[i]| && ch[i][j] == p
  }

  /** q was started by p and has not halted. */
  ghost predicate IsChild(s: State, ch: Chains, q: int, p: int) {
    IsLive(ch, q) && q > 3 && PcbAddr(q) in s.memory && s.memory[PcbAddr(q)].parentAddr == PcbAddr(p)
  }

  /**
   * A live process is in a scheduler slot exactly when it has no live child: one that
   * waits inside execute is never chosen by a tick, and every other one can be.
   */
  lemma {:induction false} ScheduledIffLeaf(s: State, ch: Chains, p: int)
    requires Inv(s, ch) && IsLive(ch, p)
    ensures p in s.slots <==> !exists q :: IsChild(s, ch, q, p)
  {
    var i, j :| 0 <= i < 3 && 0 <= j < |ch[i]| && ch[i][j] == p;
    assert IsChain(s.bits, s.memory, ch[i], i + 1);
    assert Member(s.bits, s.memory, ch[i], j);
    if j == |ch[i]| - 1 {
      assert s.slots[i] == p;
      forall q ensures !IsChild(s, ch, q, p) {
        if IsChild(s, ch, q, p) {
          LeafHasNoChild(s, ch, i, q);
        }
      }
    } else {
      assert Member(s.bits, s.memory, ch[i], j + 1);
      assert IsChild(s, ch, ch[i][j + 1], p);
      forall k | 0 <= k < SLOTS ensures s.slots[k] != p {
        if k < 3 {
          Leaf(s, ch, k);
        }
      }
    }
  }

  lemma {:induction false} LeafHasNoChild(s: State, ch: Chains, i: int, q: int)
    requires Inv(s, ch) && 0 <= i < 3 && IsLive(ch, q) && q > 3
    ensures PcbAddr(q) in s.memory && s.memory[PcbAddr(q)].parentAddr != PcbAddr(s.slots[i])
  {
    var k, l :| 0 <= k < 3 && 0 <= l < |ch[k]| && ch[k][l] == q;
    assert IsChain(s.bits, s.memory, ch[k], k + 1);
    assert Member(s.bits, s.memory, ch[k], l);
    Leaf(s, ch, i);
    if l > 0 {
      assert ch[k][l - 1] != ch[i][|ch[i]| - 1];
    }
  }

  // ---------------------------------------------------------------- pids

  function Sum(b: seq<int>): int {
    if b == [] then 0 else b[0] + Sum(b[1..])
  }

  function Count(es: seq<Event>, e: Event): nat {
    if es == [] then 0 else (if es[0] == e then 1 else 0) + Count(es[1..], e)
  }

  lemma {:induction false} SumUpdate(b: seq<int>, k: nat, x: int)
    requires k < |b|
    ensures Sum(b[k := x]) == Sum(b) - b[k] + x
  {
    if k == 0 {
      assert b[k := x][1..] == b[1..];
    } else {
      SumUpdate(b[1..], k - 1, x);
      assert b[k := x][1..] == b[1..][k - 1 := x];
    }
  }

  lemma {:induction false} SumOfBits(b: seq<int>)
    requires forall k :: 0 <= k < |b| ==> b[k] == 0 || b[k] == 1
    ensures 0 <= Sum(b) <= |b| && (Sum(b) == |b| <==> FirstZero(b) == |b|)
  {
    if b == [] {
    } else {
      SumOfBits(b[1..]);
    }
  }

  /**
   * No pid of a child is ever given back: the set bits are the live processes and
   * the children that have halted.
   */
  lemma {:induction false} BitsCount(s: State, ch: Chains, es: seq<Event>)
    requires Inv(s, ch) && AllAllowed(s, es)
    ensures Sum(Run(s, es).bits) - Run(s, es).total == Sum(s.bits) - s.total + Count(es, Halt)
    decreases |es|
  {
    if es == [] {
    } else {
      StepKeeps(s, ch, es[0]);
      if Accepts(s, es[0]) {
        SumUpdate(s.bits, FirstZero(s.bits), 1);
      } else if es[0] == Halt {
        SlotIsCurrent(s, ch);
      }
      BitsCount(Step(s, es[0]), StepChains(s, ch, es[0]), es[1..]);
    }
  }

  /**
   * After any allowed run from boot the set bits are the live processes and the halted
   * children; so an execute that passes the checks finds a free pid if and only if
   * these are fewer than seven: the eighth process of a session has no pid.
   */
  lemma {:induction false} FreePid(es: seq<Event>)
    requires AllAllowed(Booted(), es)
    ensures var s := Run(Booted(), es);
      && Sum(s.bits) == s.total - 1 + Count(es, Halt)
      && (FirstZero(s.bits) < 7 <==> s.total - 1 + Count(es, Halt) < 7)
  {
    Boot();
    RunKeeps(Booted(), [[1], [2], [3]], es);
    BitsCount(Booted(), [[1], [2], [3]], es);
    SumOfBits(Run(Booted(), es).bits);
  }

  lemma {:induction false} SumOfZeros(b: seq<int>)
    requires forall k :: 0 <= k < |b| ==> b[k] == 0
    ensures Sum(b) == 0
  {
    if b == [] {
    } else {
      SumOfZeros(b[1..]);
    }
  }
}
