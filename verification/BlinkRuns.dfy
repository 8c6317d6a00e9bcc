/** Runs of the blink list: what they keep, how the timers go on, and what undoes what. */
module BlinkRuns {
  import opened Bytes
  import opened Arith
  import opened Blink

  datatype Op = Add(node: Node) | Remove(location: u16) | Sync(first: u16, second: u16) | Tick

  /** The state and the list after an operation. */
  datatype Held = Held(state: State, list: seq<nat>) {
    ghost predicate Good() { Inv(state, list) }
  }

  function Step(h: Held, op: Op): Held
    requires InPool(h.state.pool, h.list)
  {
    var s, xs := h.state, h.list;
    match op
    case Add(n) => Held(Added(s, n), if Adds(s, n) then [FirstFree(s.pool)] + xs else xs)
    case Remove(l) =>
      var k := Find(s.pool, xs, l);
      Held(Removed(s, xs, l), if k < |xs| then Without(xs, k) else xs)
    case Sync(a, b) => Held(Synced(s, xs, a, b), xs)
    case Tick => Held(Ticked(s, xs), xs)
  }

  /** The operation is no addition at location 0. */
  predicate Proper(op: Op) { op.Add? ==> op.node.location != 0 }

  lemma {:induction false} StepKeeps(h: Held, op: Op)
    requires h.Good() && Proper(op)
    ensures Step(h, op).Good()
  {
    var s, xs := h.state, h.list;
    match op
    case Add(n) => if Adds(s, n) { AddKeeps(s, xs, n); }
    case Remove(l) => if Find(s.pool, xs, l) < |xs| { RemoveKeeps(s, xs, Find(s.pool, xs, l)); }
    case Sync(a, b) => SyncKeeps(s, xs, a, b);
    case Tick => TickKeeps(s, xs);
  }

  ghost function Run(h: Held, ops: seq<Op>): (h': Held)
    requires h.Good() && forall i :: 0 <= i < |ops| ==> Proper(ops[i])
    ensures h'.Good()
    decreases |ops|
  {
    if ops == [] then h else StepKeeps(h, ops[0]); Run(Step(h, ops[0]), ops[1..])
  }

  // ---------------------------------------------------------------- the pool

  /**
   * In every run of additions at locations 1 to 1999, removals, syncs and ticks from
   * the zeroed pool, list and free slots share out the pool: a slot is in the list
   * exactly when its location is not 0, exactly then the allocator passes it over, and
   * every other slot is zero.
   */
  lemma {:induction false} PoolIsPartitioned(screen: seq<byte>, ops: seq<Op>, slot: nat)
    requires |screen| == 2 * CELLS && slot < SLOTS && forall i :: 0 <= i < |ops| ==> Proper(ops[i])
    ensures var start := Held(State(seq(SLOTS, _ => ZERO), Null, screen), []);
      && start.Good()
      && (var h := Run(start, ops);
          && h.Good()
          && (slot in h.list <==> h.state.pool[slot].location != 0)
          && (slot in h.list <==> h.state.pool[slot] != ZERO))
  {
    var start := Held(State(seq(SLOTS, _ => ZERO), Null, screen), []);
    var h := Run(start, ops);
    if slot in h.list {
      var k :| 0 <= k < |h.list| && h.list[k] == slot;
      assert h.state.pool[h.list[k]].location != 0;
    }
  }

  /** Where the pool is in order, a slot that the allocator takes for free is zero. */
  lemma {:induction false} FreeIsZero(s: State, xs: seq<nat>, slot: nat)
    requires Inv(s, xs) && slot < SLOTS && s.pool[slot].location == 0
    ensures slot !in xs && s.pool[slot] == ZERO
  {
    forall k | 0 <= k < |xs| ensures xs[k] != slot {
      assert s.pool[xs[k]].location != 0;
    }
  }

  /** An addition keeps the pool in order if and only if it is not at location 0, or finds no free slot. */
  lemma {:induction false} AddKeepsIff(h: Held, n: Node)
    requires h.Good()
    ensures (exists ys :: Inv(Added(h.state, n), ys)) <==> n.location != 0 || !Adds(h.state, n)
  {
    if !Adds(h.state, n) {
      assert Inv(Added(h.state, n), h.list);
    } else if n.location != 0 {
      AddKeeps(h.state, h.list, n);
    } else {
      var slot, t := FirstFree(h.state.pool), Added(h.state, n);
      forall ys ensures !Inv(t, ys) {
        if Inv(t, ys) {
          FreeIsZero(t, ys, slot);
        }
      }
    }
  }

  /** Two additions at location 0 tie the list into a ring. */
  lemma {:induction false} TwoAtZero(n: Node, screen: seq<byte>)
    requires n.location == 0 && |screen| == 2 * CELLS
    ensures var s := Added(Added(State(seq(SLOTS, _ => ZERO), Null, screen), n), n);
      s.head == At(0) && s.pool[0].next == At(0)
  {
    var s0 := State(seq(SLOTS, _ => ZERO), Null, screen);
    assert s0.pool[0].location == 0;
    var s1 := Added(s0, n);
    assert s1.pool[0].location == 0;
  }

  /** The nodes of the list at a location. */
  ghost predicate Occupied(h: Held, location: int)
    requires InPool(h.state.pool, h.list)
  {
    Find(h.state.pool, h.list, location) < |h.list|
  }

  /**
   * A removal right after an addition at the same location restores list and pool, if
   * and only if the addition succeeded or there was no node at the location.
   */
  lemma {:induction false} RemoveUndoesAdd(h: Held, n: Node)
    requires h.Good() && n.location != 0
    ensures var h1 := Step(h, Add(n));
      && h1.Good()
      && (var h2 := Step(h1, Remove(n.location));
          h2.list == h.list && h2.state.pool == h.state.pool && h2.state.head == h.state.head
          <==> Adds(h.state, n) || !Occupied(h, n.location))
  {
    StepKeeps(h, Add(n));
    if Adds(h.state, n) {
      AddThenRemove(h, n);
    } else if Occupied(h, n.location) {
      assert |Step(h, Remove(n.location)).list| == |h.list| - 1;
    }
  }

  lemma {:induction false} AddThenRemove(h: Held, n: Node)
    requires h.Good() && n.location != 0 && Adds(h.state, n) && Step(h, Add(n)).Good()
    ensures var h2 := Step(Step(h, Add(n)), Remove(n.location));
      h2.list == h.list && h2.state.pool == h.state.pool && h2.state.head == h.state.head
  {
    var slot, h1 := FirstFree(h.state.pool), Step(h, Add(n));
    FreeIsZero(h.state, h.list, slot);
    AddedFirst(h, n, slot);
    AgainWithout(slot, h.list);
    AgainZero(h.state.pool, slot, h1.state.pool[slot]);
  }

  lemma {:induction false} AddedFirst(h: Held, n: Node, slot: nat)
    requires h.Good() && Adds(h.state, n) && slot == FirstFree(h.state.pool) && Step(h, Add(n)).Good()
    ensures var h1 := Step(h, Add(n));
      && h1.list == [slot] + h.list && slot < |h.state.pool|
      && h1.state.pool == h.state.pool[slot := h1.state.pool[slot]]
      && Find(h1.state.pool, h1.list, n.location) == 0
  {
    var h1 := Step(h, Add(n));
    assert h1.list[0] == slot && h1.state.pool[slot].location == n.location;
  }

  lemma {:induction false} AgainWithout(x: nat, xs: seq<nat>)
    ensures Without([x] + xs, 0) == xs
  {
  }

  lemma {:induction false} AgainZero(pool: seq<Node>, slot: nat, n: Node)
    requires slot < |pool| && pool[slot] == ZERO
    ensures pool[slot := n][slot := ZERO] == pool
  {
  }

  // ---------------------------------------------------------------- the timer

  /** How long a phase of a given length lasts: the length is read as a signed word, and 0 acts at the next tick. */
  function Lasts(length: u16): (d: nat)
    ensures d >= 1
  {
    if 1 <= length <= 0x8000 then length else 1
  }

  function Period(n: Node): (p: nat)
    ensures p >= 2
  {
    Lasts(n.onLength) + Lasts(n.offLength)
  }

  /** Phase ph of the period of a node that starts on: status and countdown in closed form. */
  predicate AtPhase(n: Node, ph: nat) {
    && ph < Period(n)
    && n.status == (if ph < Lasts(n.onLength) then 1 else 0)
    && n.countdown as int == if ph < Lasts(n.onLength) then n.onLength - ph else n.offLength - (ph - Lasts(n.onLength))
  }

  lemma {:induction false} TickPhase(n: Node, ph: nat)
    requires AtPhase(n, ph)
    ensures AtPhase(TickNode(n), if ph + 1 == Period(n) then 0 else ph + 1)
  {
  }

  function Ticks(n: Node, k: nat): Node {
    if k == 0 then n else TickNode(Ticks(n, k - 1))
  }

  lemma {:induction false} TicksKeep(n: Node, k: nat)
    ensures var m := Ticks(n, k);
      m == n.(countdown := m.countdown, status := m.status)
  {
    if k == 0 {
    } else {
      TicksKeep(n, k - 1);
    }
  }

  /** The phase after k ticks, going round. */
  function PhaseAfter(p: nat, k: nat): (ph: nat)
    requires p >= 2
    ensures ph < p
  {
    if k == 0 then 0
    else
      var ph := PhaseAfter(p, k - 1);
      if ph + 1 == p then 0 else ph + 1
  }

  lemma {:induction false} PhaseIsRemainder(p: nat, k: nat)
    requires p >= 2
    ensures PhaseAfter(p, k) == k % p
  {
    if k == 0 {
    } else {
      PhaseIsRemainder(p, k - 1);
      NextRemainder(k - 1, p);
    }
  }

  lemma {:induction false} PhaseOf(n: Node, k: nat)
    requires n.status == 1 && n.countdown == n.onLength
    ensures AtPhase(Ticks(n, k), PhaseAfter(Period(n), k))
  {
    if k == 0 {
    } else {
      PhaseOf(n, k - 1);
      TicksKeep(n, k - 1);
      TickPhase(Ticks(n, k - 1), PhaseAfter(Period(n), k - 1));
    }
  }

  /** k ticks after it was added a node is in phase k modulo its period, for every 16-bit on and off length. */
  lemma {:induction false} ClosedForm(n: Node, k: nat)
    requires n.status == 1 && n.countdown == n.onLength
    ensures AtPhase(Ticks(n, k), k % Period(n))
  {
    PhaseOf(n, k);
    PhaseIsRemainder(Period(n), k);
  }

  /** The lengths mean what they say. */
  predicate Regular(n: Node) { 1 <= n.onLength <= 0x8000 && 1 <= n.offLength <= 0x8000 }

  /** The node is on for onLength ticks, off for offLength, and so on. */
  ghost predicate BlinksAsSet(n: Node) {
    var p := n.onLength as int + n.offLength as int;
    p > 0 && forall k: nat :: IsOn(Ticks(n, k)) <==> k % p < n.onLength
  }

  lemma {:induction false} OnByPhase(n: Node, k: nat)
    requires n.status == 1 && n.countdown == n.onLength
    ensures IsOn(Ticks(n, k)) <==> PhaseAfter(Period(n), k) < Lasts(n.onLength)
  {
    PhaseOf(n, k);
    TicksKeep(n, k);
  }

  lemma {:induction false} RegularBlinks(n: Node, k: nat)
    requires n.status == 1 && n.countdown == n.onLength && Regular(n)
    ensures IsOn(Ticks(n, k)) <==> k % (n.onLength as int + n.offLength as int) < n.onLength
  {
    OnByPhase(n, k);
    PhaseIsRemainder(n.onLength as int + n.offLength as int, k);
  }

  /** A number of ticks after which a node with an irregular length is not in the phase it should be in. */
  function Betrays(n: Node): nat {
    if n.onLength == 0 then 0
    else if n.onLength > 0x8000 then 1
    else if n.offLength == 0 then n.onLength
    else n.onLength as int + 1
  }

  lemma {:induction false} IrregularFails(n: Node)
    requires n.status == 1 && n.countdown == n.onLength && !Regular(n)
    requires n.onLength as int + n.offLength as int > 0
    ensures var k := Betrays(n);
      !(IsOn(Ticks(n, k)) <==> k % (n.onLength as int + n.offLength as int) < n.onLength)
  {
    var k, p := Betrays(n), n.onLength as int + n.offLength as int;
    OnByPhase(n, k);
    PhaseIsRemainder(Period(n), k);
    SmallRemainder(k, Period(n));
    SmallRemainder(k, p);
  }

  /**
   * After it was added a node is on exactly when k mod (on + off) < on, for all k, if
   * and only if both lengths are in 1 to 32768.
   */
  lemma {:induction false} BlinksIff(n: Node)
    requires n.status == 1 && n.countdown == n.onLength
    ensures BlinksAsSet(n) <==> Regular(n)
  {
    if Regular(n) {
      forall k: nat ensures IsOn(Ticks(n, k)) <==> k % (n.onLength as int + n.offLength as int) < n.onLength {
        RegularBlinks(n, k);
      }
    } else if n.onLength as int + n.offLength as int > 0 {
      IrregularFails(n);
    }
  }

  lemma {:induction false} SmallRemainder(k: nat, p: nat)
    requires p > 0
    ensures k < p ==> k % p == k
    ensures k == p ==> k % p == 0
  {
  }

  // ---------------------------------------------------------------- the timer in a run

  /** A node without its link. */
  function Bare(n: Node): Node { n.(next := Null) }

  /** The operation changes the times of, or frees, a node at this location. */
  predicate Touches(op: Op, location: int) {
    match op
    case Remove(l) => l == location
    case Sync(_, l) => l == location
    case Add(_) => false
    case Tick => false
  }

  lemma {:induction false} StepNode(h: Held, op: Op, j: nat)
    requires h.Good() && Proper(op) && j < |h.list| && !Touches(op, h.state.pool[h.list[j]].location)
    ensures var slot := h.list[j];
      var n, h' := h.state.pool[slot], Step(h, op);
      && slot in h'.list && slot < |h'.state.pool|
      && Bare(h'.state.pool[slot]) == if op == Tick then TickNode(Bare(n)) else Bare(n)
  {
    match op
    case Add(n) => AddLeaves(h, n, j);
    case Remove(l) => RemoveLeaves(h, l, j);
    case Sync(a, b) => SyncLeaves(h, a, b, j);
    case Tick =>
      TickedPool(h.state, h.list);
      assert h.state.pool[h.list[j]].location != 0;
  }

  lemma {:induction false} StepSlot(h: Held, op: Op, slot: nat)
    requires h.Good() && Proper(op) && slot in h.list && slot < |h.state.pool|
    requires !Touches(op, h.state.pool[slot].location)
    ensures var n, h' := h.state.pool[slot], Step(h, op);
      && h'.Good() && slot in h'.list && slot < |h'.state.pool|
      && Bare(h'.state.pool[slot]) == (if op == Tick then TickNode(Bare(n)) else Bare(n))
      && h'.state.pool[slot].location == n.location
  {
    StepKeeps(h, op);
    var j :| 0 <= j < |h.list| && h.list[j] == slot;
    StepNode(h, op, j);
  }

  lemma {:induction false} AddLeaves(h: Held, n: Node, j: nat)
    requires h.Good() && j < |h.list|
    ensures var slot, h' := h.list[j], Step(h, Add(n));
      slot in h'.list && slot < |h'.state.pool| && h'.state.pool[slot] == h.state.pool[slot]
  {
    assert h.state.pool[h.list[j]].location != 0;
    if Adds(h.state, n) {
      assert Step(h, Add(n)).list[j + 1] == h.list[j];
    }
  }

  lemma {:induction false} RemoveLeaves(h: Held, l: u16, j: nat)
    requires h.Good() && j < |h.list| && h.state.pool[h.list[j]].location != l
    ensures var slot, h' := h.list[j], Step(h, Remove(l));
      slot in h'.list && slot < |h'.state.pool| && Bare(h'.state.pool[slot]) == Bare(h.state.pool[slot])
  {
    var k := Find(h.state.pool, h.list, l);
    if k < |h.list| {
      UnlinkLeaves(h.state, h.list, k, j);
    }
  }

  lemma {:induction false} UnlinkLeaves(s: State, xs: seq<nat>, k: nat, j: nat)
    requires Inv(s, xs) && k < |xs| && j < |xs| && j != k
    ensures var t := Unlinked(s, xs, k);
      xs[j] in Without(xs, k) && xs[j] < |t.pool| && Bare(t.pool[xs[j]]) == Bare(s.pool[xs[j]])
  {
    UnlinkedNode(s, xs, k, j);
    assert xs[j] != xs[k];
    WithoutMembers(xs, k, xs[j]);
  }

  lemma {:induction false} SyncLeaves(h: Held, a: u16, b: u16, j: nat)
    requires h.Good() && j < |h.list| && h.state.pool[h.list[j]].location != b
    ensures var slot, h' := h.list[j], Step(h, Sync(a, b));
      slot in h'.list && slot < |h'.state.pool| && h'.state.pool[slot] == h.state.pool[slot]
  {
  }

  function CountTicks(ops: seq<Op>): nat {
    if ops == [] then 0 else (if ops[0] == Tick then 1 else 0) + CountTicks(ops[1..])
  }

  lemma {:induction false} TicksFirst(n: Node, k: nat)
    ensures Ticks(TickNode(n), k) == Ticks(n, k + 1)
  {
    if k == 0 {
    } else {
      TicksFirst(n, k - 1);
    }
  }

  ghost predicate Untouched(ops: seq<Op>, location: int) {
    forall i :: 0 <= i < |ops| ==> Proper(ops[i]) && !Touches(ops[i], location)
  }

  /** In a run that does not touch its location a node stays in its slot and sees the ticks and nothing else. */
  lemma {:induction false} RunNode(h: Held, ops: seq<Op>, slot: nat)
    requires h.Good() && slot in h.list && slot < |h.state.pool|
    requires Untouched(ops, h.state.pool[slot].location)
    ensures NodeAt(Run(h, ops), slot, Ticks(Bare(h.state.pool[slot]), CountTicks(ops)))
    decreases |ops|
  {
    if ops == [] {
    } else {
      UntouchedRest(ops, h.state.pool[slot].location);
      StepSlot(h, ops[0], slot);
      RunFirst(h, ops);
      RunNode(Step(h, ops[0]), ops[1..], slot);
      TicksOf(ops, Bare(h.state.pool[slot]));
    }
  }

  /** The ticks of a run, the first operation apart. */
  lemma {:induction false} TicksOf(ops: seq<Op>, n: Node)
    requires ops != []
    ensures Ticks(n, CountTicks(ops)) == Ticks(if ops[0] == Tick then TickNode(n) else n, CountTicks(ops[1..]))
  {
    TicksFirst(n, CountTicks(ops[1..]));
  }

  /** The node in this slot of the list, but for its next pointer. */
  ghost predicate NodeAt(h: Held, slot: nat, n: Node) {
    slot in h.list && slot < |h.state.pool| && Bare(h.state.pool[slot]) == n
  }

  lemma {:induction false} UntouchedRest(ops: seq<Op>, location: int)
    requires Untouched(ops, location) && ops != []
    ensures Proper(ops[0]) && !Touches(ops[0], location) && Untouched(ops[1..], location)
  {
    assert forall i :: 0 <= i < |ops[1..]| ==> ops[1..][i] == ops[i + 1];
  }

  lemma {:induction false} RunFirst(h: Held, ops: seq<Op>)
    requires h.Good() && ops != [] && forall i :: 0 <= i < |ops| ==> Proper(ops[i])
    ensures Step(h, ops[0]).Good() && Run(h, ops) == Run(Step(h, ops[0]), ops[1..])
  {
    StepKeeps(h, ops[0]);
  }

  /**
   * A node blinks on in any company: whatever else is added, removed and synced after
   * it was added, as long as nothing touches its location, k ticks put it in phase k
   * modulo its period.
   */
  lemma {:induction false} AddedNodeBlinks(h: Held, n: Node, ops: seq<Op>)
    requires h.Good() && n.location != 0 && Adds(h.state, n) && Untouched(ops, n.location)
    ensures var slot := FirstFree(h.state.pool);
      var h' := Run(Step(h, Add(n)), ops);
      && slot in h'.list && slot < |h'.state.pool|
      && AtPhase(h'.state.pool[slot], CountTicks(ops) % Period(n))
      && (var m := h'.state.pool[slot];
          m.location == n.location && m.onLength == n.onLength && m.offLength == n.offLength)
  {
    StepKeeps(h, Add(n));
    var h1, slot := Step(h, Add(n)), FirstFree(h.state.pool);
    assert h1.list[0] == slot;
    RunNode(h1, ops, slot);
    NodeBlinks(n, Run(h1, ops).state.pool[slot], CountTicks(ops));
  }

  /** The same for the node alone, k ticks after it was added. */
  lemma {:induction false} NodeBlinks(n: Node, last: Node, k: nat)
    requires Bare(last) == Ticks(n.(status := 1, countdown := n.onLength, next := Null), k)
    ensures AtPhase(last, k % Period(n))
    ensures last.location == n.location && last.onLength == n.onLength && last.offLength == n.offLength
  {
    var m := n.(status := 1, countdown := n.onLength, next := Null);
    ClosedForm(m, k);
    TicksKeep(m, k);
    assert Period(m) == Period(n);
  }

  /** The part of a node that the timer works on. */
  function Clock(n: Node): Node { n.(location := 0, onChar := 0, offChar := 0, next := Null) }

  lemma {:induction false} ClockTick(n: Node)
    ensures Clock(TickNode(n)) == TickNode(Clock(n))
  {
  }

  lemma {:induction false} ClockTicks(n: Node, k: nat)
    ensures Clock(Ticks(n, k)) == Ticks(Clock(n), k)
  {
    if k == 0 {
    } else {
      ClockTicks(n, k - 1);
      ClockTick(Ticks(n, k - 1));
    }
  }

  /** After a successful sync the two nodes keep equal times, status and countdown, until one is touched again. */
  lemma {:induction false} SyncedStayTogether(h: Held, a: u16, b: u16, ops: seq<Op>)
    requires h.Good() && Occupied(h, a) && Occupied(h, b) && Untouched(ops, a) && Untouched(ops, b)
    ensures Step(h, Sync(a, b)).Good()
    ensures var h' := Run(Step(h, Sync(a, b)), ops);
      var f, t := h.list[Find(h.state.pool, h.list, a)], h.list[Find(h.state.pool, h.list, b)];
      && f in h'.list && t in h'.list && f < |h'.state.pool| && t < |h'.state.pool|
      && Clock(h'.state.pool[f]) == Clock(h'.state.pool[t])
  {
    StepKeeps(h, Sync(a, b));
    var h1 := Step(h, Sync(a, b));
    var i, j := Find(h.state.pool, h.list, a), Find(h.state.pool, h.list, b);
    var f, t := h.list[i], h.list[j];
    assert h1.list == h.list;
    assert Clock(h1.state.pool[f]) == Clock(h1.state.pool[t]);
    RunNode(h1, ops, f);
    RunNode(h1, ops, t);
    var h' := Run(h1, ops);
    var k := CountTicks(ops);
    ClockTicks(Bare(h1.state.pool[f]), k);
    ClockTicks(Bare(h1.state.pool[t]), k);
    assert Clock(Bare(h1.state.pool[f])) == Clock(Bare(h1.state.pool[t]));
    assert Clock(Bare(h'.state.pool[f])) == Clock(h'.state.pool[f]);
    assert Clock(Bare(h'.state.pool[t])) == Clock(h'.state.pool[t]);
  }

  // ---------------------------------------------------------------- the screen

  ghost predicate Apart(pool: seq<Node>, xs: seq<nat>)
    requires InPool(pool, xs)
  {
    forall i, j {:trigger pool[xs[i]], pool[xs[j]]} :: 0 <= i < j < |xs| ==>
      pool[xs[i]].location != pool[xs[j]].location
  }

  /** The cell of a node shows the character of its phase. */
  predicate CellShows(screen: seq<byte>, n: Node) {
    2 * n.location < |screen| && screen[2 * n.location] == Shows(n)
  }

  /** No two nodes share a cell, and every node's cell shows the character of its phase. */
  ghost predicate Showing(s: State, xs: seq<nat>) {
    && InPool(s.pool, xs) && Apart(s.pool, xs)
    && forall k {:trigger s.pool[xs[k]]} :: 0 <= k < |xs| ==> CellShows(s.screen, s.pool[xs[k]])
  }

  lemma {:induction false} PokeElsewhere(screen: seq<byte>, location: nat, c: byte, n: Node)
    requires CellShows(screen, n) && n.location != location
    ensures CellShows(Poke(screen, location, c), n)
  {
  }

  /** No other node of the list has the location of the one in this slot. */
  ghost predicate AloneAt(pool: seq<Node>, xs: seq<nat>, slot: nat) {
    && slot < |pool| && InPool(pool, xs)
    && forall k {:trigger pool[xs[k]]} :: 0 <= k < |xs| && xs[k] != slot ==> pool[xs[k]].location != pool[slot].location
  }

  /** After the first k nodes have had their tick, the cell of node i shows its phase, new or old. */
  lemma {:induction false} TickFirstScreen(s: State, xs: seq<nat>, k: nat, i: nat)
    requires Inv(s, xs) && k <= |xs| && i < |xs| && CellShows(s.screen, s.pool[xs[i]])
    requires AloneAt(s.pool, xs, xs[i])
    ensures CellShows(TickFirst(s, xs, k).screen, if i < k then TickNode(s.pool[xs[i]]) else s.pool[xs[i]])
  {
    var n := s.pool[xs[i]];
    if k == 0 {
    } else {
      var t, m := TickFirst(s, xs, k - 1), s.pool[xs[k - 1]];
      TickFirstScreen(s, xs, k - 1, i);
      TickFirstPool(s, xs, k - 1);
      assert t.pool[xs[k - 1]] == m;
      if i != k - 1 {
        assert n.location != m.location;
        PokeElsewhere(t.screen, m.location, Shows(TickNode(m)), if i < k then TickNode(n) else n);
      }
    }
  }

  lemma {:induction false} TickShows(s: State, xs: seq<nat>)
    requires Inv(s, xs) && Showing(s, xs)
    ensures Showing(Ticked(s, xs), xs)
  {
    var t := Ticked(s, xs);
    TickFirstPool(s, xs, |xs|);
    forall k | 0 <= k < |xs|
      ensures CellShows(t.screen, t.pool[xs[k]]) && t.pool[xs[k]].location == s.pool[xs[k]].location
    {
      assert AloneAt(s.pool, xs, xs[k]);
      TickFirstScreen(s, xs, |xs|, k);
      assert t.pool[xs[k]] == TickNode(s.pool[xs[k]]);
    }
    SameCellsApart(s.pool, t.pool, xs);
  }

  lemma {:induction false} SameCellsApart(pool: seq<Node>, pool': seq<Node>, xs: seq<nat>)
    requires InPool(pool, xs) && InPool(pool', xs) && Apart(pool, xs)
    requires forall k {:trigger pool'[xs[k]]} :: 0 <= k < |xs| ==> pool'[xs[k]].location == pool[xs[k]].location
    ensures Apart(pool', xs)
  {
  }

  lemma {:induction false} AddShows(s: State, xs: seq<nat>, n: Node)
    requires Inv(s, xs) && Showing(s, xs) && n.location != 0 && Adds(s, n) && Find(s.pool, xs, n.location) == |xs|
    ensures Showing(Added(s, n), [FirstFree(s.pool)] + xs)
  {
    var t, x := Added(s, n), FirstFree(s.pool);
    forall k | 0 <= k < |xs|
      ensures xs[k] < |t.pool| && CellShows(t.screen, t.pool[xs[k]])
      ensures t.pool[xs[k]].location == s.pool[xs[k]].location != n.location
    {
      AddBehind(s, xs, n, k);
    }
    SameCellsApart(s.pool, t.pool, xs);
    OneMoreShows(t, x, xs);
  }

  lemma {:induction false} OneMoreShows(s: State, x: nat, xs: seq<nat>)
    requires Showing(s, xs) && x < |s.pool| && CellShows(s.screen, s.pool[x])
    requires forall k {:trigger s.pool[xs[k]]} :: 0 <= k < |xs| ==> s.pool[xs[k]].location != s.pool[x].location
    ensures Showing(s, [x] + xs)
  {
    var ys := [x] + xs;
    forall k | 0 <= k < |ys| ensures ys[k] < |s.pool| && CellShows(s.screen, s.pool[ys[k]]) {
      assert k > 0 ==> ys[k] == xs[k - 1];
    }
    forall i, j | 0 <= i < j < |ys| ensures s.pool[ys[i]].location != s.pool[ys[j]].location {
      assert ys[j] == xs[j - 1];
      assert i > 0 ==> ys[i] == xs[i - 1];
    }
  }

  lemma {:induction false} AddBehind(s: State, xs: seq<nat>, n: Node, k: nat)
    requires Inv(s, xs) && Showing(s, xs) && n.location != 0 && Adds(s, n) && Find(s.pool, xs, n.location) == |xs|
    requires k < |xs|
    ensures var t := Added(s, n);
      xs[k] < |t.pool| && t.pool[xs[k]] == s.pool[xs[k]] && CellShows(t.screen, t.pool[xs[k]])
    ensures s.pool[xs[k]].location != n.location && xs[k] != FirstFree(s.pool)
  {
    assert s.pool[xs[k]].location != 0;
    PokeElsewhere(s.screen, n.location, n.onChar, s.pool[xs[k]]);
  }

  /** Where in the list the i-th of the nodes that stay was. */
  function Skip(k: nat, i: nat): nat { if i < k then i else i + 1 }

  lemma {:induction false} RemoveBehind(s: State, xs: seq<nat>, k: nat, i: nat)
    requires Inv(s, xs) && Showing(s, xs) && k < |xs| && i < |xs| - 1
    ensures var t, ys := Unlinked(s, xs, k), Without(xs, k);
      ys[i] < |t.pool| && Bare(t.pool[ys[i]]) == Bare(s.pool[xs[Skip(k, i)]]) && CellShows(t.screen, t.pool[ys[i]])
  {
    UnlinkedNode(s, xs, k, Skip(k, i));
    assert CellShows(s.screen, s.pool[xs[Skip(k, i)]]);
  }

  lemma {:induction false} RemoveApart(s: State, xs: seq<nat>, k: nat, i: nat, j: nat)
    requires Inv(s, xs) && Showing(s, xs) && k < |xs| && i < j < |xs| - 1
    ensures var t, ys := Unlinked(s, xs, k), Without(xs, k);
      ys[i] < |t.pool| && ys[j] < |t.pool| && t.pool[ys[i]].location != t.pool[ys[j]].location
  {
    RemoveBehind(s, xs, k, i);
    RemoveBehind(s, xs, k, j);
    assert s.pool[xs[Skip(k, i)]].location != s.pool[xs[Skip(k, j)]].location;
  }

  lemma {:induction false} RemoveShows(s: State, xs: seq<nat>, k: nat)
    requires Inv(s, xs) && Showing(s, xs) && k < |xs|
    ensures Showing(Unlinked(s, xs, k), Without(xs, k))
  {
    var t, ys := Unlinked(s, xs, k), Without(xs, k);
    forall i | 0 <= i < |ys| ensures ys[i] < |t.pool| && CellShows(t.screen, t.pool[ys[i]]) {
      RemoveBehind(s, xs, k, i);
    }
    forall i, j | 0 <= i < j < |ys| ensures t.pool[ys[i]].location != t.pool[ys[j]].location {
      RemoveApart(s, xs, k, i, j);
    }
  }

  lemma {:induction false} SyncShows(s: State, xs: seq<nat>, a: int, b: int)
    requires Inv(s, xs) && Showing(s, xs) && Find(s.pool, xs, a) < |xs| && Find(s.pool, xs, b) < |xs|
    ensures var first, second := s.pool[xs[Find(s.pool, xs, a)]], s.pool[xs[Find(s.pool, xs, b)]];
      Showing(Synced(s, xs, a, b), xs) <==> !IsOn(first) || second.onChar == second.offChar
  {
    var t, d := Synced(s, xs, a, b), Find(s.pool, xs, b);
    var m := t.pool[xs[d]];
    assert CellShows(s.screen, s.pool[xs[d]]);
    assert CellShows(t.screen, m) <==> !IsOn(m) || m.onChar == m.offChar;
    forall k | 0 <= k < |xs|
      ensures t.pool[xs[k]].location == s.pool[xs[k]].location
      ensures k != d ==> CellShows(t.screen, t.pool[xs[k]])
    {
      if k != d {
        assert xs[k] != xs[d] && s.pool[xs[k]].location != s.pool[xs[d]].location;
        PokeElsewhere(s.screen, m.location, m.offChar, s.pool[xs[k]]);
      }
    }
    SameCellsApart(s.pool, t.pool, xs);
  }

  /**
   * Additions at free cells, removals and ticks keep every cell showing the character
   * of its node's phase. A sync keeps it if and only if the first node is off, or the
   * second one, which takes over its times, looks the same on and off.
   */
  lemma {:induction false} ScreenFollows(h: Held, op: Op)
    requires h.Good() && Showing(h.state, h.list) && Proper(op)
    requires op.Add? ==> !Occupied(h, op.node.location)
    ensures op.Sync? && Occupied(h, op.first) && Occupied(h, op.second) ==>
      var pool, xs := h.state.pool, h.list;
      var first, second := pool[xs[Find(pool, xs, op.first)]], pool[xs[Find(pool, xs, op.second)]];
      Showing(Step(h, op).state, Step(h, op).list) <==> !IsOn(first) || second.onChar == second.offChar
    ensures !(op.Sync? && Occupied(h, op.first) && Occupied(h, op.second)) ==>
      Showing(Step(h, op).state, Step(h, op).list)
  {
    var s, xs := h.state, h.list;
    match op
    case Add(n) => if Adds(s, n) { AddShows(s, xs, n); }
    case Remove(l) => if Occupied(h, l) { RemoveShows(s, xs, Find(s.pool, xs, l)); }
    case Sync(a, b) => if Occupied(h, a) && Occupied(h, b) { SyncShows(s, xs, a, b); }
    case Tick => TickShows(s, xs);
  }

  // ---------------------------------------------------------------- one cell of the screen

  /** The node in this slot is the only one at location l, and its cell shows the character of its phase. */
  ghost predicate HasCell(h: Held, slot: nat, l: nat) {
    && slot in h.list && slot < |h.state.pool| && h.state.pool[slot].location == l
    && AloneAt(h.state.pool, h.list, slot) && CellShows(h.state.screen, h.state.pool[slot])
  }

  /** The operation is somewhere else. */
  predicate Elsewhere(op: Op, l: nat) { Proper(op) && !Touches(op, l) && (op.Add? ==> op.node.location != l) }

  /** An added node of another location leaves the one in this slot alone. */
  lemma {:induction false} AddAlone(s: State, xs: seq<nat>, n: Node, slot: nat)
    requires Inv(s, xs) && Adds(s, n) && AloneAt(s.pool, xs, slot) && slot in xs && s.pool[slot].location != n.location
    ensures slot != FirstFree(s.pool) && Added(s, n).pool[slot] == s.pool[slot]
    ensures AloneAt(Added(s, n).pool, [FirstFree(s.pool)] + xs, slot)
  {
    var x, t := FirstFree(s.pool), Added(s, n);
    var ys := [x] + xs;
    assert s.pool[slot].location != 0;
    forall k | 0 <= k < |ys| && ys[k] != slot ensures t.pool[ys[k]].location != t.pool[slot].location {
      if k > 0 {
        assert ys[k] == xs[k - 1] && s.pool[xs[k - 1]].location != 0;
      }
    }
  }

  lemma {:induction false} AddElsewhere(h: Held, n: Node, slot: nat, l: nat)
    requires h.Good() && HasCell(h, slot, l) && n.location != l
    ensures HasCell(Step(h, Add(n)), slot, l)
  {
    if Adds(h.state, n) {
      AddAlone(h.state, h.list, n, slot);
      PokeElsewhere(h.state.screen, n.location, n.onChar, h.state.pool[slot]);
    }
  }

  /** The i-th of the nodes that stay. */
  lemma {:induction false} StaysAt(s: State, xs: seq<nat>, k: nat, i: nat)
    requires Inv(s, xs) && k < |xs| && i < |xs| - 1
    ensures var t, ys := Unlinked(s, xs, k), Without(xs, k);
      && ys[i] == xs[Skip(k, i)] && ys[i] < |t.pool| == |s.pool|
      && t.pool[ys[i]].location == s.pool[ys[i]].location
  {
    UnlinkedNode(s, xs, k, Skip(k, i));
  }

  lemma {:induction false} UnlinkAlone(s: State, xs: seq<nat>, k: nat, slot: nat)
    requires Inv(s, xs) && k < |xs| && AloneAt(s.pool, xs, slot) && slot in Without(xs, k)
    ensures AloneAt(Unlinked(s, xs, k).pool, Without(xs, k), slot)
  {
    var t, ys := Unlinked(s, xs, k), Without(xs, k);
    var j :| 0 <= j < |ys| && ys[j] == slot;
    StaysAt(s, xs, k, j);
    forall i | 0 <= i < |ys| && ys[i] != slot ensures t.pool[ys[i]].location != t.pool[slot].location {
      StaysAt(s, xs, k, i);
      assert s.pool[xs[Skip(k, i)]].location != s.pool[slot].location;
    }
    forall i | 0 <= i < |ys| ensures ys[i] < |t.pool| {
      StaysAt(s, xs, k, i);
    }
  }

  lemma {:induction false} RemoveElsewhere(h: Held, a: u16, slot: nat, l: nat)
    requires h.Good() && HasCell(h, slot, l) && a != l
    ensures HasCell(Step(h, Remove(a)), slot, l)
  {
    var k := Find(h.state.pool, h.list, a);
    if k < |h.list| {
      StepSlot(h, Remove(a), slot);
      UnlinkAlone(h.state, h.list, k, slot);
    }
  }

  lemma {:induction false} SyncElsewhere(h: Held, a: u16, b: u16, slot: nat, l: nat)
    requires h.Good() && HasCell(h, slot, l) && b != l
    ensures HasCell(Step(h, Sync(a, b)), slot, l)
  {
    var f, t := Find(h.state.pool, h.list, a), Find(h.state.pool, h.list, b);
    if f < |h.list| && t < |h.list| {
      var dst := h.state.pool[h.list[t]];
      PokeElsewhere(h.state.screen, dst.location, dst.offChar, h.state.pool[slot]);
    }
  }

  lemma {:induction false} TickAlone(s: State, xs: seq<nat>, j: nat)
    requires Inv(s, xs) && j < |xs| && AloneAt(s.pool, xs, xs[j])
    ensures AloneAt(Ticked(s, xs).pool, xs, xs[j])
  {
    var t := Ticked(s, xs);
    TickFirstPool(s, xs, |xs|);
    forall i | 0 <= i < |xs| ensures xs[i] < |t.pool| && t.pool[xs[i]].location == s.pool[xs[i]].location {
      assert t.pool[xs[i]] == TickNode(s.pool[xs[i]]);
    }
  }

  lemma {:induction false} TickElsewhere(h: Held, slot: nat, l: nat)
    requires h.Good() && HasCell(h, slot, l)
    ensures HasCell(Step(h, Tick), slot, l)
  {
    var s, xs := h.state, h.list;
    var j :| 0 <= j < |xs| && xs[j] == slot;
    TickFirstPool(s, xs, |xs|);
    TickFirstScreen(s, xs, |xs|, j);
    TickAlone(s, xs, j);
    assert Ticked(s, xs).pool[xs[j]] == TickNode(s.pool[xs[j]]);
  }

  lemma {:induction false} StepElsewhere(h: Held, op: Op, slot: nat, l: nat)
    requires h.Good() && HasCell(h, slot, l) && Elsewhere(op, l)
    ensures HasCell(Step(h, op), slot, l)
  {
    match op
    case Add(n) => AddElsewhere(h, n, slot, l);
    case Remove(a) => RemoveElsewhere(h, a, slot, l);
    case Sync(a, b) => SyncElsewhere(h, a, b, slot, l);
    case Tick => TickElsewhere(h, slot, l);
  }

  ghost predicate AllElsewhere(ops: seq<Op>, l: nat) { forall i :: 0 <= i < |ops| ==> Elsewhere(ops[i], l) }

  lemma {:induction false} RunElsewhere(h: Held, ops: seq<Op>, slot: nat, l: nat)
    requires h.Good() && HasCell(h, slot, l) && AllElsewhere(ops, l)
    ensures HasCell(Run(h, ops), slot, l)
    decreases |ops|
  {
    if ops == [] {
    } else {
      assert forall i :: 0 <= i < |ops[1..]| ==> ops[1..][i] == ops[i + 1];
      StepElsewhere(h, ops[0], slot, l);
      RunFirst(h, ops);
      RunElsewhere(Step(h, ops[0]), ops[1..], slot, l);
    }
  }

  /**
   * The cell of a node that was just added, with lengths from 1 to 32768: whatever is added,
   * removed and synced elsewhere, after k ticks it shows the on character while k is in the
   * first onLength ticks of its period, and the off character in the others.
   */
  lemma {:induction false} CellBlinks(h: Held, slot: nat, l: nat, ops: seq<Op>)
    requires h.Good() && HasCell(h, slot, l) && AllElsewhere(ops, l)
    requires var n := h.state.pool[slot];
      n.status == 1 && n.countdown == n.onLength && 1 <= n.onLength <= 32768 && 1 <= n.offLength <= 32768
    ensures var n, screen, k := h.state.pool[slot], Run(h, ops).state.screen, CountTicks(ops);
      2 * l < |screen| &&
      screen[2 * l] == if k % (n.onLength as int + n.offLength as int) < n.onLength then n.onChar else n.offChar
  {
    RunElsewhere(h, ops, slot, l);
    RunNode(h, ops, slot);
    PhaseShows(h.state.pool[slot], Run(h, ops), slot, l, CountTicks(ops));
  }

  /** What the cell of a node shows k ticks after it was added. */
  lemma {:induction false} PhaseShows(n: Node, h: Held, slot: nat, l: nat, k: nat)
    requires HasCell(h, slot, l) && NodeAt(h, slot, Ticks(Bare(n), k))
    requires n.status == 1 && n.countdown == n.onLength && Regular(n)
    ensures 2 * l < |h.state.screen| && h.state.screen[2 * l]
      == if k % (n.onLength as int + n.offLength as int) < n.onLength then n.onChar else n.offChar
  {
    TicksKeep(Bare(n), k);
    RegularBlinks(Bare(n), k);
    assert Shows(h.state.pool[slot]) == Shows(Ticks(Bare(n), k));
  }

  /** An addition at a free cell of the screen, with a slot free, shows its on character and starts such a node. */
  lemma {:induction false} AddedCell(h: Held, n: Node)
    requires h.Good() && 0 < n.location < 2000 && !Occupied(h, n.location)
    requires exists i :: 0 <= i < 2000 && h.state.pool[i].location == 0
    ensures var h', slot := Step(h, Add(n)), FirstFree(h.state.pool);
      && h'.Good() && HasCell(h', slot, n.location) && h'.list == [slot] + h.list
      && h'.state.screen == h.state.screen[2 * n.location := n.onChar]
      && h'.state.pool[slot] == n.(status := 1, countdown := n.onLength, next := h.state.head)
  {
    var i :| 0 <= i < 2000 && h.state.pool[i].location == 0;
    var h', slot := Step(h, Add(n)), FirstFree(h.state.pool);
    StepKeeps(h, Add(n));
    assert h'.list[0] == slot;
    forall k | 0 <= k < |h'.list| && h'.list[k] != slot ensures h'.state.pool[h'.list[k]].location != n.location {
      assert h'.list[k] == h.list[k - 1] && h.state.pool[h.list[k - 1]].location != 0;
    }
  }

  /** A sync gives the second node the first one's times and shows its off character; nothing else changes. */
  lemma {:induction false} SyncTakesFirst(h: Held, a: u16, b: u16)
    requires h.Good() && Occupied(h, a) && Occupied(h, b)
    ensures var pool, xs := h.state.pool, h.list;
      var first, x := pool[xs[Find(pool, xs, a)]], xs[Find(pool, xs, b)];
      Step(h, Sync(a, b)) == Held(h.state.(
        pool := pool[x := pool[x].(onLength := first.onLength, offLength := first.offLength,
                                   countdown := first.countdown, status := first.status)],
        screen := h.state.screen[2 * b := pool[x].offChar]), xs)
  {
  }

  /** A removal and an addition that fails leave the screen as it is. */
  lemma {:induction false} QuietSteps(h: Held, a: u16, n: Node)
    requires h.Good()
    ensures Step(h, Remove(a)).state.screen == h.state.screen
    ensures n.location >= 2000 ==> Step(h, Add(n)) == h
    ensures (forall i :: 0 <= i < 2000 ==> h.state.pool[i].location != 0) ==> Step(h, Add(n)) == h
  {
  }

  /** The zeroed pool and a screen. */
  function Start(screen: seq<byte>): Held { Held(State(seq(SLOTS, _ => ZERO), Null, screen), []) }

  ghost function OneNode(screen: seq<byte>, n: Node): (h: Held)
    requires |screen| == 2 * CELLS && 0 < n.location < CELLS
    ensures h.Good() && Showing(h.state, h.list) && h.list == [0] && FirstFree(h.state.pool) == 1
    ensures h.state.pool[0].location == n.location && IsOn(h.state.pool[0])
  {
    ScreenFollows(Start(screen), Add(n));
    StepKeeps(Start(screen), Add(n));
    Step(Start(screen), Add(n))
  }

  /** Two nodes, just added. */
  ghost function TwoNodes(screen: seq<byte>, n: Node, m: Node): (h: Held)
    requires |screen| == 2 * CELLS && 0 < n.location < m.location < CELLS
    ensures h.Good() && Showing(h.state, h.list) && h.list == [1, 0]
    ensures h.state.pool[0].location == n.location && IsOn(h.state.pool[0])
    ensures h.state.pool[1].location == m.location
    ensures h.state.pool[1].onChar == m.onChar && h.state.pool[1].offChar == m.offChar
  {
    var h := OneNode(screen, n);
    ScreenFollows(h, Add(m));
    StepKeeps(h, Add(m));
    Step(h, Add(m))
  }

  /** Two nodes have just been added, so both are on; after a sync the second one's cell shows its off character. */
  lemma {:induction false} SyncMisleads(screen: seq<byte>, n: Node, m: Node)
    requires |screen| == 2 * CELLS && 0 < n.location < m.location < CELLS && m.onChar != m.offChar
    ensures var h := TwoNodes(screen, n, m);
      var h' := Step(h, Sync(n.location, m.location));
      && Showing(h.state, h.list) && !Showing(h'.state, h'.list)
      && IsOn(h'.state.pool[1]) && h'.state.screen[2 * m.location] == m.offChar
  {
    ScreenFollows(TwoNodes(screen, n, m), Sync(n.location, m.location));
  }
}
