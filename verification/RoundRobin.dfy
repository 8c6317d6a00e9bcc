/** The fairness of the cyclic slot search, for every set of occupied slots and over every run. */
module RoundRobin {
  import opened Arith
  import opened Kernel
  import opened Processes

  /** How many of the len places after c are occupied slots, going round. */
  function Turns(slots: seq<int>, c: int, len: nat): nat
    requires |slots| == SLOTS
  {
    if len == 0 then 0
    else Turns(slots, c, len - 1) + if OccupiedAt(slots, c, len) then 1 else 0
  }

  /** The number of occupied slots. */
  function OccupiedSlots(slots: seq<int>): nat
    requires |slots| == SLOTS
  {
    Turns(slots, -1, SLOTS)
  }

  /** The place, counted on without going round, that k turns of the search reach from c. */
  function Place(slots: seq<int>, c: int, k: nat): (p: int)
    requires |slots| == SLOTS
    ensures p >= c + k
    decreases k
  {
    if k == 0 then c else Place(slots, c + Gap(slots, c, 1), k - 1)
  }

  /** The slot that k turns of the search reach from slot c. */
  function Reached(slots: seq<int>, c: int, k: nat): (q: int)
    requires |slots| == SLOTS && -1 <= c < SLOTS
    ensures k > 0 || c >= 0 ==> 0 <= q < SLOTS
    decreases k
  {
    if k == 0 then c else Reached(slots, Next(slots, c), k - 1)
  }

  /** How far, in places, slot q is ahead of place c. */
  function Ahead(c: int, q: int): (d: int)
    requires 0 <= q < SLOTS
    ensures 1 <= d <= SLOTS && (c + d) % SLOTS == q
  {
    (q - c - 1) % SLOTS + 1
  }

  lemma {:induction false} TurnsSplit(slots: seq<int>, c: int, a: nat, b: nat)
    requires |slots| == SLOTS
    ensures Turns(slots, c, a + b) == Turns(slots, c, a) + Turns(slots, c + a, b)
    decreases b
  {
    if b == 0 {
    } else {
      TurnsSplit(slots, c, a, b - 1);
      assert a + b - 1 == a + (b - 1);
      assert c + (a + b) == c + a + b;
    }
  }

  lemma {:induction false} TurnsPeriod(slots: seq<int>, c: int, len: nat)
    requires |slots| == SLOTS
    ensures Turns(slots, c + SLOTS, len) == Turns(slots, c, len)
    decreases len
  {
    if len == 0 {
    } else {
      TurnsPeriod(slots, c, len - 1);
      OccupiedPeriod(slots, c, len);
    }
  }

  lemma {:induction false} OccupiedPeriod(slots: seq<int>, c: int, j: int)
    requires |slots| == SLOTS
    ensures OccupiedAt(slots, c + SLOTS, j) == OccupiedAt(slots, c, j)
  {
    assert (c + SLOTS + j) % SLOTS == (c + j) % SLOTS;
  }

  /** From every place one round meets every occupied slot. */
  lemma {:induction false} TurnsRound(slots: seq<int>, c: int)
    requires |slots| == SLOTS && c >= -1
    ensures Turns(slots, c, SLOTS) == OccupiedSlots(slots)
    decreases c
  {
    if c == -1 {
    } else {
      TurnsRound(slots, c - 1);
      TurnsSplit(slots, c - 1, 1, SLOTS - 1);
      TurnsSplit(slots, c, SLOTS - 1, 1);
      assert (c - 1 + 1) % SLOTS == (c + SLOTS) % SLOTS;
      assert OccupiedAt(slots, c - 1, 1) == OccupiedAt(slots, c, SLOTS);
      assert Turns(slots, c - 1, 1) == Turns(slots, c + (SLOTS - 1), 1);
    }
  }

  lemma {:induction false} TurnsOfRounds(slots: seq<int>, c: int, m: nat, r: nat)
    requires |slots| == SLOTS && c >= -1
    ensures Turns(slots, c, SLOTS * m + r) == OccupiedSlots(slots) * m + Turns(slots, c, r)
    decreases m
  {
    if m == 0 {
    } else {
      TurnsOfRounds(slots, c, m - 1, r);
      var rest := SLOTS * (m - 1) + r;
      assert SLOTS * m + r == SLOTS + rest;
      TurnsSplit(slots, c, SLOTS, rest);
      TurnsPeriod(slots, c, rest);
      TurnsRound(slots, c);
      assert OccupiedSlots(slots) * m == OccupiedSlots(slots) * (m - 1) + OccupiedSlots(slots);
    }
  }

  lemma {:induction false} TurnsOfEmpty(slots: seq<int>, c: int, len: nat)
    requires |slots| == SLOTS && forall j :: 1 <= j <= len ==> !OccupiedAt(slots, c, j)
    ensures Turns(slots, c, len) == 0
    decreases len
  {
    if len == 0 {
    } else {
      TurnsOfEmpty(slots, c, len - 1);
    }
  }

  lemma {:induction false} FirstTurn(slots: seq<int>, c: int)
    requires |slots| == SLOTS && SomeOccupied(slots) && c >= -1
    ensures Turns(slots, c, Gap(slots, c, 1)) == 1 && slots[Next(slots, c)] >= 0
  {
    SomeoneIsNext(slots, c);
    GapIsFirst(slots, c, 1);
    TurnsOfEmpty(slots, c, Gap(slots, c, 1) - 1);
  }

  /** The k-th turn falls on the k-th occupied place. */
  lemma {:induction false} PlaceIsTurn(slots: seq<int>, c: int, k: nat)
    requires |slots| == SLOTS && SomeOccupied(slots) && c >= -1 && k >= 1
    ensures Turns(slots, c, Place(slots, c, k) - c) == k
    ensures slots[Place(slots, c, k) % SLOTS] >= 0
    decreases k
  {
    var d := Gap(slots, c, 1);
    FirstTurn(slots, c);
    if k == 1 {
      assert Place(slots, c, k) == c + d;
    } else {
      var p := Place(slots, c + d, k - 1);
      PlaceIsTurn(slots, c + d, k - 1);
      TurnsSplit(slots, c, d, p - (c + d));
      assert d + (p - (c + d)) == p - c;
    }
  }

  lemma {:induction false} TurnsGrow(slots: seq<int>, c: int, a: nat, b: nat)
    requires |slots| == SLOTS && a <= b
    ensures Turns(slots, c, a) <= Turns(slots, c, b)
    ensures a < b && OccupiedAt(slots, c, b) ==> Turns(slots, c, a) < Turns(slots, c, b)
    decreases b
  {
    if a == b {
    } else {
      TurnsGrow(slots, c, a, b - 1);
    }
  }

  lemma {:induction false} MulStep(n: nat, m: nat, m': nat)
    requires m < m'
    ensures n * m' >= n * m + n
  {
    MulMono(m + 1, m', n);
  }

  lemma {:induction false} SameRest(n: nat, m: nat, a: nat, m': nat, b: nat)
    requires 1 <= a <= n && 1 <= b <= n && n * m + a == n * m' + b
    ensures m == m' && a == b
  {
    SameQuotient(m, a - 1, m', b - 1, n);
  }

  lemma {:induction false} RoundTrip(c: int, m: nat)
    ensures (c + SLOTS * m) % SLOTS == c % SLOTS
    decreases m
  {
    if m == 0 {
    } else {
      RoundTrip(c, m - 1);
    }
  }

  lemma {:induction false} ModAdd(c: int, c': int, d: int)
    requires c % SLOTS == c' % SLOTS
    ensures (c + d) % SLOTS == (c' + d) % SLOTS
  {
  }

  lemma {:induction false} GapSame(slots: seq<int>, slots': seq<int>, c: int, c': int, d: int)
    requires |slots| == SLOTS && |slots'| == SLOTS && c % SLOTS == c' % SLOTS && 1 <= d <= SLOTS
    requires forall i :: 0 <= i < SLOTS ==> (slots[i] >= 0 <==> slots'[i] >= 0)
    ensures Gap(slots, c, d) == Gap(slots', c', d)
    decreases SLOTS - d
  {
    ModAdd(c, c', d);
    if d == SLOTS {
    } else {
      GapSame(slots, slots', c, c', d + 1);
    }
  }

  /** The same turn from the same place a number of rounds further on. */
  lemma {:induction false} SameNext(slots: seq<int>, x: int, c: int)
    requires |slots| == SLOTS && x % SLOTS == c % SLOTS
    ensures (x + Gap(slots, x, 1)) % SLOTS == Next(slots, c) == Next(slots, c) % SLOTS
  {
    GapSame(slots, slots, x, c, 1);
    ModAdd(x, c, Gap(slots, c, 1));
  }

  lemma {:induction false} PlaceIsReached(slots: seq<int>, x: int, c: int, k: nat)
    requires |slots| == SLOTS && -1 <= c < SLOTS && x % SLOTS == c % SLOTS && (k == 0 ==> c >= 0)
    ensures Place(slots, x, k) % SLOTS == Reached(slots, c, k)
    decreases k
  {
    if k == 0 {
    } else {
      SameNext(slots, x, c);
      PlaceIsReached(slots, x + Gap(slots, x, 1), Next(slots, c), k - 1);
    }
  }

  /** k is d turns and then a number of full rounds of n turns. */
  ghost predicate InRounds(k: int, d: int, n: int) {
    exists m: nat :: k == n * m + d
  }

  /**
   * The whole schedule: with n occupied slots, the k-th turn after slot c falls on
   * the occupied slot q exactly when k is d, d + n, d + 2n, ..., where d, at most n,
   * is the number of turns that q is ahead.
   */
  lemma {:induction false} TurnOf(slots: seq<int>, c: int, k: nat, q: int)
    requires |slots| == SLOTS && -1 <= c < SLOTS && k >= 1 && 0 <= q < SLOTS && slots[q] >= 0
    ensures 1 <= Turns(slots, c, Ahead(c, q)) <= OccupiedSlots(slots)
    ensures Reached(slots, c, k) == q
      <==> InRounds(k, Turns(slots, c, Ahead(c, q)), OccupiedSlots(slots))
  {
    var n, g := OccupiedSlots(slots), Ahead(c, q);
    TurnsBounded(slots, c, g);
    var m, r := TurnAt(slots, c, k);
    InRoundsIff(k, n, m, Turns(slots, c, r), Turns(slots, c, g));
    if Turns(slots, c, r) == Turns(slots, c, g) {
      SameTurn(slots, c, r, g);
    }
    if Reached(slots, c, k) == q {
      SamePlace(c, r, g);
    }
  }

  /** The k-th turn: m whole rounds, and r places of the next. */
  lemma {:induction false} TurnAt(slots: seq<int>, c: int, k: nat) returns (m: nat, r: nat)
    requires |slots| == SLOTS && SomeOccupied(slots) && -1 <= c < SLOTS && k >= 1
    ensures 1 <= r <= SLOTS && OccupiedAt(slots, c, r) && Reached(slots, c, k) == (c + r) % SLOTS
    ensures k == OccupiedSlots(slots) * m + Turns(slots, c, r) && 1 <= Turns(slots, c, r) <= OccupiedSlots(slots)
  {
    PlaceIsTurn(slots, c, k);
    PlaceIsReached(slots, c, c, k);
    var x := Place(slots, c, k) - c;
    m, r := (x - 1) / SLOTS, (x - 1) % SLOTS + 1;
    assert x == SLOTS * m + r;
    RoundTrip(c + r, m);
    assert (c + x) % SLOTS == (c + r) % SLOTS;
    TurnsOfRounds(slots, c, m, r);
    TurnsBounded(slots, c, r);
  }

  lemma {:induction false} InRoundsIff(k: nat, n: nat, m: nat, a: nat, d: nat)
    requires k == n * m + a && 1 <= a <= n && 1 <= d <= n
    ensures InRounds(k, d, n) <==> a == d
  {
    if InRounds(k, d, n) {
      var m': nat :| k == n * m' + d;
      SameRest(n, m, a, m', d);
    }
  }

  lemma {:induction false} SamePlace(c: int, r: int, g: int)
    requires 1 <= r <= SLOTS && 1 <= g <= SLOTS && (c + r) % SLOTS == (c + g) % SLOTS
    ensures r == g
  {
  }

  lemma {:induction false} TurnsBounded(slots: seq<int>, c: int, g: nat)
    requires |slots| == SLOTS && -1 <= c < SLOTS && 1 <= g <= SLOTS && OccupiedAt(slots, c, g)
    ensures 1 <= Turns(slots, c, g) <= OccupiedSlots(slots)
  {
    TurnsGrow(slots, c, 0, g);
    TurnsGrow(slots, c, g, SLOTS);
    TurnsRound(slots, c);
  }

  lemma {:induction false} SameTurn(slots: seq<int>, c: int, r: nat, g: nat)
    requires |slots| == SLOTS && OccupiedAt(slots, c, r) && OccupiedAt(slots, c, g)
    requires Turns(slots, c, r) == Turns(slots, c, g)
    ensures r == g
  {
    if r < g {
      TurnsGrow(slots, c, r, g);
    } else {
      TurnsGrow(slots, c, g, r);
    }
  }

  /**
   * Fairness: in every window of n turns, n the number of occupied slots, each
   * occupied slot has exactly one turn.
   */
  lemma {:induction false} OneTurnPerRound(slots: seq<int>, c: int, start: nat, q: int)
    requires |slots| == SLOTS && -1 <= c < SLOTS && 0 <= q < SLOTS && slots[q] >= 0
    ensures exists k :: start < k <= start + OccupiedSlots(slots) && Reached(slots, c, k) == q
    ensures forall k, l | start < k <= start + OccupiedSlots(slots) && start < l <= start + OccupiedSlots(slots) ::
      Reached(slots, c, k) == q && Reached(slots, c, l) == q ==> k == l
  {
    var n, d := OccupiedSlots(slots), Turns(slots, c, Ahead(c, q));
    TurnOf(slots, c, 1, q);
    var k := RoundIn(n, d, start);
    TurnOf(slots, c, k, q);
    forall k, l | start < k <= start + n && start < l <= start + n
        && Reached(slots, c, k) == q && Reached(slots, c, l) == q
      ensures k == l
    {
      TurnOf(slots, c, k, q);
      TurnOf(slots, c, l, q);
      var i: nat :| k == n * i + d;
      var j: nat :| l == n * j + d;
      if i < j {
        MulStep(n, i, j);
      } else if j < i {
        MulStep(n, j, i);
      }
    }
  }

  /** Some member of d, d + n, d + 2n, ... lies in every window of n numbers. */
  lemma {:induction false} RoundIn(n: nat, d: nat, start: nat) returns (k: nat)
    requires 1 <= d <= n
    ensures start < k <= start + n && InRounds(k, d, n)
    decreases start
  {
    if start < n {
      if start < d {
        k := d;
        assert k == n * 0 + d;
      } else {
        k := d + n;
        assert k == n * 1 + d;
      }
    } else {
      var k' := RoundIn(n, d, start - n);
      var m: nat :| k' == n * m + d;
      k := k' + n;
      assert n * (m + 1) == n * m + n;
      assert k == n * (m + 1) + d;
    }
  }

  // ---------------------------------------------------------------- over runs

  /** The three terminals' slots are occupied and no others. */
  ghost predicate ThreeOccupied(slots: seq<int>) {
    |slots| == SLOTS && forall i :: 0 <= i < SLOTS ==> (slots[i] >= 0 <==> 0 <= i < 3)
  }

  /** What the scheduler's search looks at. */
  datatype View = View(slots: seq<int>, current: int)

  /** The views of the states of a run. */
  function Views(s: State, es: seq<Event>): (vs: seq<View>)
    requires s.Shaped()
    ensures |vs| == |es| + 1 && vs[0] == View(s.slots, s.current) && vs[|es|].current == Run(s, es).current
    decreases |es|
  {
    [View(s.slots, s.current)] + if es == [] then [] else Views(Step(s, es[0]), es[1..])
  }

  /** Along the run the same slots are occupied and only ticks change the current one. */
  ghost predicate Steady(vs: seq<View>, es: seq<Event>)
    requires |vs| == |es| + 1
    decreases |es|
  {
    && ThreeOccupied(vs[0].slots) && 0 <= vs[0].current < 3
    && (es != [] ==>
      && vs[1].current == (if es[0] == Tick then Next(vs[0].slots, vs[0].current) else vs[0].current)
      && Steady(vs[1..], es[1..]))
  }

  lemma {:induction false} InvOccupied(s: State, ch: Chains)
    requires Inv(s, ch)
    ensures ThreeOccupied(s.slots)
  {
    Leaf(s, ch, 0);
    Leaf(s, ch, 1);
    Leaf(s, ch, 2);
  }

  lemma {:induction false} StepCurrent(s: State, ch: Chains, e: Event)
    requires Inv(s, ch) && Allowed(s, e)
    ensures Step(s, e).current == if e == Tick then Next(s.slots, s.current) else s.current
  {
    SlotIsCurrent(s, ch);
    if Accepts(s, e) {
      PidIsFresh(s.bits, s.memory, ch);
    }
  }

  /** Executes and child halts change neither the current slot nor which slots are occupied. */
  lemma {:induction false} RunIsSteady(s: State, ch: Chains, es: seq<Event>)
    requires Inv(s, ch) && AllAllowed(s, es)
    ensures Steady(Views(s, es), es)
    decreases |es|
  {
    InvOccupied(s, ch);
    if es == [] {
    } else {
      assert Views(s, es)[1..] == Views(Step(s, es[0]), es[1..]);
      StepCurrent(s, ch, es[0]);
      StepKeeps(s, ch, es[0]);
      RunIsSteady(Step(s, es[0]), StepChains(s, ch, es[0]), es[1..]);
    }
  }

  lemma {:induction false} NextSame(slots: seq<int>, slots': seq<int>, c: int)
    requires ThreeOccupied(slots) && ThreeOccupied(slots')
    ensures Next(slots, c) == Next(slots', c)
  {
    GapSame(slots, slots', c, c, 1);
  }

  lemma {:induction false} ReachedSame(slots: seq<int>, slots': seq<int>, c: int, k: nat)
    requires ThreeOccupied(slots) && ThreeOccupied(slots') && -1 <= c < SLOTS
    ensures Reached(slots, c, k) == Reached(slots', c, k)
    decreases k
  {
    if k == 0 {
    } else {
      NextSame(slots, slots', c);
      ReachedSame(slots, slots', Next(slots, c), k - 1);
    }
  }

  lemma {:induction false} SteadyPlace(vs: seq<View>, es: seq<Event>)
    requires |vs| == |es| + 1 && Steady(vs, es)
    ensures vs[|es|].current == Reached(vs[0].slots, vs[0].current, Count(es, Tick))
    decreases |es|
  {
    if es == [] {
    } else {
      SteadyPlace(vs[1..], es[1..]);
      ReachedSame(vs[0].slots, vs[1].slots, vs[1].current, Count(es[1..], Tick));
    }
  }

  /**
   * Fairness over runs: with executes and child halts in any number at any time, the
   * current slot depends only on the number of ticks; so, by TurnOf, the k-th tick
   * makes terminal q current exactly when k is q's lead plus full rounds.
   */
  lemma {:induction false} TerminalsTakeTurns(s: State, ch: Chains, es: seq<Event>, q: int)
    requires Inv(s, ch) && AllAllowed(s, es) && 0 <= q < 3 && Count(es, Tick) >= 1
    ensures Run(s, es).current == Reached(s.slots, s.current, Count(es, Tick))
    ensures Run(s, es).current == q
      <==> InRounds(Count(es, Tick), Turns(s.slots, s.current, Ahead(s.current, q)), OccupiedSlots(s.slots))
  {
    RunIsSteady(s, ch, es);
    InvOccupied(s, ch);
    SteadyPlace(Views(s, es), es);
    TurnOf(s.slots, s.current, Count(es, Tick), q);
  }

  /** From one of the three terminals' slots the search turns to the next of them. */
  lemma {:induction false} NextOfThree(slots: seq<int>, c: int)
    requires ThreeOccupied(slots) && 0 <= c < 3
    ensures Next(slots, c) == (c + 1) % 3
  {
    if c == 2 {
      assert !OccupiedAt(slots, 2, 1) && !OccupiedAt(slots, 2, 2);
      assert !OccupiedAt(slots, 2, 3) && !OccupiedAt(slots, 2, 4);
      assert OccupiedAt(slots, 2, 5);
      assert Gap(slots, 2, 4) == Gap(slots, 2, 5) == 5;
      assert Gap(slots, 2, 2) == Gap(slots, 2, 3) == Gap(slots, 2, 4);
    } else {
      assert OccupiedAt(slots, c, 1);
    }
  }

  lemma {:induction false} ReachedOfThree(slots: seq<int>, c: int, k: nat)
    requires ThreeOccupied(slots) && 0 <= c < 3
    ensures Reached(slots, c, k) == (c + k) % 3
    decreases k
  {
    if k == 0 {
    } else {
      NextOfThree(slots, c);
      ReachedOfThree(slots, Next(slots, c), k - 1);
      TurnsAdd(c, k);
    }
  }

  lemma {:induction false} TurnsAdd(c: int, k: nat)
    requires k > 0
    ensures ((c + 1) % 3 + (k - 1)) % 3 == (c + k) % 3
  {
  }

  lemma {:induction false} TurnsFrom(s: State, ch: Chains, es: seq<Event>)
    requires Inv(s, ch) && AllAllowed(s, es)
    ensures Run(s, es).current == (s.current + Count(es, Tick)) % 3
  {
    RunIsSteady(s, ch, es);
    TurnsOfViews(Views(s, es), es);
  }

  lemma {:induction false} TurnsOfViews(vs: seq<View>, es: seq<Event>)
    requires |vs| == |es| + 1 && Steady(vs, es)
    ensures vs[|es|].current == (vs[0].current + Count(es, Tick)) % 3
  {
    SteadyPlace(vs, es);
    ReachedOfThree(vs[0].slots, vs[0].current, Count(es, Tick));
  }

  /**
   * After boot, whatever is executed and halted in between, k ticks make slot (2 + k) % 3
   * current: the terminals 0, 1, 2, 0, 1, 2, and so on.
   */
  lemma {:induction false} TerminalsInTurn(b: State, es: seq<Event>)
    requires b == Booted() && AllAllowed(b, es)
    ensures Run(b, es).current == (2 + Count(es, Tick)) % 3
  {
    Boot();
    BootTicks();
    TurnsFrom(b, [[1], [2], [3]], es);
  }
}
