/**
 * add_frames of fish/fish.c on the blink list of fish/blink.S: which of the additions
 * for two frames end up in the list, in which slots, and what the screen shows then.
 */
module Loading {
  import opened Bytes
  import opened Blink
  import opened BlinkRuns
  import F = Frames

  const LENGTH: u16 := 15

  /** The structure that add_frames passes; status, countdown and next are set by the addition. */
  function NodeOf(r: F.Request): Node
    requires r.location < U16
  {
    Node(r.location, r.onChar, r.offChar, LENGTH, LENGTH, 0, 0, Null)
  }

  ghost predicate AllSound(reqs: seq<F.Request>) {
    forall i :: 0 <= i < |reqs| ==> 0 < reqs[i].location < U16
  }

  function AddsOf(reqs: seq<F.Request>): seq<Op>
    requires forall i :: 0 <= i < |reqs| ==> reqs[i].location < U16
  {
    seq(|reqs|, i requires 0 <= i < |reqs| => Add(NodeOf(reqs[i])))
  }

  /** The requests that find a location on the screen and a free slot. */
  function Taken(reqs: seq<F.Request>): (acc: seq<F.Request>)
    ensures |acc| <= SLOTS && |acc| <= |reqs|
  {
    if reqs == [] then []
    else
      var acc, r := Taken(reqs[..|reqs| - 1]), reqs[|reqs| - 1];
      if r.location < CELLS && |acc| < SLOTS then acc + [r] else acc
  }

  /** The slots m - 1, ..., 1, 0. */
  function Down(m: nat): (xs: seq<nat>)
    ensures |xs| == m && forall i :: 0 <= i < m ==> xs[i] == m - 1 - i
  {
    seq(m, i requires 0 <= i < m => m - 1 - i)
  }

  /** What a screen byte shows: the on character of the last request for its cell, or what it showed before. */
  function ShownAt(screen: seq<byte>, acc: seq<F.Request>, p: nat): byte
    requires p < |screen|
  {
    if acc == [] then screen[p]
    else
      var r := acc[|acc| - 1];
      if p == 2 * r.location then r.onChar else ShownAt(screen, acc[..|acc| - 1], p)
  }

  /** The requests that were taken fill the pool from slot 0 on, the last one at the head of the list. */
  ghost predicate Holds(h: Held, screen: seq<byte>, acc: seq<F.Request>) { h.Good() && Stores(h, screen, acc) }

  ghost predicate Stores(h: Held, screen: seq<byte>, acc: seq<F.Request>) {
    && |acc| <= SLOTS && |h.state.pool| == SLOTS
    && (forall k :: 0 <= k < |acc| ==> 0 < acc[k].location < CELLS)
    && h.list == Down(|acc|)
    && Filed(h.state.pool, acc)
    && Displayed(h.state.screen, screen, acc)
  }

  ghost predicate Filed(pool: seq<Node>, acc: seq<F.Request>) {
    |acc| <= |pool| && forall k :: 0 <= k < |acc| ==> HoldsNode(pool[k], acc[k])
  }

  ghost predicate Displayed(now: seq<byte>, screen: seq<byte>, acc: seq<F.Request>) {
    |now| == |screen| == 2 * CELLS && forall p :: 0 <= p < 2 * CELLS ==> now[p] == ShownAt(screen, acc, p)
  }

  lemma {:induction false} FiledNext(pool: seq<Node>, acc: seq<F.Request>, n: Node, r: F.Request)
    requires Filed(pool, acc) && |acc| < |pool| && HoldsNode(n, r)
    ensures Filed(pool[|acc| := n], acc + [r])
  {
  }

  lemma {:induction false} DownNext(m: nat)
    ensures [m] + Down(m) == Down(m + 1)
  {
  }

  /** A node that was just added for this request. */
  predicate HoldsNode(n: Node, r: F.Request) {
    && n.location == r.location && n.onChar == r.onChar && n.offChar == r.offChar
    && n.onLength == LENGTH && n.offLength == LENGTH && n.countdown == LENGTH && n.status == 1
  }

  lemma {:induction false} FirstFreeIs(pool: seq<Node>, m: nat)
    requires m <= |pool| && (forall k :: 0 <= k < m ==> pool[k].location != 0) && (m < |pool| ==> pool[m].location == 0)
    ensures FirstFree(pool) == m
  {
  }

  lemma {:induction false} NextSlot(h: Held, screen: seq<byte>, acc: seq<F.Request>)
    requires Holds(h, screen, acc)
    ensures FirstFree(h.state.pool) == |acc|
  {
    var pool, m := h.state.pool, |acc|;
    forall k | 0 <= k < m ensures pool[k].location != 0 {
      assert HoldsNode(pool[k], acc[k]);
    }
    if m < SLOTS {
      assert m !in h.list;
    }
    FirstFreeIs(pool, m);
  }

  lemma {:induction false} ShownLast(screen: seq<byte>, acc: seq<F.Request>, r: F.Request, p: nat)
    requires p < |screen|
    ensures ShownAt(screen, acc + [r], p) == if p == 2 * r.location then r.onChar else ShownAt(screen, acc, p)
  {
    assert (acc + [r])[..|acc|] == acc;
  }

  /** One request, when the slots are taken in order. */
  lemma {:induction false} OneStored(h: Held, screen: seq<byte>, acc: seq<F.Request>, r: F.Request)
    requires Stores(h, screen, acc) && 0 < r.location < U16 && FirstFree(h.state.pool) == |acc| &&
      InPool(h.state.pool, h.list)
    ensures Stores(Step(h, Add(NodeOf(r))), screen, if r.location < CELLS && |acc| < SLOTS then acc + [r] else acc)
  {
    var n, m := NodeOf(r), |acc|;
    if r.location < CELLS && m < SLOTS {
      DownNext(m);
      FiledNext(h.state.pool, acc, n.(status := 1, countdown := n.onLength, next := h.state.head), r);
      PokeShows(h.state.screen, screen, acc, r);
    }
  }

  lemma {:induction false} OneRequest(h: Held, screen: seq<byte>, acc: seq<F.Request>, r: F.Request)
    requires Holds(h, screen, acc) && 0 < r.location < U16
    ensures Holds(Step(h, Add(NodeOf(r))), screen, if r.location < CELLS && |acc| < SLOTS then acc + [r] else acc)
  {
    NextSlot(h, screen, acc);
    StepKeeps(h, Add(NodeOf(r)));
    OneStored(h, screen, acc, r);
  }

  lemma {:induction false} PokeShows(now: seq<byte>, screen: seq<byte>, acc: seq<F.Request>, r: F.Request)
    requires Displayed(now, screen, acc) && r.location < CELLS
    ensures Displayed(Poke(now, r.location, r.onChar), screen, acc + [r])
  {
    forall p | 0 <= p < 2 * CELLS ensures Poke(now, r.location, r.onChar)[p] == ShownAt(screen, acc + [r], p) {
      ShownLast(screen, acc, r, p);
    }
  }

  lemma {:induction false} RunLast(h: Held, ops: seq<Op>, op: Op)
    requires h.Good() && Proper(op) && forall i :: 0 <= i < |ops| ==> Proper(ops[i])
    ensures Run(h, ops + [op]) == Step(Run(h, ops), op)
    decreases |ops|
  {
    StepKeeps(Run(h, ops), op);
    if ops == [] {
      assert (ops + [op])[1..] == [];
    } else {
      assert (ops + [op])[1..] == ops[1..] + [op];
      StepKeeps(h, ops[0]);
      RunLast(Step(h, ops[0]), ops[1..], op);
    }
  }

  /**
   * Any requests, none of them for location 0, from the zeroed pool: those that find a
   * location on the screen and a free slot are in the list, the others change nothing.
   */
  lemma {:induction false} LoadedIs(screen: seq<byte>, reqs: seq<F.Request>)
    requires |screen| == 2 * CELLS && AllSound(reqs)
    ensures Start(screen).Good() && Holds(Run(Start(screen), AddsOf(reqs)), screen, Taken(reqs))
    decreases |reqs|
  {
    if reqs == [] {
    } else {
      var most, r := reqs[..|reqs| - 1], reqs[|reqs| - 1];
      LoadedIs(screen, most);
      assert AddsOf(reqs) == AddsOf(most) + [Add(NodeOf(r))];
      RunLast(Start(screen), AddsOf(most), Add(NodeOf(r)));
      OneRequest(Run(Start(screen), AddsOf(most)), screen, Taken(most), r);
    }
  }

  // ---------------------------------------------------------------- distinct locations

  /** Distinct numbers from 1 to n. */
  lemma {:induction false} FewDistinct(xs: seq<nat>, n: nat)
    requires (forall i :: 0 <= i < |xs| ==> 1 <= xs[i] <= n) && (forall i, j :: 0 <= i < j < |xs| ==> xs[i] != xs[j])
    ensures |xs| <= n
    decreases n
  {
    if xs == [] {
    } else if n !in xs {
      assert 1 <= xs[0] <= n;
      FewDistinct(xs, n - 1);
    } else {
      var k :| 0 <= k < |xs| && xs[k] == n;
      FewDistinct(xs[..k] + xs[k + 1..], n - 1);
    }
  }

  lemma {:induction false} TakenLast(reqs: seq<F.Request>, r: F.Request)
    ensures Taken(reqs + [r]) == if r.location < CELLS && |Taken(reqs)| < SLOTS then Taken(reqs) + [r] else Taken(reqs)
  {
    assert (reqs + [r])[..|reqs|] == reqs;
  }

  lemma {:induction false} TakenFrom(reqs: seq<F.Request>, k: nat)
    requires k < |Taken(reqs)|
    ensures Taken(reqs)[k] in reqs && Taken(reqs)[k].location < CELLS
    decreases |reqs|
  {
    var most, last := reqs[..|reqs| - 1], reqs[|reqs| - 1];
    assert reqs == most + [last];
    TakenLast(most, last);
    if k < |Taken(most)| {
      TakenFrom(most, k);
    }
  }

  /** A request behind others with distinct locations differs from all that were taken. */
  lemma {:induction false} LastDiffers(most: seq<F.Request>, last: F.Request, k: nat)
    requires F.Apart(most + [last]) && k < |Taken(most)|
    ensures Taken(most)[k].location != last.location
  {
    TakenFrom(most, k);
    var i :| 0 <= i < |most| && most[i] == Taken(most)[k];
    var all := most + [last];
    assert all[i].location != all[|most|].location;
  }

  lemma {:induction false} TakenApart(reqs: seq<F.Request>)
    requires F.Apart(reqs)
    ensures F.Apart(Taken(reqs))
    decreases |reqs|
  {
    if reqs == [] {
    } else {
      var most, last := reqs[..|reqs| - 1], reqs[|reqs| - 1];
      assert reqs == most + [last];
      TakenLast(most, last);
      TakenApart(most);
      forall k | 0 <= k < |Taken(most)| ensures Taken(most)[k].location != last.location {
        LastDiffers(most, last, k);
      }
    }
  }

  /** Distinct locations on the screen never fill the pool. */
  lemma {:induction false} NeverFull(reqs: seq<F.Request>)
    requires AllSound(reqs) && F.Apart(reqs)
    ensures |Taken(reqs)| < SLOTS
  {
    var acc := Taken(reqs);
    TakenApart(reqs);
    var at: seq<nat> := seq(|acc|, k requires 0 <= k < |acc| => acc[k].location);
    forall k | 0 <= k < |at| ensures 1 <= at[k] <= CELLS - 1 {
      TakenFrom(reqs, k);
      var i :| 0 <= i < |reqs| && reqs[i] == acc[k];
    }
    FewDistinct(at, CELLS - 1);
  }

  /** With distinct locations no request is refused for want of a slot. */
  lemma {:induction false} ApartAreTaken(reqs: seq<F.Request>, r: F.Request)
    requires AllSound(reqs) && F.Apart(reqs)
    ensures r in Taken(reqs) <==> r in reqs && r.location < CELLS
    decreases |reqs|
  {
    if reqs == [] {
    } else {
      var most, last := reqs[..|reqs| - 1], reqs[|reqs| - 1];
      assert reqs == most + [last];
      TakenLast(most, last);
      NeverFull(most);
      ApartAreTaken(most, r);
    }
  }

  lemma {:induction false} EachShows(screen: seq<byte>, acc: seq<F.Request>, k: nat)
    requires F.Apart(acc) && k < |acc| && 2 * acc[k].location < |screen|
    ensures ShownAt(screen, acc, 2 * acc[k].location) == acc[k].onChar
    decreases |acc|
  {
    if k == |acc| - 1 {
    } else {
      EachShows(screen, acc[..|acc| - 1], k);
    }
  }

  lemma {:induction false} OthersStay(screen: seq<byte>, acc: seq<F.Request>, p: nat)
    requires p < |screen| && forall k :: 0 <= k < |acc| ==> p != 2 * acc[k].location
    ensures ShownAt(screen, acc, p) == screen[p]
    decreases |acc|
  {
    if acc == [] {
    } else {
      OthersStay(screen, acc[..|acc| - 1], p);
    }
  }

  // ---------------------------------------------------------------- two frames

  /** The list after add_frames on the zeroed pool. */
  ghost function Loaded(screen: seq<byte>, rows0: seq<seq<byte>>, rows1: seq<seq<byte>>): (h: Held)
    requires |screen| == 2 * CELLS && AllSound(F.Requests(F.FrameAdditions(rows0, rows1, 0)))
    ensures h.Good()
  {
    LoadedIs(screen, F.Requests(F.FrameAdditions(rows0, rows1, 0)));
    Run(Start(screen), AddsOf(F.Requests(F.FrameAdditions(rows0, rows1, 0))))
  }

  /** The node of a cell: on, with 15 ticks to go, 15 on and 15 off, and the characters of the two frames. */
  ghost predicate IsCell(n: Node, rows0: seq<seq<byte>>, rows1: seq<seq<byte>>, r: nat, c: nat) {
    && n.location == (80 * r + c + 40) % 65536
    && n.onChar == F.CharAt(F.Row(rows0, r), c) && n.offChar == F.CharAt(F.Row(rows1, r), c)
    && n.onLength == 15 && n.offLength == 15 && n.countdown == 15 && n.status == 1
  }

  /** With distinct locations, each loaded node is alone in its cell and shows its character. */
  lemma {:induction false} LoadedCell(h: Held, screen: seq<byte>, acc: seq<F.Request>, k: nat)
    requires Holds(h, screen, acc) && F.Apart(acc) && k < |acc|
    ensures HasCell(h, k, acc[k].location) && HoldsNode(h.state.pool[k], acc[k])
  {
    assert h.list[|h.list| - 1 - k] == k;
    EachShows(screen, acc, k);
    assert HoldsNode(h.state.pool[k], acc[k]);
    forall i | 0 <= i < |h.list| && h.list[i] != k ensures h.state.pool[h.list[i]].location != acc[k].location {
      assert HoldsNode(h.state.pool[h.list[i]], acc[h.list[i]]);
    }
  }

  /** The request of a marked cell on the screen is taken. */
  lemma {:induction false} TakenCell(rows0: seq<seq<byte>>, rows1: seq<seq<byte>>, r: nat, c: nat) returns (k: nat)
    requires F.CellsApart(rows0, rows1) && AllSound(F.Requests(F.FrameAdditions(rows0, rows1, 0)))
    requires F.Marked(rows0, rows1, r, c) && F.Location(r, c) < 2000
    ensures var acc := Taken(F.Requests(F.FrameAdditions(rows0, rows1, 0)));
      && F.Apart(acc) && k < |acc| && acc[k].location == F.Location(r, c)
      && acc[k].onChar == F.CharAt(F.Row(rows0, r), c) && acc[k].offChar == F.CharAt(F.Row(rows1, r), c)
  {
    var reqs, req := F.Requests(F.FrameAdditions(rows0, rows1, 0)), F.RequestOf(F.AdditionAt(rows0, rows1, r, c));
    F.CellIsAsked(rows0, rows1, r, c);
    F.LocationsApartIff(rows0, rows1);
    ApartAreTaken(reqs, req);
    TakenApart(reqs);
    k :| 0 <= k < |Taken(reqs)| && Taken(reqs)[k] == req;
  }

  /** The slot of a marked cell's node. */
  lemma {:induction false} SlotOfCell(screen: seq<byte>, rows0: seq<seq<byte>>, rows1: seq<seq<byte>>, r: nat, c: nat)
    returns (slot: nat)
    requires |screen| == 2 * CELLS && F.CellsApart(rows0, rows1)
    requires AllSound(F.Requests(F.FrameAdditions(rows0, rows1, 0)))
    requires F.Marked(rows0, rows1, r, c) && (80 * r + c + 40) % 65536 < 2000
    ensures var h := Loaded(screen, rows0, rows1);
      HasCell(h, slot, (80 * r + c + 40) % 65536) && IsCell(h.state.pool[slot], rows0, rows1, r, c)
  {
    F.LocationIs(r, c);
    slot := TakenCell(rows0, rows1, r, c);
    LoadedIs(screen, F.Requests(F.FrameAdditions(rows0, rows1, 0)));
    LoadedCell(Loaded(screen, rows0, rows1), screen, Taken(F.Requests(F.FrameAdditions(rows0, rows1, 0))), slot);
  }

  /**
   * Two frames whose marked cells have distinct locations other than 0: a location of the
   * screen is in the list exactly when it is that of a marked cell, and such a cell's node
   * carries its two characters and the screen shows the first.
   */
  lemma {:induction false} MarkedCellShows(screen: seq<byte>, rows0: seq<seq<byte>>, rows1: seq<seq<byte>>, r: nat,
                                           c: nat)
    requires |screen| == 2 * CELLS && F.CellsApart(rows0, rows1)
    requires AllSound(F.Requests(F.FrameAdditions(rows0, rows1, 0)))
    requires F.Marked(rows0, rows1, r, c) && (80 * r + c + 40) % 65536 < 2000
    ensures var h, q := Loaded(screen, rows0, rows1), (80 * r + c + 40) % 65536;
      && h.state.screen[2 * q] == F.CharAt(F.Row(rows0, r), c)
      && exists slot :: slot in h.list && IsCell(h.state.pool[slot], rows0, rows1, r, c)
  {
    var slot := SlotOfCell(screen, rows0, rows1, r, c);
  }

  lemma {:induction false} TakenElsewhere(rows0: seq<seq<byte>>, rows1: seq<seq<byte>>, p: nat, k: nat)
    requires k < |Taken(F.Requests(F.FrameAdditions(rows0, rows1, 0)))|
    requires OffCells(rows0, rows1, p)
    ensures p != 2 * Taken(F.Requests(F.FrameAdditions(rows0, rows1, 0)))[k].location
  {
    var reqs := F.Requests(F.FrameAdditions(rows0, rows1, 0));
    TakenFrom(reqs, k);
    var i :| 0 <= i < |reqs| && reqs[i] == Taken(reqs)[k];
    F.CellOf(rows0, rows1, i);
  }

  /** The byte is no marked cell's. */
  ghost predicate OffCells(rows0: seq<seq<byte>>, rows1: seq<seq<byte>>, p: nat) {
    forall r: nat, c: nat :: F.Marked(rows0, rows1, r, c) ==> p != 2 * F.Location(r, c)
  }

  lemma {:induction false} OffCellsIs(rows0: seq<seq<byte>>, rows1: seq<seq<byte>>, p: nat)
    requires forall r: nat, c: nat :: F.Marked(rows0, rows1, r, c) ==> p != 2 * ((80 * r + c + 40) % 65536)
    ensures OffCells(rows0, rows1, p)
  {
    forall r: nat, c: nat | F.Marked(rows0, rows1, r, c) ensures p != 2 * F.Location(r, c) {
      F.LocationIs(r, c);
    }
  }

  /** Every node in the list is that of a marked cell, and every byte that is no marked cell's stays. */
  lemma {:induction false} NothingElseShows(screen: seq<byte>, rows0: seq<seq<byte>>, rows1: seq<seq<byte>>, p: nat)
    requires |screen| == 2 * CELLS && p < 2 * CELLS
    requires AllSound(F.Requests(F.FrameAdditions(rows0, rows1, 0)))
    requires forall r: nat, c: nat :: F.Marked(rows0, rows1, r, c) ==> p != 2 * ((80 * r + c + 40) % 65536)
    ensures var h := Loaded(screen, rows0, rows1);
      && h.state.screen[p] == screen[p]
      && forall slot :: slot in h.list ==> 2 * h.state.pool[slot].location != p
  {
    var adds := F.FrameAdditions(rows0, rows1, 0);
    var reqs := F.Requests(adds);
    var acc := Taken(reqs);
    LoadedIs(screen, reqs);
    OffCellsIs(rows0, rows1, p);
    forall k | 0 <= k < |acc| ensures p != 2 * acc[k].location {
      TakenElsewhere(rows0, rows1, p, k);
    }
    OthersStay(screen, acc, p);
    var h := Loaded(screen, rows0, rows1);
    forall slot | slot in h.list ensures 2 * h.state.pool[slot].location != p {
      assert HoldsNode(h.state.pool[slot], acc[slot]);
    }
  }

  // ---------------------------------------------------------------- the picture moves

  /** k timer ticks. */
  function TicksOnly(k: nat): (ops: seq<Op>)
    ensures |ops| == k && forall i :: 0 <= i < k ==> ops[i] == Tick
  {
    seq(k, _ => Tick)
  }

  lemma {:induction false} OnlyTicks(k: nat)
    ensures CountTicks(TicksOnly(k)) == k
  {
    if k > 0 {
      OnlyTicks(k - 1);
      assert TicksOnly(k)[1..] == TicksOnly(k - 1);
    }
  }

  /**
   * Two frames whose marked cells have distinct locations other than 0: after k ticks each
   * marked cell on the screen shows its character of the first frame while k is in the
   * first 15 ticks of every 30, and its character of the second frame in the others.
   */
  lemma {:induction false} PictureMoves(screen: seq<byte>, rows0: seq<seq<byte>>, rows1: seq<seq<byte>>, r: nat, c: nat,
                                       k: nat)
    requires |screen| == 2 * CELLS && F.CellsApart(rows0, rows1)
    requires AllSound(F.Requests(F.FrameAdditions(rows0, rows1, 0)))
    requires F.Marked(rows0, rows1, r, c) && (80 * r + c + 40) % 65536 < 2000
    ensures var now := Run(Loaded(screen, rows0, rows1), TicksOnly(k)).state.screen;
      |now| == 4000 &&
      now[2 * ((80 * r + c + 40) % 65536)]
        == if k % 30 < 15 then F.CharAt(F.Row(rows0, r), c) else F.CharAt(F.Row(rows1, r), c)
  {
    var slot := SlotOfCell(screen, rows0, rows1, r, c);
    OnlyTicks(k);
    CellBlinks(Loaded(screen, rows0, rows1), slot, (80 * r + c + 40) % 65536, TicksOnly(k));
  }

  /** No node of the list is at this byte. */
  ghost predicate NoNodeAt(h: Held, p: nat) {
    InPool(h.state.pool, h.list) &&
    forall k {:trigger h.state.pool[h.list[k]]} :: 0 <= k < |h.list| ==> 2 * h.state.pool[h.list[k]].location != p
  }

  lemma {:induction false} TickFirstLeaves(s: State, xs: seq<nat>, k: nat, p: nat)
    requires Inv(s, xs) && k <= |xs| && NoNodeAt(Held(s, xs), p) && p < |s.screen|
    ensures TickFirst(s, xs, k).screen[p] == s.screen[p]
    decreases k
  {
    if k > 0 {
      TickFirstLeaves(s, xs, k - 1, p);
      TickFirstPool(s, xs, k - 1);
      assert TickFirst(s, xs, k - 1).pool[xs[k - 1]] == s.pool[xs[k - 1]];
    }
  }

  lemma {:induction false} TicksLeave(h: Held, k: nat, p: nat)
    requires h.Good() && NoNodeAt(h, p) && p < |h.state.screen|
    ensures var now := Run(h, TicksOnly(k)).state.screen; p < |now| && now[p] == h.state.screen[p]
    decreases k
  {
    if k > 0 {
      var s, xs, h' := h.state, h.list, Step(h, Tick);
      TickFirstLeaves(s, xs, |xs|, p);
      TickFirstPool(s, xs, |xs|);
      forall i | 0 <= i < |xs| ensures 2 * h'.state.pool[xs[i]].location != p {
        assert h'.state.pool[xs[i]] == TickNode(s.pool[xs[i]]);
      }
      RunFirst(h, TicksOnly(k));
      assert TicksOnly(k)[1..] == TicksOnly(k - 1);
      TicksLeave(h', k - 1, p);
    }
  }

  /** All bytes of the screen that are no marked cell's stay through loading and any number of ticks. */
  lemma {:induction false} RestStays(screen: seq<byte>, rows0: seq<seq<byte>>, rows1: seq<seq<byte>>, p: nat, k: nat)
    requires |screen| == 2 * CELLS && p < 4000
    requires AllSound(F.Requests(F.FrameAdditions(rows0, rows1, 0)))
    requires forall r: nat, c: nat :: F.Marked(rows0, rows1, r, c) ==> p != 2 * ((80 * r + c + 40) % 65536)
    ensures var now := Run(Loaded(screen, rows0, rows1), TicksOnly(k)).state.screen; p < |now| && now[p] == screen[p]
  {
    NothingElseShows(screen, rows0, rows1, p);
    var h := Loaded(screen, rows0, rows1);
    assert forall i :: 0 <= i < |h.list| ==> h.list[i] in h.list;
    TicksLeave(h, k, p);
  }
}
