/**
 * The blinking-character list of fish/blink.S in the fixed pool of fish/fish.c: a
 * pointer list, an allocator that recognises a free slot by location 0, and a timer.
 */
module Blink {
  import opened Bytes

  const SLOTS := 2000

  type u16 = x: int | 0 <= x < 0x1_0000

  /** A pointer into the pool. */
  datatype Ptr = Null | At(slot: nat)

  /** struct mp1_blink_struct. */
  datatype Node = Node(location: u16, onChar: byte, offChar: byte, onLength: u16, offLength: u16,
                       countdown: u16, status: u16, next: Ptr)

  const ZERO := Node(0, 0, 0, 0, 0, 0, 0, Null)

  /** blink_array, mp1_list_head and the text screen. */
  datatype State = State(pool: seq<Node>, head: Ptr, screen: seq<byte>)

  // ---------------------------------------------------------------- one node

  /** The signed reading of a 16-bit word is positive. */
  predicate Positive(x: u16) { 0 < x < 0x8000 }

  predicate IsOn(n: Node) { n.status % 2 == 1 }

  predicate Expires(n: Node) { !Positive((n.countdown as int - 1) % U16) }

  /** One timer tick of a node: decw, and when the count is no longer positive, the other phase. */
  function TickNode(n: Node): Node {
    if !Expires(n) then n.(countdown := (n.countdown as int - 1) % U16)
    else if IsOn(n) then n.(countdown := n.offLength, status := n.status - 1)
    else n.(countdown := n.onLength, status := n.status + 1)
  }

  /** The character that a node shows in its current phase. */
  function Shows(n: Node): byte { if IsOn(n) then n.onChar else n.offChar }

  // ---------------------------------------------------------------- the list

  /** The pointer to the k-th node of the list xs. */
  function PtrAt(xs: seq<nat>, k: nat): Ptr { if k < |xs| then At(xs[k]) else Null }

  ghost predicate Distinct(xs: seq<nat>) {
    forall i, j :: 0 <= i < j < |xs| ==> xs[i] != xs[j]
  }

  /** Following next from head visits the slots xs and ends. */
  ghost predicate Linked(pool: seq<Node>, head: Ptr, xs: seq<nat>) {
    && head == PtrAt(xs, 0)
    && InPool(pool, xs)
    && (forall k {:trigger pool[xs[k]]} :: 0 <= k < |xs| ==> pool[xs[k]].next == PtrAt(xs, k + 1))
  }

  ghost predicate InPool(pool: seq<Node>, xs: seq<nat>) {
    forall k :: 0 <= k < |xs| ==> xs[k] < |pool|
  }

  /**
   * The list is acyclic, its nodes are distinct slots with locations on the screen, and
   * every slot that is not in the list is free and zero.
   */
  ghost predicate Inv(s: State, xs: seq<nat>) {
    && |s.pool| == SLOTS && |s.screen| == 2 * CELLS
    && Linked(s.pool, s.head, xs)
    && Distinct(xs)
    && OnScreen(s.pool, xs)
    && RestIsZero(s.pool, xs)
  }

  ghost predicate OnScreen(pool: seq<Node>, xs: seq<nat>) {
    InPool(pool, xs) && forall k {:trigger pool[xs[k]]} :: 0 <= k < |xs| ==> 1 <= pool[xs[k]].location < CELLS
  }

  ghost predicate RestIsZero(pool: seq<Node>, xs: seq<nat>) {
    forall i :: 0 <= i < |pool| && i !in xs ==> pool[i] == ZERO
  }

  /** mp1_malloc: the first slot whose location is 0, or the length. */
  function FirstFree(pool: seq<Node>): (r: nat)
    ensures r <= |pool| && (forall k :: 0 <= k < r ==> pool[k].location != 0) && (r < |pool| ==> pool[r].location == 0)
  {
    if pool == [] || pool[0].location == 0 then 0 else 1 + FirstFree(pool[1..])
  }

  /** mp1_find_helper: how many nodes come before the first one at a location, or the length. */
  function Find(pool: seq<Node>, xs: seq<nat>, location: int): (k: nat)
    requires forall i :: 0 <= i < |xs| ==> xs[i] < |pool|
    ensures k <= |xs| && (forall i :: 0 <= i < k ==> pool[xs[i]].location != location)
    ensures k < |xs| ==> pool[xs[k]].location == location
  {
    if xs == [] || pool[xs[0]].location == location then 0 else 1 + Find(pool, xs[1..], location)
  }

  function Poke(screen: seq<byte>, location: int, c: byte): seq<byte> {
    if 0 <= 2 * location < |screen| then screen[2 * location := c] else screen
  }

  // ---------------------------------------------------------------- the operations

  /** RTC_ADD succeeds: the location is on the screen and a slot is free. */
  predicate Adds(s: State, n: Node) { n.location < CELLS && FirstFree(s.pool) < |s.pool| }

  function Added(s: State, n: Node): State {
    if !Adds(s, n) then s
    else
      var slot := FirstFree(s.pool);
      State(s.pool[slot := n.(status := 1, countdown := n.onLength, next := s.head)], At(slot),
            Poke(s.screen, n.location, n.onChar))
  }

  /** The list after the k-th node has been unlinked and its slot cleared. */
  function Unlinked(s: State, xs: seq<nat>, k: nat): State
    requires k < |xs| && forall i :: 0 <= i < |xs| ==> xs[i] < |s.pool|
  {
    var next := s.pool[xs[k]].next;
    if k == 0 then s.(pool := s.pool[xs[0] := ZERO], head := next)
    else s.(pool := s.pool[xs[k - 1] := s.pool[xs[k - 1]].(next := next)][xs[k] := ZERO])
  }

  /** RTC_REMOVE. */
  function Removed(s: State, xs: seq<nat>, location: int): State
    requires forall i :: 0 <= i < |xs| ==> xs[i] < |s.pool|
  {
    var k := Find(s.pool, xs, location);
    if k == |xs| then s else Unlinked(s, xs, k)
  }

  /** RTC_SYNC: the second node takes over the times of the first; the cell shows its off character. */
  function Synced(s: State, xs: seq<nat>, first: int, second: int): State
    requires forall i :: 0 <= i < |xs| ==> xs[i] < |s.pool|
  {
    var f, t := Find(s.pool, xs, first), Find(s.pool, xs, second);
    if f == |xs| || t == |xs| then s
    else
      var src, dst := s.pool[xs[f]], s.pool[xs[t]];
      s.(pool := s.pool[xs[t] := dst.(onLength := src.onLength, offLength := src.offLength,
                                      countdown := src.countdown, status := src.status)],
         screen := Poke(s.screen, dst.location, dst.offChar))
  }

  /** One node of the list gets its tick. */
  function TickSlot(s: State, slot: nat): State
    requires slot < |s.pool|
  {
    var n := s.pool[slot];
    State(s.pool[slot := TickNode(n)], s.head,
          if Expires(n) then Poke(s.screen, n.location, Shows(TickNode(n))) else s.screen)
  }

  /** mp1_rtc_tasklet, after the first k nodes of the list. */
  function TickFirst(s: State, xs: seq<nat>, k: nat): (s': State)
    requires k <= |xs| && forall i :: 0 <= i < |xs| ==> xs[i] < |s.pool|
    ensures |s'.pool| == |s.pool| && |s'.screen| == |s.screen| && s'.head == s.head
  {
    if k == 0 then s else TickSlot(TickFirst(s, xs, k - 1), xs[k - 1])
  }

  function Ticked(s: State, xs: seq<nat>): State
    requires forall i :: 0 <= i < |xs| ==> xs[i] < |s.pool|
  {
    TickFirst(s, xs, |xs|)
  }

  // ---------------------------------------------------------------- the program

  class Fish {
    const pool: array<Node>
    const screen: array<byte>
    var head: Ptr
    /** The slots that following next from head visits. */
    ghost var list: seq<nat>

    ghost function Now(): State
      reads this, pool, screen
    {
      State(pool[..], head, screen[..])
    }

    ghost predicate Valid()
      reads this, pool, screen
    {
      Inv(Now(), list)
    }

    constructor ()
      ensures Valid() && list == [] && fresh(pool) && fresh(screen)
    {
      pool := new Node[SLOTS](_ => ZERO);
      screen := new byte[2 * CELLS];
      head := Null;
      list := [];
    }

    method PokeCell(location: nat, c: byte)
      requires 2 * location < screen.Length
      modifies screen
      ensures screen[..] == Poke(old(screen[..]), location, c)
    {
      screen[2 * location] := c;
    }

    method Malloc() returns (p: Ptr)
      ensures p == if FirstFree(pool[..]) < pool.Length then At(FirstFree(pool[..])) else Null
    {
      var i := 0;
      while i < pool.Length
        invariant 0 <= i <= FirstFree(pool[..])
      {
        assert pool[..][i] == pool[i];
        if pool[i].location == 0 {
          return At(i);
        }
        i := i + 1;
      }
      p := Null;
    }

    /** mp1_find_helper: the first node at a location. */
    method FindHelper(location: int) returns (p: Ptr)
      requires Valid()
      ensures p == PtrAt(list, Find(pool[..], list, location))
    {
      p := head;
      ghost var k := 0;
      while p != Null
        invariant k <= Find(pool[..], list, location) && p == PtrAt(list, k)
        decreases |list| - k
      {
        assert pool[..][list[k]] == pool[p.slot];
        if pool[p.slot].location == location {
          return;
        }
        p := pool[p.slot].next;
        k := k + 1;
      }
    }

    /**
     * mp1_ioctl_add, for any location: at location 0 the new node still looks free to
     * the allocator, and the list is no longer in order.
     */
    method Add(n: Node) returns (ret: int)
      requires Valid()
      modifies this, pool, screen
      ensures Now() == Added(old(Now()), n) && (ret == 0 <==> Adds(old(Now()), n)) && (ret == 0 || ret == -1)
      ensures n.location != 0 ==>
        Valid() && list == (if ret == 0 then [FirstFree(old(pool[..]))] + old(list) else old(list))
    {
      if n.location >= CELLS {
        return -1;
      }
      var p := Malloc();
      if p == Null {
        return -1;
      }
      ghost var s := Now();
      pool[p.slot] := n.(status := 1, countdown := n.onLength, next := head);
      head := p;
      PokeCell(n.location, n.onChar);
      list := [p.slot] + list;
      if n.location != 0 {
        AddKeeps(s, old(list), n);
      }
      ret := 0;
    }

    /** mp1_ioctl_remove: find the node, find the link that points to it, unlink and clear. */
    method Remove(location: int) returns (ret: int)
      requires Valid()
      modifies this, pool
      ensures Valid() && Now() == Removed(old(Now()), old(list), location)
      ensures var k := Find(old(pool[..]), old(list), location);
        && (ret == 0 <==> k < |old(list)|) && (ret == 0 || ret == -1)
        && list == if k < |old(list)| then Without(old(list), k) else old(list)
    {
      var p := FindHelper(location);
      if p == Null {
        return -1;
      }
      ghost var s, k := Now(), Find(pool[..], list, location);
      var prev := Null;
      var link := head;
      ghost var i := 0;
      while link != p
        invariant i <= k && link == PtrAt(list, i) && prev == (if i == 0 then Null else At(list[i - 1]))
        decreases k - i
      {
        assert pool[..][list[i]].next == PtrAt(list, i + 1);
        prev := link;
        link := pool[link.slot].next;
        i := i + 1;
      }
      assert i == k;
      var next := pool[p.slot].next;
      if prev == Null {
        head := next;
      } else {
        pool[prev.slot] := pool[prev.slot].(next := next);
      }
      pool[p.slot] := ZERO;
      RemoveKeeps(s, list, k);
      list := Without(list, k);
      ret := 0;
    }

    /** mp1_ioctl_sync. The conditional move never happens, since testb clears the sign and overflow flags. */
    method Sync(first: u16, second: u16) returns (ret: int)
      requires Valid()
      modifies pool, screen
      ensures Valid() && Now() == Synced(old(Now()), list, first, second)
      ensures ret == 0 <==> Find(old(pool[..]), list, first) < |list| && Find(old(pool[..]), list, second) < |list|
    {
      var f := FindHelper(first);
      if f == Null {
        return -1;
      }
      var t := FindHelper(second);
      if t == Null {
        return -1;
      }
      ghost var s := Now();
      var src, dst := pool[f.slot], pool[t.slot];
      pool[t.slot] := dst.(onLength := src.onLength, offLength := src.offLength,
                           countdown := src.countdown, status := src.status);
      PokeCell(dst.location, dst.offChar);
      SyncKeeps(s, list, first, second);
      ret := 0;
    }

    /** mp1_rtc_tasklet. */
    method Tick()
      requires Valid()
      modifies pool, screen
      ensures Valid() && Now() == Ticked(old(Now()), list)
    {
      ghost var s := Now();
      var p := head;
      ghost var k := 0;
      while p != Null
        invariant k <= |list| && p == PtrAt(list, k) && Now() == TickFirst(s, list, k)
        decreases |list| - k
      {
        TickFirstPool(s, list, k);
        assert s.pool[list[k]].next == PtrAt(list, k + 1);
        var n := pool[p.slot];
        var m := TickNode(n);
        pool[p.slot] := m;
        if Expires(n) {
          PokeCell(n.location, Shows(m));
        }
        p := m.next;
        k := k + 1;
      }
      TickKeeps(s, list);
    }
  }

  // ---------------------------------------------------------------- every operation keeps the list in order

  lemma {:induction false} AddKeeps(s: State, xs: seq<nat>, n: Node)
    requires Inv(s, xs) && Adds(s, n) && n.location != 0
    ensures Inv(Added(s, n), [FirstFree(s.pool)] + xs)
  {
    var slot, s' := FirstFree(s.pool), Added(s, n);
    assert slot !in xs;
    AddLinks(s.pool, s.head, xs, slot, s'.pool[slot]);
    AddLocates(s.pool, xs, slot, s'.pool[slot]);
  }

  lemma {:induction false} AddLinks(pool: seq<Node>, head: Ptr, xs: seq<nat>, slot: nat, n: Node)
    requires Linked(pool, head, xs) && Distinct(xs) && slot !in xs && slot < |pool| && n.next == head
    ensures Linked(pool[slot := n], At(slot), [slot] + xs) && Distinct([slot] + xs)
  {
    var ys := [slot] + xs;
    forall k | 0 <= k < |ys| ensures ys[k] < |pool| && pool[slot := n][ys[k]].next == PtrAt(ys, k + 1) {
      if k > 0 {
        assert ys[k] == xs[k - 1];
      }
    }
  }

  lemma {:induction false} AddLocates(pool: seq<Node>, xs: seq<nat>, slot: nat, n: Node)
    requires OnScreen(pool, xs) && RestIsZero(pool, xs) && slot < |pool| && 1 <= n.location < CELLS
    ensures OnScreen(pool[slot := n], [slot] + xs) && RestIsZero(pool[slot := n], [slot] + xs)
  {
    var ys := [slot] + xs;
    forall k | 0 <= k < |ys| ensures ys[k] < |pool| && 1 <= pool[slot := n][ys[k]].location < CELLS {
      if k > 0 {
        assert ys[k] == xs[k - 1];
      }
    }
    assert forall i :: i in xs ==> i in ys;
  }

  function Without(xs: seq<nat>, k: nat): (ys: seq<nat>)
    requires k < |xs|
    ensures |ys| == |xs| - 1
    ensures forall i :: 0 <= i < |ys| ==> ys[i] == if i < k then xs[i] else xs[i + 1]
  {
    xs[..k] + xs[k + 1..]
  }

  lemma {:induction false} WithoutMembers(xs: seq<nat>, k: nat, i: nat)
    requires k < |xs| && Distinct(xs)
    ensures i in Without(xs, k) <==> i in xs && i != xs[k]
  {
    var ys := Without(xs, k);
    if i in xs && i != xs[k] {
      var j :| 0 <= j < |xs| && xs[j] == i;
      assert ys[if j < k then j else j - 1] == i;
    }
  }

  /** Unlinking changes only the node itself and the next field of the one before it. */
  lemma {:induction false} UnlinkedNode(s: State, xs: seq<nat>, k: nat, j: nat)
    requires Inv(s, xs) && k < |xs| && j < |xs| && j != k
    ensures var n, n' := s.pool[xs[j]], Unlinked(s, xs, k).pool[xs[j]];
      n' == n.(next := if j + 1 == k then PtrAt(xs, k + 1) else PtrAt(xs, j + 1))
  {
    assert xs[j] != xs[k];
    assert s.pool[xs[j]].next == PtrAt(xs, j + 1);
    assert s.pool[xs[k]].next == PtrAt(xs, k + 1);
    if k > 0 && j + 1 != k {
      assert xs[j] != xs[k - 1];
    }
  }

  lemma {:induction false} RemoveLinks(s: State, xs: seq<nat>, k: nat)
    requires Inv(s, xs) && k < |xs|
    ensures var s' := Unlinked(s, xs, k);
      Linked(s'.pool, s'.head, Without(xs, k)) && OnScreen(s'.pool, Without(xs, k))
  {
    var s', ys := Unlinked(s, xs, k), Without(xs, k);
    forall i | 0 <= i < |ys|
      ensures ys[i] < SLOTS && s'.pool[ys[i]].next == PtrAt(ys, i + 1) && 1 <= s'.pool[ys[i]].location < CELLS
    {
      UnlinkedNode(s, xs, k, if i < k then i else i + 1);
    }
    assert s.pool[xs[k]].next == PtrAt(xs, k + 1);
  }

  lemma {:induction false} RemoveKeeps(s: State, xs: seq<nat>, k: nat)
    requires Inv(s, xs) && k < |xs|
    ensures Inv(Unlinked(s, xs, k), Without(xs, k))
  {
    var s', ys := Unlinked(s, xs, k), Without(xs, k);
    RemoveLinks(s, xs, k);
    forall i | 0 <= i < SLOTS && i !in ys ensures s'.pool[i] == ZERO {
      WithoutMembers(xs, k, i);
    }
  }

  lemma {:induction false} SyncKeeps(s: State, xs: seq<nat>, first: int, second: int)
    requires Inv(s, xs)
    ensures Inv(Synced(s, xs, first, second), xs)
  {
  }

  lemma {:induction false} TickFirstPool(s: State, xs: seq<nat>, k: nat)
    requires Inv(s, xs) && k <= |xs|
    ensures |TickFirst(s, xs, k).pool| == SLOTS
    ensures forall i {:trigger s.pool[xs[i]]} :: 0 <= i < |xs| ==>
      TickFirst(s, xs, k).pool[xs[i]] == if i < k then TickNode(s.pool[xs[i]]) else s.pool[xs[i]]
    ensures forall i :: 0 <= i < SLOTS && i !in xs ==> TickFirst(s, xs, k).pool[i] == s.pool[i]
  {
    if k == 0 {
    } else {
      TickFirstPool(s, xs, k - 1);
    }
  }

  /** A tick reaches every node that is in use, once, and no free slot. */
  lemma {:induction false} TickedPool(s: State, xs: seq<nat>)
    requires Inv(s, xs)
    ensures |Ticked(s, xs).pool| == SLOTS
    ensures forall i :: 0 <= i < SLOTS ==>
      Ticked(s, xs).pool[i] == if s.pool[i].location != 0 then TickNode(s.pool[i]) else s.pool[i]
  {
    TickFirstPool(s, xs, |xs|);
    forall i | 0 <= i < SLOTS
      ensures Ticked(s, xs).pool[i] == if s.pool[i].location != 0 then TickNode(s.pool[i]) else s.pool[i]
    {
      if i in xs {
        var k :| 0 <= k < |xs| && xs[k] == i;
        assert s.pool[xs[k]].location != 0;
      }
    }
  }

  lemma {:induction false} TickKeeps(s: State, xs: seq<nat>)
    requires Inv(s, xs)
    ensures Inv(Ticked(s, xs), xs)
  {
    TickedPool(s, xs);
  }
}
