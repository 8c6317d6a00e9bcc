/** The text console of student-distrib/lib.c: cursor, scrolling and video memory of three terminals. */
module Console {
  import opened Bytes

  const ROWS := 25
  const STRIDE := 8192
  const ATTRIB: byte := 7
  const RETURN: byte := 13
  const TAB: byte := 9

  /** First byte of a terminal's video memory; a cell is a character and an attribute. */
  function Base(t: nat): nat { STRIDE * t }

  /** The cursors of the terminals, as a cell number, row by row, and the video memory. */
  datatype State = State(pos: seq<nat>, video: seq<byte>, active: nat) {
    ghost predicate Shaped() {
      && |pos| == TERMINALS && |video| == STRIDE * TERMINALS && active < TERMINALS
      && (forall t :: 0 <= t < TERMINALS ==> pos[t] < CELLS)
    }
  }

  // ---------------------------------------------------------------- video memory

  function SetCell(video: seq<byte>, t: nat, i: nat, c: byte): (v: seq<byte>)
    requires t < TERMINALS && i < CELLS && |video| == STRIDE * TERMINALS
    ensures |v| == |video|
  {
    video[Base(t) + 2 * i := c][Base(t) + 2 * i + 1 := ATTRIB]
  }

  function BlankByte(p: int): byte { if p % 2 == 0 then SPACE else ATTRIB }

  /** scroll_up: the rows come from terminal 0, whichever terminal is scrolled; the last row is blanked. */
  function Scrolled(video: seq<byte>, t: nat): (v: seq<byte>)
    requires t < TERMINALS && |video| == STRIDE * TERMINALS
    ensures |v| == |video| && forall p :: 0 <= p < |v| ==> v[p] == RolledByte(video, t, p)
  {
    seq<byte>(|video|, p requires 0 <= p < |video| => RolledByte(video, t, p))
  }

  function RolledByte(video: seq<byte>, t: nat, p: nat): byte
    requires t < TERMINALS && p < |video| == STRIDE * TERMINALS
  {
    if Base(t) <= p < Base(t) + 2 * (CELLS - COLUMNS) then video[p - Base(t) + 2 * COLUMNS]
    else if Base(t) + 2 * (CELLS - COLUMNS) <= p < Base(t) + 2 * CELLS then BlankByte(p)
    else video[p]
  }

  function Cleared(video: seq<byte>, t: nat): (v: seq<byte>)
    requires t < TERMINALS && |video| == STRIDE * TERMINALS
    ensures |v| == |video|
  {
    seq<byte>(|video|, p requires 0 <= p < |video| =>
      if Base(t) <= p < Base(t) + 2 * CELLS then BlankByte(p) else video[p])
  }

  // ---------------------------------------------------------------- the operations

  predicate IsPlain(c: byte) { c != NEWLINE && c != RETURN && c != TAB }

  function ScrolledUp(s: State, t: nat): State
    requires s.Shaped() && t < TERMINALS
  {
    s.(video := Scrolled(s.video, t), pos := s.pos[t := CELLS - COLUMNS])
  }

  /** A character that is not a control character; in the last cell it is dropped and the screen scrolls. */
  function PutPlain(s: State, c: byte, t: nat): (s': State)
    requires s.Shaped() && t < TERMINALS
    ensures s'.Shaped()
  {
    if s.pos[t] == CELLS - 1 then ScrolledUp(s, t)
    else s.(video := SetCell(s.video, t, s.pos[t], c), pos := s.pos[t := s.pos[t] + 1])
  }

  function NewLine(s: State, t: nat): (s': State)
    requires s.Shaped() && t < TERMINALS
    ensures s'.Shaped()
  {
    if s.pos[t] / COLUMNS == ROWS - 1 then ScrolledUp(s, t)
    else s.(pos := s.pos[t := (s.pos[t] / COLUMNS + 1) * COLUMNS])
  }

  function PutMany(s: State, cs: seq<byte>, t: nat): (s': State)
    requires s.Shaped() && t < TERMINALS
    ensures s'.Shaped() && s'.active == s.active
  {
    if cs == [] then s else PutPlain(PutMany(s, cs[..|cs| - 1], t), cs[|cs| - 1], t)
  }

  /** How many spaces a tab prints. */
  function TabSize(x: nat): nat { if COLUMNS - x > 8 then 8 - x % 8 else 0 }

  function Spaces(n: nat): seq<byte> { seq(n, _ => SPACE) }

  function Tabbed(s: State, t: nat): (s': State)
    requires s.Shaped() && t < TERMINALS
    ensures s'.Shaped()
  {
    PutMany(s, Spaces(TabSize(s.pos[t] % COLUMNS)), t)
  }

  function Put(s: State, c: byte, t: nat): (s': State)
    requires s.Shaped() && t < TERMINALS
    ensures s'.Shaped()
  {
    if c == NEWLINE || c == RETURN then NewLine(s, t)
    else if c == TAB then Tabbed(s, t)
    else PutPlain(s, c, t)
  }

  /** backspace works on the active terminal. */
  function Backspaced(s: State): (s': State)
    requires s.Shaped()
    ensures s'.Shaped() && s'.active == s.active
  {
    var t := s.active;
    if s.pos[t] == 0 then s
    else s.(video := SetCell(s.video, t, s.pos[t] - 1, SPACE), pos := s.pos[t := s.pos[t] - 1])
  }

  /** clear blanks terminal t and homes the cursor of the active terminal. */
  function ClearedState(s: State, t: nat): (s': State)
    requires s.Shaped() && t < TERMINALS
    ensures s'.Shaped()
  {
    s.(video := Cleared(s.video, t), pos := s.pos[s.active := 0])
  }

  // ---------------------------------------------------------------- the program

  class Screen {
    const video: array<byte>
    const x: array<int>
    const y: array<int>
    var active: nat

    ghost predicate Valid()
      reads this, video, x, y
    {
      && x != y && x.Length == TERMINALS && y.Length == TERMINALS
      && video.Length == STRIDE * TERMINALS && active < TERMINALS
      && (forall t :: 0 <= t < TERMINALS ==> 0 <= x[t] < COLUMNS && 0 <= y[t] < ROWS)
    }

    ghost function Now(): (s: State)
      requires Valid()
      reads this, video, x, y
      ensures s.Shaped()
    {
      State([Cursor(0), Cursor(1), Cursor(2)], video[..], active)
    }

    ghost function Cursor(t: nat): nat
      requires Valid() && t < TERMINALS
      reads this, video, x, y
    {
      y[t] * COLUMNS + x[t]
    }

    constructor ()
      ensures Valid() && Now().pos == [0, 0, 0] && active == 0 && fresh(video) && fresh(x) && fresh(y)
    {
      video := new byte[STRIDE * TERMINALS];
      x := new int[TERMINALS](_ => 0);
      y := new int[TERMINALS](_ => 0);
      active := 0;
    }

    /** scroll_up. */
    method ScrollUp(t: nat)
      requires Valid() && t < TERMINALS
      modifies video, x, y
      ensures Valid() && Now() == ScrolledUp(old(Now()), t)
    {
      CopyRows(t);
      BlankFrom(t, COLUMNS * (ROWS - 1));
      y[t] := ROWS - 1;
      x[t] := 0;
      ScrolledIs(old(video[..]), video[..], t);
    }

    /** The first loop of scroll_up, in place. */
    method CopyRows(t: nat)
      requires Valid() && t < TERMINALS
      modifies video
      ensures forall p :: 0 <= p < video.Length ==>
        video[p] == if Base(t) <= p < Base(t) + 2 * (CELLS - COLUMNS) then old(video[p - Base(t) + 2 * COLUMNS])
                    else old(video[p])
    {
      ghost var v := video[..];
      ghost var b := Base(t);
      var i := COLUMNS;
      while i < ROWS * COLUMNS
        invariant COLUMNS <= i <= CELLS
        invariant forall p :: b <= p < b + 2 * (i - COLUMNS) ==> video[p] == v[p - b + 2 * COLUMNS]
        invariant forall p :: 0 <= p < video.Length && !(b <= p < b + 2 * (i - COLUMNS)) ==> video[p] == v[p]
      {
        var to := STRIDE * t + 2 * (i - COLUMNS);
        assert !(b <= 2 * i < b + 2 * (i - COLUMNS)) && !(b <= 2 * i + 1 < b + 2 * (i - COLUMNS));
        var c, a := video[2 * i], video[2 * i + 1];
        assert to - b + 2 * COLUMNS == 2 * i;
        assert c == v[2 * i] && a == v[2 * i + 1];
        video[to] := c;
        video[to + 1] := a;
        i := i + 1;
      }
    }

    /** Blank the cells of a terminal from cell from on. */
    method BlankFrom(t: nat, from: nat)
      requires Valid() && t < TERMINALS && from <= CELLS
      modifies video
      ensures forall p :: 0 <= p < video.Length ==>
        video[p] == if Base(t) + 2 * from <= p < Base(t) + 2 * CELLS then BlankByte(p) else old(video[p])
    {
      var i := from;
      while i < ROWS * COLUMNS
        invariant from <= i <= CELLS
        invariant forall p :: 0 <= p < video.Length ==>
          video[p] == if Base(t) + 2 * from <= p < Base(t) + 2 * i then BlankByte(p) else old(video[p])
      {
        video[STRIDE * t + 2 * i] := SPACE;
        video[STRIDE * t + 2 * i + 1] := ATTRIB;
        i := i + 1;
      }
    }

    method Putc(c: byte, t: nat)
      requires Valid() && t < TERMINALS
      modifies video, x, y
      ensures Valid() && Now() == Put(old(Now()), c, t)
      decreases if c == TAB then 2 else 0
    {
      if c == NEWLINE || c == RETURN {
        if y[t] == ROWS - 1 {
          ScrollUp(t);
          return;
        }
        y[t] := y[t] + 1;
        x[t] := 0;
      } else if c == TAB {
        PutTab(t);
      } else if x[t] == COLUMNS - 1 && y[t] == ROWS - 1 {
        ScrollUp(t);
      } else {
        PutCell(c, t);
      }
    }

    /** The part of putc that writes a cell and moves the cursor on. */
    method PutCell(c: byte, t: nat)
      requires Valid() && t < TERMINALS && !(x[t] == COLUMNS - 1 && y[t] == ROWS - 1)
      modifies video, x, y
      ensures Valid() && Now() == PutPlain(old(Now()), c, t)
    {
      WriteCell(t, COLUMNS * y[t] + x[t], c);
      Advance(t);
    }

    /** The character and the attribute of one cell. */
    method WriteCell(t: nat, i: nat, c: byte)
      requires Valid() && t < TERMINALS && i < CELLS
      modifies video
      ensures Valid() && Now() == old(Now()).(video := SetCell(old(Now()).video, t, i, c))
    {
      video[STRIDE * t + 2 * i] := c;
      video[STRIDE * t + 2 * i + 1] := ATTRIB;
    }

    /** The cursor one cell on. */
    method Advance(t: nat)
      requires Valid() && t < TERMINALS && !(x[t] == COLUMNS - 1 && y[t] == ROWS - 1)
      modifies x, y
      ensures Valid() && Now() == old(Now()).(pos := old(Now()).pos[t := old(Cursor(t)) + 1])
    {
      CursorOn(x[t], y[t]);
      x[t] := x[t] + 1;
      y[t] := (y[t] + x[t] / COLUMNS) % ROWS;
      x[t] := x[t] % COLUMNS;
    }

    /** The cursor one cell back. */
    method Retreat(t: nat)
      requires Valid() && t < TERMINALS && (x[t] > 0 || y[t] > 0)
      modifies x, y
      ensures Valid() && Now() == old(Now()).(pos := old(Now()).pos[t := old(Cursor(t)) - 1])
    {
      if y[t] != 0 && x[t] == 0 {
        x[t] := COLUMNS - 1;
        y[t] := y[t] - 1;
      } else {
        x[t] := x[t] - 1;
      }
    }

    method PutTab(t: nat)
      requires Valid() && t < TERMINALS
      modifies video, x, y
      ensures Valid() && Now() == Tabbed(old(Now()), t)
      decreases 1
    {
      var tabsize := 0;
      if COLUMNS - x[t] > 8 {
        tabsize := tabsize + 8 - x[t] % 8;
      }
      ghost var s := Now();
      ColumnOf(x[t], y[t]);
      assert tabsize == TabSize(s.pos[t] % COLUMNS);
      var i := 0;
      assert Spaces(0) == [];
      while i < tabsize
        invariant 0 <= i <= tabsize && Valid() && Now() == PutMany(s, Spaces(i), t)
      {
        assert Spaces(i + 1)[..i] == Spaces(i) && Spaces(i + 1)[i] == SPACE;
        Putc(SPACE, t);
        i := i + 1;
      }
    }

    method Backspace()
      requires Valid()
      modifies video, x, y
      ensures Valid() && Now() == Backspaced(old(Now()))
    {
      var i := y[active] * COLUMNS + (x[active] - 1);
      if i < 0 {
        return;
      }
      WriteCell(active, i, SPACE);
      Retreat(active);
    }

    method Clear(t: nat)
      requires Valid() && t < TERMINALS
      modifies video, x, y
      ensures Valid() && Now() == ClearedState(old(Now()), t)
    {
      BlankFrom(t, 0);
      x[active] := 0;
      y[active] := 0;
    }
  }

  lemma {:induction false} ScrolledIs(v: seq<byte>, v': seq<byte>, t: nat)
    requires t < TERMINALS && |v| == |v'| == STRIDE * TERMINALS
    requires forall p :: 0 <= p < |v| ==> v'[p] == RolledByte(v, t, p)
    ensures v' == Scrolled(v, t)
  {
  }

  lemma {:induction false} CursorOn(x: int, y: int)
    requires 0 <= x < COLUMNS && 0 <= y < ROWS && !(x == COLUMNS - 1 && y == ROWS - 1)
    ensures var y', x' := (y + (x + 1) / COLUMNS) % ROWS, (x + 1) % COLUMNS;
      0 <= x' < COLUMNS && 0 <= y' < ROWS && y' * COLUMNS + x' == y * COLUMNS + x + 1
  {
    if x == COLUMNS - 1 {
      assert (x + 1) / COLUMNS == 1 && (x + 1) % COLUMNS == 0;
    } else {
      assert (x + 1) / COLUMNS == 0 && (x + 1) % COLUMNS == x + 1;
    }
  }

  lemma {:induction false} ColumnOf(x: int, y: int)
    requires 0 <= x < COLUMNS && 0 <= y < ROWS
    ensures (y * COLUMNS + x) % COLUMNS == x && (y * COLUMNS + x) / COLUMNS == y
  {
  }

  // ---------------------------------------------------------------- every operation keeps to its terminal

  datatype Op = PutChar(c: byte, terminal: nat) | Erase | Wipe(terminal: nat) | Select(terminal: nat)

  /** The terminal whose memory an operation may write. */
  function Writes(s: State, op: Op): nat {
    match op
    case PutChar(_, t) => t
    case Erase => s.active
    case Wipe(t) => t
    case Select(_) => s.active
  }

  predicate Real(op: Op) { op.Erase? || op.terminal < TERMINALS }

  function Step(s: State, op: Op): (s': State)
    requires s.Shaped() && Real(op)
    ensures s'.Shaped()
  {
    match op
    case PutChar(c, t) => Put(s, c, t)
    case Erase => Backspaced(s)
    case Wipe(t) => ClearedState(s, t)
    case Select(t) => s.(active := t)
  }

  /** The two memories agree on every byte outside the 4000 bytes of terminal t. */
  ghost predicate SameElsewhere(v: seq<byte>, w: seq<byte>, t: nat) {
    |v| == |w| && forall p :: 0 <= p < |v| && !(Base(t) <= p < Base(t) + 2 * CELLS) ==> v[p] == w[p]
  }

  lemma {:induction false} PutManyKeeps(s: State, cs: seq<byte>, t: nat)
    requires s.Shaped() && t < TERMINALS
    ensures SameElsewhere(s.video, PutMany(s, cs, t).video, t)
    ensures forall u :: 0 <= u < TERMINALS && u != t ==> PutMany(s, cs, t).pos[u] == s.pos[u]
    decreases |cs|
  {
    if cs == [] {
    } else {
      PutManyKeeps(s, cs[..|cs| - 1], t);
    }
  }

  /**
   * Every operation keeps every cursor on the screen and writes only the 4000 bytes of
   * its terminal; it moves only that terminal's cursor, but for clear, which homes the
   * active one's.
   */
  lemma {:induction false} StepKeepsApart(s: State, op: Op)
    requires s.Shaped() && Real(op)
    ensures Step(s, op).Shaped() && SameElsewhere(s.video, Step(s, op).video, Writes(s, op))
    ensures forall u :: 0 <= u < TERMINALS && u != (if op.Wipe? then s.active else Writes(s, op)) ==>
      Step(s, op).pos[u] == s.pos[u]
  {
    match op
    case PutChar(c, t) =>
      if c == TAB {
        PutManyKeeps(s, Spaces(TabSize(s.pos[t] % COLUMNS)), t);
      }
    case Erase =>
    case Wipe(t) =>
    case Select(t) =>
  }

  function Run(s: State, ops: seq<Op>): (s': State)
    requires s.Shaped() && forall i :: 0 <= i < |ops| ==> Real(ops[i])
    ensures s'.Shaped()
    decreases |ops|
  {
    if ops == [] then s else Run(Step(s, ops[0]), ops[1..])
  }

  /** No operation of the run writes terminal t. */
  ghost predicate Spares(s: State, ops: seq<Op>, t: nat)
    requires s.Shaped() && forall i :: 0 <= i < |ops| ==> Real(ops[i])
    decreases |ops|
  {
    ops == [] || (Writes(s, ops[0]) != t && Spares(Step(s, ops[0]), ops[1..], t))
  }

  /** A run leaves alone every byte of a terminal it does not write, and every byte between the terminals. */
  lemma {:induction false} RunSpares(s: State, ops: seq<Op>, t: nat, p: nat)
    requires s.Shaped() && forall i :: 0 <= i < |ops| ==> Real(ops[i])
    requires t < TERMINALS && Base(t) <= p < Base(t) + STRIDE
    requires Spares(s, ops, t) || p >= Base(t) + 2 * CELLS
    ensures Run(s, ops).video[p] == s.video[p]
    decreases |ops|
  {
    if ops == [] {
    } else {
      StepKeepsApart(s, ops[0]);
      RunSpares(Step(s, ops[0]), ops[1..], t, p);
    }
  }

  // ---------------------------------------------------------------- scrolling

  /** Terminal t's own rows, one up, with a blank last row. */
  function OwnRowsUp(video: seq<byte>, t: nat): (v: seq<byte>)
    requires t < TERMINALS && |video| == STRIDE * TERMINALS
    ensures |v| == |video|
  {
    seq<byte>(|video|, p requires 0 <= p < |video| => OwnByteUp(video, t, p))
  }

  function OwnByteUp(video: seq<byte>, t: nat, p: nat): byte
    requires t < TERMINALS && p < |video| == STRIDE * TERMINALS
  {
    if Base(t) <= p < Base(t) + 2 * (CELLS - COLUMNS) then video[p + 2 * COLUMNS]
    else if Base(t) + 2 * (CELLS - COLUMNS) <= p < Base(t) + 2 * CELLS then BlankByte(p)
    else video[p]
  }

  /** The rows of terminal t below its first are those of terminal 0. */
  ghost predicate LooksLikeFirst(video: seq<byte>, t: nat)
    requires t < TERMINALS && |video| == STRIDE * TERMINALS
  {
    forall q :: 2 * COLUMNS <= q < 2 * CELLS ==> video[Base(t) + q] == video[q]
  }

  /** Scrolling moves a terminal's own rows up if and only if it is terminal 0, or shows the same rows. */
  lemma {:induction false} ScrollIff(video: seq<byte>, t: nat)
    requires t < TERMINALS && |video| == STRIDE * TERMINALS
    ensures Scrolled(video, t) == OwnRowsUp(video, t) <==> LooksLikeFirst(video, t)
    ensures t == 0 ==> LooksLikeFirst(video, t)
  {
    if Scrolled(video, t) == OwnRowsUp(video, t) {
      forall q | 2 * COLUMNS <= q < 2 * CELLS ensures video[Base(t) + q] == video[q] {
        var p := Base(t) + q - 2 * COLUMNS;
        assert Scrolled(video, t)[p] == video[q] && OwnRowsUp(video, t)[p] == video[Base(t) + q];
      }
    }
    if LooksLikeFirst(video, t) {
      forall p | 0 <= p < |video| ensures Scrolled(video, t)[p] == OwnRowsUp(video, t)[p] {
        if Base(t) <= p < Base(t) + 2 * (CELLS - COLUMNS) {
          var q := p - Base(t) + 2 * COLUMNS;
          assert video[Base(t) + q] == video[q];
        }
      }
    }
  }

  /** Terminal 0 shows spaces and terminal 1 is full of 'x': scrolling terminal 1 leaves no 'x' there. */
  lemma {:induction false} ScrollLosesRows(video: seq<byte>, q: nat)
    requires |video| == STRIDE * TERMINALS && q < CELLS
    requires forall p :: 0 <= p < CELLS ==> video[2 * p] == SPACE && video[Base(1) + 2 * p] == 'x' as int
    ensures Scrolled(video, 1)[Base(1) + 2 * q] == SPACE
    ensures q < CELLS - COLUMNS ==> OwnRowsUp(video, 1)[Base(1) + 2 * q] == 'x' as int
  {
    var b := Base(1) + 2 * q;
    assert b % 2 == 0;
    if q < CELLS - COLUMNS {
      assert RolledByte(video, 1, b) == video[2 * (q + COLUMNS)];
      assert OwnByteUp(video, 1, b) == video[Base(1) + 2 * (q + COLUMNS)];
    }
  }

  // ---------------------------------------------------------------- printing and erasing

  /** The cursor after k plain characters: cell by cell, and round the last row once the screen scrolls. */
  function Onward(p: nat, k: nat): nat {
    if p + k < CELLS then p + k else CELLS - COLUMNS + (p + k - CELLS) % COLUMNS
  }

  lemma {:induction false} OneOnward(p: nat, k: nat)
    requires p < CELLS
    ensures Onward(p, k + 1) == if Onward(p, k) == CELLS - 1 then CELLS - COLUMNS else Onward(p, k) + 1
  {
  }

  lemma {:induction false} PutManyCursor(s: State, cs: seq<byte>, t: nat)
    requires s.Shaped() && t < TERMINALS
    ensures PutMany(s, cs, t).pos[t] == Onward(s.pos[t], |cs|)
    decreases |cs|
  {
    if cs == [] {
    } else {
      PutManyCursor(s, cs[..|cs| - 1], t);
      OneOnward(s.pos[t], |cs| - 1);
    }
  }

  /** k backspaces. */
  function EraseMany(s: State, k: nat): (s': State)
    requires s.Shaped()
    ensures s'.Shaped() && s'.active == s.active
  {
    if k == 0 then s else Backspaced(EraseMany(s, k - 1))
  }

  lemma {:induction false} EraseManyCursor(s: State, k: nat)
    requires s.Shaped()
    ensures EraseMany(s, k).pos[s.active] == if k <= s.pos[s.active] then s.pos[s.active] - k else 0
  {
    if k == 0 {
    } else {
      EraseManyCursor(s, k - 1);
    }
  }

  ghost predicate AllReal(ops: seq<Op>) { forall i :: 0 <= i < |ops| ==> Real(ops[i]) }

  /** A text of plain characters on the active terminal, then as many backspaces. */
  function PrintAndErase(cs: seq<byte>, t: nat): seq<Op> {
    Typing(cs, t) + seq(|cs|, _ => Erase)
  }

  function Typing(cs: seq<byte>, t: nat): seq<Op> {
    seq(|cs|, i requires 0 <= i < |cs| => PutChar(cs[i], t))
  }

  lemma {:induction false} RunLast(s: State, ops: seq<Op>, op: Op)
    requires s.Shaped() && AllReal(ops) && Real(op)
    ensures AllReal(ops + [op]) && Run(s, ops + [op]) == Step(Run(s, ops), op)
    decreases |ops|
  {
    var all := ops + [op];
    if ops == [] {
    } else {
      assert all[1..] == ops[1..] + [op];
      RunLast(Step(s, ops[0]), ops[1..], op);
    }
  }

  /** Plain characters, put one by one. */
  lemma {:induction false} TypingPuts(s: State, cs: seq<byte>, t: nat)
    requires s.Shaped() && t < TERMINALS && forall i :: 0 <= i < |cs| ==> IsPlain(cs[i])
    ensures AllReal(Typing(cs, t)) && Run(s, Typing(cs, t)) == PutMany(s, cs, t)
    decreases |cs|
  {
    if cs == [] {
    } else {
      var most, c := cs[..|cs| - 1], cs[|cs| - 1];
      TypingPuts(s, most, t);
      RunLast(s, Typing(most, t), PutChar(c, t));
      assert Typing(cs, t) == Typing(most, t) + [PutChar(c, t)];
    }
  }

  lemma {:induction false} ThenErase(s: State, ops: seq<Op>, k: nat)
    requires s.Shaped() && AllReal(ops)
    ensures AllReal(ops + seq(k, _ => Erase)) && Run(s, ops + seq(k, _ => Erase)) == EraseMany(Run(s, ops), k)
    decreases k
  {
    var e: seq<Op> := seq(k, _ => Erase);
    if k == 0 {
      assert ops + e == ops;
    } else {
      var d: seq<Op> := seq(k - 1, _ => Erase);
      ThenErase(s, ops, k - 1);
      RunLast(s, ops + d, Erase);
      assert ops + e == ops + d + [Erase];
    }
  }

  /** Printing and erasing, as a run of the console. */
  lemma {:induction false} PrintAndEraseIs(s: State, cs: seq<byte>)
    requires s.Shaped() && forall i :: 0 <= i < |cs| ==> IsPlain(cs[i])
    ensures AllReal(PrintAndErase(cs, s.active))
    ensures Run(s, PrintAndErase(cs, s.active)) == EraseMany(PutMany(s, cs, s.active), |cs|)
  {
    TypingPuts(s, cs, s.active);
    ThenErase(s, Typing(cs, s.active), |cs|);
  }

  /** A plain text and as many backspaces: the cursor is back if and only if nothing scrolled, or it was home. */
  lemma {:induction false} EraseRestoresCursor(s: State, cs: seq<byte>)
    requires s.Shaped() && forall i :: 0 <= i < |cs| ==> IsPlain(cs[i])
    ensures AllReal(PrintAndErase(cs, s.active))
    ensures Run(s, PrintAndErase(cs, s.active)).pos[s.active] == s.pos[s.active]
      <==> s.pos[s.active] + |cs| < CELLS || s.pos[s.active] == 0
  {
    PrintAndEraseIs(s, cs);
    PutManyCursor(s, cs, s.active);
    EraseManyCursor(PutMany(s, cs, s.active), |cs|);
  }

  /** What a byte of the active terminal is after a text at cells [from, to) has been printed and erased. */
  ghost predicate BlankOrSame(v: seq<byte>, w: seq<byte>, t: nat, from: nat, to: nat) {
    && |v| == |w|
    && forall p :: 0 <= p < |v| ==>
      w[p] == if Base(t) + 2 * from <= p < Base(t) + 2 * to then BlankByte(p) else v[p]
  }

  lemma {:induction false} PutManyVideo(s: State, cs: seq<byte>, t: nat)
    requires s.Shaped() && t < TERMINALS && s.pos[t] + |cs| < CELLS
    ensures var s' := PutMany(s, cs, t);
      && s'.pos == s.pos[t := s.pos[t] + |cs|]
      && forall p :: 0 <= p < |s.video| && !(Base(t) + 2 * s.pos[t] <= p < Base(t) + 2 * (s.pos[t] + |cs|)) ==>
        s'.video[p] == s.video[p]
    decreases |cs|
  {
    if cs == [] {
    } else {
      PutManyVideo(s, cs[..|cs| - 1], t);
    }
  }

  lemma {:induction false} EraseManyVideo(s: State, k: nat)
    requires s.Shaped() && k <= s.pos[s.active]
    ensures var s' := EraseMany(s, k);
      && s'.pos == s.pos[s.active := s.pos[s.active] - k]
      && BlankOrSame(s.video, s'.video, s.active, s.pos[s.active] - k, s.pos[s.active])
    decreases k
  {
    if k == 0 {
    } else {
      EraseManyVideo(s, k - 1);
    }
  }

  /** A text that does not scroll, printed and erased, leaves its cells blank and everything else as it was. */
  lemma {:induction false} EraseUndoesPrint(s: State, cs: seq<byte>)
    requires s.Shaped() && s.pos[s.active] + |cs| < CELLS && forall i :: 0 <= i < |cs| ==> IsPlain(cs[i])
    ensures AllReal(PrintAndErase(cs, s.active))
    ensures var s' := Run(s, PrintAndErase(cs, s.active));
      && s'.pos == s.pos && s'.active == s.active
      && BlankOrSame(s.video, s'.video, s.active, s.pos[s.active], s.pos[s.active] + |cs|)
  {
    PrintAndEraseIs(s, cs);
    PutManyVideo(s, cs, s.active);
    EraseManyVideo(PutMany(s, cs, s.active), |cs|);
  }

  /** A tab goes to the next multiple of eight in the same row, or nowhere in the last eight columns. */
  lemma {:induction false} TabStops(s: State, t: nat)
    requires s.Shaped() && t < TERMINALS
    ensures var x, p' := s.pos[t] % COLUMNS, Tabbed(s, t).pos[t];
      && p' / COLUMNS == s.pos[t] / COLUMNS
      && (x >= COLUMNS - 8 ==> p' == s.pos[t])
      && (x < COLUMNS - 8 ==> p' % 8 == 0 && s.pos[t] < p' <= s.pos[t] + 8)
  {
    var p, n := s.pos[t], TabSize(s.pos[t] % COLUMNS);
    PutManyCursor(s, Spaces(n), t);
    var x, y := p % COLUMNS, p / COLUMNS;
    assert p == y * COLUMNS + x;
    if x < COLUMNS - 8 {
      assert n == 8 - x % 8 && x + n <= COLUMNS - 8;
      ColumnOf(x + n, y);
      assert (x + n) % 8 == 0;
    }
  }

  /** clear(t) homes the cursor of t if and only if t is the active terminal or its cursor is home already. */
  lemma {:induction false} ClearHomesIff(s: State, t: nat)
    requires s.Shaped() && t < TERMINALS
    ensures ClearedState(s, t).pos[t] == 0 <==> t == s.active || s.pos[t] == 0
  {
  }

  /** Clearing terminal 1 while terminal 0 is shown homes the cursor of terminal 0 and leaves that of terminal 1. */
  lemma {:induction false} ClearHomesTheOther(s: State)
    requires s.Shaped() && s.active == 0 && s.pos[0] == 5 && s.pos[1] == 7
    ensures ClearedState(s, 1).pos[0] == 0 && ClearedState(s, 1).pos[1] == 7
  {
  }

  // ---------------------------------------------------------------- byte by byte

  /** The screen of terminal t is the 4000 bytes from 8192 * t on: byte p is no part of it. */
  predicate Outside(t: nat, p: nat) { p < 8192 * t || 8192 * t + 4000 <= p }

  /** clear leaves spaces, light grey on black, in all 2000 cells, and every other byte as it was. */
  lemma {:induction false} WipeBytes(s: State, t: nat, i: nat)
    requires s.Shaped() && t < 3 && i < 2000
    ensures var v := Step(s, Wipe(t)).video;
      && v[8192 * t + 2 * i] == 32 && v[8192 * t + 2 * i + 1] == 7
      && forall p: nat :: p < 24576 && Outside(t, p) ==> v[p] == s.video[p]
    ensures Step(s, Wipe(t)).pos == s.pos[s.active := 0]
  {
    assert (8192 * t + 2 * i) % 2 == 0;
  }

  /** A plain character before the last cell goes to the cursor's cell and nowhere else. */
  lemma {:induction false} PutBytes(s: State, t: nat, c: byte)
    requires s.Shaped() && t < 3 && c != 9 && c != 10 && c != 13 && s.pos[t] < 1999
    ensures var s', at := Step(s, PutChar(c, t)), 8192 * t + 2 * s.pos[t];
      && s'.pos == s.pos[t := s.pos[t] + 1] && s'.video[at] == c && s'.video[at + 1] == 7
      && forall p: nat :: p < 24576 && p != at && p != at + 1 ==> s'.video[p] == s.video[p]
  {
  }

  /** A line end above the last row goes to the start of the next row and writes nothing. */
  lemma {:induction false} LineEndBytes(s: State, t: nat, c: byte)
    requires s.Shaped() && t < 3 && (c == 10 || c == 13) && s.pos[t] < 1920
    ensures Step(s, PutChar(c, t)) == s.(pos := s.pos[t := (s.pos[t] / 80 + 1) * 80])
  {
  }

  /** A line end in the last row, and a plain character in the last cell, scroll. */
  predicate MustScroll(s: State, t: nat, c: byte)
    requires s.Shaped() && t < 3
  {
    if c == 10 || c == 13 then s.pos[t] >= 1920 else c != 9 && s.pos[t] == 1999
  }

  /**
   * A scroll puts rows 1 to 24 of terminal 0 where the terminal's rows 0 to 23 were,
   * spaces in the last row, and the cursor at its start.
   */
  lemma {:induction false} ScrollBytes(s: State, t: nat, c: byte, i: nat)
    requires s.Shaped() && t < 3 && MustScroll(s, t, c) && i < 2000
    ensures var s', at := Step(s, PutChar(c, t)), 8192 * t + 2 * i;
      && s'.pos == s.pos[t := 1920]
      && s'.video[at] == (if i < 1920 then s.video[2 * i + 160] else 32)
      && s'.video[at + 1] == (if i < 1920 then s.video[2 * i + 161] else 7)
      && forall p: nat :: p < 24576 && Outside(t, p) ==> s'.video[p] == s.video[p]
  {
    assert (8192 * t + 2 * i) % 2 == 0;
  }

  /** backspace leaves a space in the cell before the cursor of the active terminal, and goes there. */
  lemma {:induction false} EraseBytes(s: State)
    requires s.Shaped()
    ensures s.pos[s.active] == 0 ==> Step(s, Erase) == s
    ensures s.pos[s.active] > 0 ==>
      var s', at := Step(s, Erase), 8192 * s.active + 2 * (s.pos[s.active] - 1);
      && s'.pos == s.pos[s.active := s.pos[s.active] - 1] && s'.video[at] == 32 && s'.video[at + 1] == 7
      && forall p: nat :: p < 24576 && p != at && p != at + 1 ==> s'.video[p] == s.video[p]
  {
  }

  /** How far a tab goes: to the next multiple of 8, but nowhere from the last 8 columns. */
  function TabStop(p: nat): nat { if p % 80 >= 72 then p else (p / 8 + 1) * 8 }

  /** n spaces from the cursor on, which do not reach the last cell. */
  lemma {:induction false} SpaceBytes(s: State, t: nat, n: nat, p: nat)
    requires s.Shaped() && t < 3 && s.pos[t] + n < 2000 && p < 24576
    ensures var s', from, to := PutMany(s, Spaces(n), t), 8192 * t + 2 * s.pos[t], 8192 * t + 2 * (s.pos[t] + n);
      && s'.pos == s.pos[t := s.pos[t] + n]
      && s'.video[p] == if from <= p < to then (if (p - from) % 2 == 0 then 32 else 7) else s.video[p]
    decreases n
  {
    if n == 0 {
    } else {
      assert Spaces(n)[..n - 1] == Spaces(n - 1);
      SpaceBytes(s, t, n - 1, p);
    }
  }

  lemma {:induction false} TabSizeIs(p: nat)
    requires p < 2000
    ensures p + TabSize(p % 80) == TabStop(p) && TabStop(p) < 2000
  {
    assert p == 80 * (p / 80) + p % 80;
    assert p / 8 == 10 * (p / 80) + p % 80 / 8;
  }

  /** A tab leaves spaces up to its stop and nothing else. */
  lemma {:induction false} TabBytes(s: State, t: nat, p: nat)
    requires s.Shaped() && t < 3 && p < 24576
    ensures var s', from, to := Step(s, PutChar(9, t)), 8192 * t + 2 * s.pos[t], 8192 * t + 2 * TabStop(s.pos[t]);
      && s'.pos == s.pos[t := TabStop(s.pos[t])]
      && s'.video[p] == if from <= p < to then (if (p - from) % 2 == 0 then 32 else 7) else s.video[p]
  {
    TabSizeIs(s.pos[t]);
    SpaceBytes(s, t, TabSize(s.pos[t] % 80), p);
  }
}
