/**
 * What a printed text looks like on the console of student-distrib/lib.c once the
 * screen has scrolled: the screen is a window on one long tape of cells, from which
 * the characters that arrived at the bottom right cell are missing.
 */
module Tape {
  import opened Bytes
  import opened Console

  // ---------------------------------------------------------------- one character

  /** The cell in front of the cursor of terminal t. */
  function InFront(s: State, t: nat): byte
    requires s.Shaped() && t < TERMINALS && s.pos[t] > 0
  {
    s.video[Base(t) + 2 * (s.pos[t] - 1)]
  }

  /**
   * A plain character stands in front of the cursor after putc if and only if the cursor
   * was not at the bottom right cell, or that cell of terminal 0 held the character anyway.
   */
  lemma {:induction false} PutShowsIff(s: State, c: byte, t: nat)
    requires s.Shaped() && t < TERMINALS && IsPlain(c)
    ensures var s' := Put(s, c, t);
      s'.pos[t] > 0 && (InFront(s', t) == c <==> s.pos[t] != CELLS - 1 || s.video[2 * (CELLS - 1)] == c)
  {
    var s' := Put(s, c, t);
    if s.pos[t] == CELLS - 1 {
      assert s'.video[Base(t) + 2 * (CELLS - COLUMNS - 1)] == s.video[2 * (CELLS - 1)];
    }
  }

  /** On a blank screen with the cursor at the bottom right cell, a character is printed nowhere. */
  lemma {:induction false} CornerDrops(s: State, c: byte, t: nat, q: nat)
    requires s.Shaped() && t < TERMINALS && IsPlain(c) && c != SPACE && s.pos[t] == CELLS - 1 && q < CELLS
    requires forall p :: 0 <= p < CELLS ==> s.video[2 * p] == s.video[Base(t) + 2 * p] == SPACE
    ensures Put(s, c, t).video[Base(t) + 2 * q] == SPACE
  {
    if q < CELLS - COLUMNS {
      assert Scrolled(s.video, t)[Base(t) + 2 * q] == s.video[2 * (q + COLUMNS)];
    }
  }

  // ---------------------------------------------------------------- the tape

  predicate IsLineEnd(c: byte) { c == NEWLINE || c == RETURN }

  /** Where the cursor of a screen that never scrolls would be after one more character. */
  function Onwards(v: nat, c: byte): nat {
    if IsLineEnd(c) then (v / COLUMNS + 1) * COLUMNS
    else if c == TAB then v + TabSize(v % COLUMNS)
    else v + 1
  }

  /** Where it would be after a text. */
  function Place(p: nat, cs: seq<byte>): nat {
    if cs == [] then p else Onwards(Place(p, cs[..|cs| - 1]), cs[|cs| - 1])
  }

  /** How many rows have scrolled away when the cursor is at tape cell v. */
  function Rows(v: nat): nat { if v < CELLS then 0 else v / COLUMNS - (ROWS - 1) }

  /** A plain character for tape cell v arrives at the bottom right cell. */
  predicate Lost(v: nat) { v >= CELLS - 1 && v % COLUMNS == COLUMNS - 1 }

  /** A character writes tape cell v when the cursor is at tape cell at. */
  predicate Writes(at: nat, c: byte, v: nat) {
    if IsLineEnd(c) then false
    else if c == TAB then at <= v < Onwards(at, c)
    else v == at && !Lost(at)
  }

  /** Character or attribute that c writes. */
  function WrittenByte(c: byte, half: nat): byte
    requires half < 2
  {
    if half == 1 then ATTRIB else if c == TAB then SPACE else c
  }

  /** Character or attribute of tape cell v: printed, or as it was on terminal t, or blank below the old screen. */
  function TapeByte(s: State, t: nat, cs: seq<byte>, v: nat, half: nat): byte
    requires s.Shaped() && t < TERMINALS && half < 2
  {
    if cs == [] then (if v < CELLS then s.video[Base(t) + 2 * v + half] else BlankByte(half))
    else
      var most, c := cs[..|cs| - 1], cs[|cs| - 1];
      if Writes(Place(s.pos[t], most), c, v) then WrittenByte(c, half) else TapeByte(s, t, most, v, half)
  }

  /** The text, printed. */
  function Printed(s: State, cs: seq<byte>, t: nat): (s': State)
    requires s.Shaped() && t < TERMINALS
    ensures s'.Shaped()
  {
    if cs == [] then s else Put(Printed(s, cs[..|cs| - 1], t), cs[|cs| - 1], t)
  }

  lemma {:induction false} PrintedIsRun(s: State, cs: seq<byte>, t: nat)
    requires s.Shaped() && t < TERMINALS
    ensures AllReal(Typing(cs, t)) && Run(s, Typing(cs, t)) == Printed(s, cs, t)
    decreases |cs|
  {
    if cs == [] {
    } else {
      var most, c := cs[..|cs| - 1], cs[|cs| - 1];
      PrintedIsRun(s, most, t);
      RunLast(s, Typing(most, t), PutChar(c, t));
      assert Typing(cs, t) == Typing(most, t) + [PutChar(c, t)];
    }
  }

  // ---------------------------------------------------------------- the cursor

  /** The cursor of a screen that shows tape cell v at its cursor. */
  predicate AtTape(p: nat, v: nat) { p < CELLS && p + COLUMNS * Rows(v) == v }

  lemma {:induction false} OnTheRows(p: nat, v: nat)
    requires AtTape(p, v)
    ensures p % COLUMNS == v % COLUMNS && p / COLUMNS + Rows(v) == v / COLUMNS
    ensures p == CELLS - 1 <==> Lost(v)
    ensures p / COLUMNS == ROWS - 1 <==> v >= CELLS - COLUMNS
    ensures v >= CELLS ==> p >= CELLS - COLUMNS
  {
    var r := Rows(v);
    assert v == COLUMNS * (v / COLUMNS) + v % COLUMNS;
    assert p == COLUMNS * (v / COLUMNS - r) + v % COLUMNS;
    DivAndMod(v / COLUMNS - r, v % COLUMNS, p);
  }

  lemma {:induction false} DivAndMod(q: int, r: nat, p: int)
    requires r < COLUMNS && p == COLUMNS * q + r
    ensures p / COLUMNS == q && p % COLUMNS == r
  {
  }

  /** How a character moves the cursor and the rows. */
  lemma {:induction false} RowsAfter(v: nat, c: byte)
    ensures Rows(Onwards(v, c)) ==
      if IsLineEnd(c) then Rows(v) + (if v >= CELLS - COLUMNS then 1 else 0)
      else if c != TAB && Lost(v) then Rows(v) + 1
      else Rows(v)
  {
    var q, x, w := v / COLUMNS, v % COLUMNS, Onwards(v, c);
    assert v == COLUMNS * q + x;
    if IsLineEnd(c) {
      DivAndMod(q + 1, 0, w);
    } else if x + (w - v) < COLUMNS {
      DivAndMod(q, x + (w - v), w);
    } else {
      DivAndMod(q + 1, 0, w);
    }
  }

  lemma {:induction false} TabCursor(s: State, t: nat)
    requires s.Shaped() && t < TERMINALS
    ensures var n := TabSize(s.pos[t] % COLUMNS);
      s.pos[t] + n < CELLS && Tabbed(s, t).pos[t] == s.pos[t] + n
  {
    var p := s.pos[t];
    assert p == COLUMNS * (p / COLUMNS) + p % COLUMNS && p / COLUMNS < ROWS;
    PutManyCursor(s, Spaces(TabSize(p % COLUMNS)), t);
  }

  lemma {:induction false} CursorStep(s: State, c: byte, t: nat, v: nat)
    requires s.Shaped() && t < TERMINALS && AtTape(s.pos[t], v)
    ensures AtTape(Put(s, c, t).pos[t], Onwards(v, c))
  {
    OnTheRows(s.pos[t], v);
    RowsAfter(v, c);
    TabCursor(s, t);
  }

  /** Every scroll moves the cursor up by one row, and nothing else sets it apart from an endless screen. */
  lemma {:induction false} CursorOnTape(s: State, cs: seq<byte>, t: nat)
    requires s.Shaped() && t < TERMINALS
    ensures AtTape(Printed(s, cs, t).pos[t], Place(s.pos[t], cs))
    decreases |cs|
  {
    if cs == [] {
    } else {
      var most, c := cs[..|cs| - 1], cs[|cs| - 1];
      CursorOnTape(s, most, t);
      CursorStep(Printed(s, most, t), c, t, Place(s.pos[t], most));
    }
  }

  // ---------------------------------------------------------------- the screen

  /**
   * Cell q of terminal t after a text: the tape, as many rows on as have scrolled. But a
   * terminal other than 0 shows the rows 1 to 24 of terminal 0 above its last row once it
   * has scrolled.
   */
  function ScreenByte(s: State, t: nat, cs: seq<byte>, q: nat, half: nat): byte
    requires s.Shaped() && t < TERMINALS && q < CELLS && half < 2
  {
    var m := Rows(Place(s.pos[t], cs));
    if t > 0 && m > 0 && q < CELLS - COLUMNS then s.video[2 * (q + COLUMNS) + half]
    else TapeByte(s, t, cs, q + COLUMNS * m, half)
  }

  /** A character or attribute on the screen. */
  function At(s: State, t: nat, q: nat, half: nat): byte
    requires s.Shaped() && t < TERMINALS && q < CELLS && half < 2
  {
    s.video[Base(t) + 2 * q + half]
  }

  /** A character that does not scroll writes at most its own cells. */
  lemma {:induction false} PutWrites(s: State, c: byte, t: nat, q: nat, half: nat)
    requires s.Shaped() && t < TERMINALS && q < CELLS && half < 2 && (IsPlain(c) ==> s.pos[t] != CELLS - 1)
    requires IsLineEnd(c) ==> s.pos[t] / COLUMNS != ROWS - 1
    ensures var p := s.pos[t];
      At(Put(s, c, t), t, q, half) ==
        if !IsLineEnd(c) && p <= q < p + (if c == TAB then TabSize(p % COLUMNS) else 1) then WrittenByte(c, half)
        else At(s, t, q, half)
  {
    if c == TAB {
      TabCursor(s, t);
      SpacesWrite(s, TabSize(s.pos[t] % COLUMNS), t, q, half);
    }
  }

  lemma {:induction false} PlainWrites(s: State, c: byte, t: nat, q: nat, half: nat)
    requires s.Shaped() && t < TERMINALS && q < CELLS && half < 2 && s.pos[t] != CELLS - 1
    ensures At(PutPlain(s, c, t), t, q, half) ==
      if q != s.pos[t] then At(s, t, q, half) else if half == 0 then c else ATTRIB
  {
  }

  lemma {:induction false} SpacesLast(s: State, n: nat, t: nat)
    requires s.Shaped() && t < TERMINALS
    ensures PutMany(s, Spaces(n + 1), t) == PutPlain(PutMany(s, Spaces(n), t), SPACE, t)
  {
    assert Spaces(n + 1)[..n] == Spaces(n);
  }

  lemma {:induction false} SpacesWrite(s: State, n: nat, t: nat, q: nat, half: nat)
    requires s.Shaped() && t < TERMINALS && q < CELLS && half < 2 && s.pos[t] + n < CELLS
    ensures At(PutMany(s, Spaces(n), t), t, q, half) ==
      if s.pos[t] <= q < s.pos[t] + n then BlankByte(half) else At(s, t, q, half)
    decreases n
  {
    if n == 0 {
    } else {
      var s1 := PutMany(s, Spaces(n - 1), t);
      SpacesWrite(s, n - 1, t, q, half);
      PutManyCursor(s, Spaces(n - 1), t);
      SpacesLast(s, n - 1, t);
      PlainWrites(s1, SPACE, t, q, half);
    }
  }

  /** A scroll. */
  lemma {:induction false} RollsUp(s: State, t: nat, q: nat, half: nat)
    requires s.Shaped() && t < TERMINALS && q < CELLS && half < 2
    ensures Scrolled(s.video, t)[Base(t) + 2 * q + half] ==
      if q < CELLS - COLUMNS then At(s, 0, q + COLUMNS, half) else BlankByte(half)
  {
    var b := Base(t) + 2 * q + half;
    assert b % 2 == half;
    assert RolledByte(s.video, t, b)
      == if q < CELLS - COLUMNS then s.video[b - Base(t) + 2 * COLUMNS] else BlankByte(b);
  }

  /** Nothing is written yet behind the cursor, and what is written stays. */
  lemma {:induction false} TapeAhead(s: State, t: nat, cs: seq<byte>, v: nat, half: nat)
    requires s.Shaped() && t < TERMINALS && half < 2 && v >= Place(s.pos[t], cs)
    ensures TapeByte(s, t, cs, v, half) == TapeByte(s, t, [], v, half)
    decreases |cs|
  {
    if cs == [] {
    } else {
      var most, c := cs[..|cs| - 1], cs[|cs| - 1];
      PlaceGrows(s.pos[t], most, c);
      TapeAhead(s, t, most, v, half);
    }
  }

  lemma {:induction false} PlaceGrows(p: nat, cs: seq<byte>, c: byte)
    ensures Place(p, cs + [c]) == Onwards(Place(p, cs), c) >= Place(p, cs)
    ensures !IsLineEnd(c) && c != TAB ==> Place(p, cs + [c]) == Place(p, cs) + 1
  {
    assert (cs + [c])[..|cs|] == cs;
    OnwardsGrows(Place(p, cs), c);
  }

  lemma {:induction false} OnwardsGrows(v: nat, c: byte)
    ensures Onwards(v, c) >= v && (IsLineEnd(c) ==> Onwards(v, c) > v)
  {
  }

  lemma {:induction false} TapeLast(s: State, t: nat, cs: seq<byte>, c: byte, v: nat, half: nat)
    requires s.Shaped() && t < TERMINALS && half < 2
    ensures TapeByte(s, t, cs + [c], v, half) ==
      if Writes(Place(s.pos[t], cs), c, v) then WrittenByte(c, half) else TapeByte(s, t, cs, v, half)
  {
    assert (cs + [c])[..|cs|] == cs;
  }

  /** Printing on another terminal leaves terminal 0 as it was. */
  lemma {:induction false} FirstStays(s: State, cs: seq<byte>, t: nat, q: nat, half: nat)
    requires s.Shaped() && 0 < t < TERMINALS && q < CELLS && half < 2
    ensures At(Printed(s, cs, t), 0, q, half) == At(s, 0, q, half)
    decreases |cs|
  {
    if cs == [] {
    } else {
      var s1 := Printed(s, cs[..|cs| - 1], t);
      FirstStays(s, cs[..|cs| - 1], t, q, half);
      StepKeepsApart(s1, PutChar(cs[|cs| - 1], t));
    }
  }

  /** Cell q shows what the tape says. */
  ghost predicate OnTape(s: State, cs: seq<byte>, t: nat, q: nat, half: nat)
    requires s.Shaped() && t < TERMINALS && q < CELLS && half < 2
  {
    At(Printed(s, cs, t), t, q, half) == ScreenByte(s, t, cs, q, half)
  }

  lemma {:induction false} NothingPrinted(s: State, t: nat, q: nat, half: nat)
    requires s.Shaped() && t < TERMINALS && q < CELLS && half < 2
    ensures OnTape(s, [], t, q, half)
  {
  }

  lemma {:induction false} PrintedLast(s: State, cs: seq<byte>, c: byte, t: nat)
    requires s.Shaped() && t < TERMINALS
    ensures Printed(s, cs + [c], t) == Put(Printed(s, cs, t), c, t)
  {
    assert (cs + [c])[..|cs|] == cs;
  }

  /** The character scrolls when the cursor is at tape cell v. */
  predicate Scrolls(v: nat, c: byte) {
    if IsLineEnd(c) then v >= CELLS - COLUMNS else c != TAB && Lost(v)
  }

  /** A character that does not scroll, on screen and tape alike. */
  lemma {:induction false} StaysOnTape(s: State, cs: seq<byte>, c: byte, t: nat, q: nat, half: nat)
    requires s.Shaped() && t < TERMINALS && q < CELLS && half < 2
    requires !Scrolls(Place(s.pos[t], cs), c) && OnTape(s, cs, t, q, half)
    ensures OnTape(s, cs + [c], t, q, half)
  {
    StayedScreen(s, cs, c, t, q, half);
    StayedTape(s, cs, c, t, q, half);
  }

  /** The screen after a character that does not scroll. */
  lemma {:induction false} StayedScreen(s: State, cs: seq<byte>, c: byte, t: nat, q: nat, half: nat)
    requires s.Shaped() && t < TERMINALS && q < CELLS && half < 2 && !Scrolls(Place(s.pos[t], cs), c)
    ensures var v := Place(s.pos[t], cs);
      At(Printed(s, cs + [c], t), t, q, half) ==
        if Writes(v, c, q + COLUMNS * Rows(v)) then WrittenByte(c, half) else At(Printed(s, cs, t), t, q, half)
  {
    CursorOnTape(s, cs, t);
    PrintedLast(s, cs, c, t);
    PutStays(Printed(s, cs, t), c, t, Place(s.pos[t], cs), q, half);
  }

  lemma {:induction false} PutStays(s: State, c: byte, t: nat, v: nat, q: nat, half: nat)
    requires s.Shaped() && t < TERMINALS && q < CELLS && half < 2 && AtTape(s.pos[t], v) && !Scrolls(v, c)
    ensures At(Put(s, c, t), t, q, half) ==
      if Writes(v, c, q + COLUMNS * Rows(v)) then WrittenByte(c, half) else At(s, t, q, half)
  {
    OnTheRows(s.pos[t], v);
    PutWrites(s, c, t, q, half);
  }

  /** What the screen should show after a character that does not scroll. */
  lemma {:induction false} StayedTape(s: State, cs: seq<byte>, c: byte, t: nat, q: nat, half: nat)
    requires s.Shaped() && t < TERMINALS && q < CELLS && half < 2 && !Scrolls(Place(s.pos[t], cs), c)
    ensures var v := Place(s.pos[t], cs);
      ScreenByte(s, t, cs + [c], q, half) ==
        if Writes(v, c, q + COLUMNS * Rows(v)) then WrittenByte(c, half) else ScreenByte(s, t, cs, q, half)
  {
    var v := Place(s.pos[t], cs);
    RowsAfter(v, c);
    PlaceGrows(s.pos[t], cs, c);
    if Rows(v) > 0 && Writes(v, c, q + COLUMNS * Rows(v)) {
      WritesLastRow(v, c, q);
    }
    TapeLast(s, t, cs, c, q + COLUMNS * Rows(v), half);
  }

  /** Once the screen has scrolled, only its last row is written. */
  lemma {:induction false} WritesLastRow(v: nat, c: byte, q: nat)
    requires Rows(v) > 0 && Writes(v, c, q + COLUMNS * Rows(v))
    ensures q >= CELLS - COLUMNS
  {
    assert v == COLUMNS * (v / COLUMNS) + v % COLUMNS;
  }

  /** The screen after a character that scrolls. */
  lemma {:induction false} RolledScreen(s: State, cs: seq<byte>, c: byte, t: nat, q: nat, half: nat)
    requires s.Shaped() && t < TERMINALS && q < CELLS && half < 2 && Scrolls(Place(s.pos[t], cs), c)
    ensures At(Printed(s, cs + [c], t), t, q, half) ==
      if q < CELLS - COLUMNS then At(Printed(s, cs, t), 0, q + COLUMNS, half) else BlankByte(half)
  {
    CursorOnTape(s, cs, t);
    OnTheRows(Printed(s, cs, t).pos[t], Place(s.pos[t], cs));
    PrintedLast(s, cs, c, t);
    RollsUp(Printed(s, cs, t), t, q, half);
  }

  /** The tape below the last row that has been reached is blank. */
  lemma {:induction false} BlankRow(s: State, t: nat, cs: seq<byte>, c: byte, q: nat, half: nat)
    requires s.Shaped() && t < TERMINALS && CELLS - COLUMNS <= q < CELLS && half < 2
    requires Scrolls(Place(s.pos[t], cs), c)
    ensures TapeByte(s, t, cs + [c], q + COLUMNS * (Rows(Place(s.pos[t], cs)) + 1), half) == BlankByte(half)
  {
    var v := Place(s.pos[t], cs);
    var w := q + COLUMNS * (Rows(v) + 1);
    CursorOnTape(s, cs, t);
    assert w >= CELLS && w > v;
    TapeLast(s, t, cs, c, w, half);
    TapeAhead(s, t, cs, w, half);
  }

  /** A character that scrolls, on screen and tape alike. */
  lemma {:induction false} RollsOnTape(s: State, cs: seq<byte>, c: byte, t: nat, q: nat, half: nat)
    requires s.Shaped() && t < TERMINALS && q < CELLS && half < 2 && Scrolls(Place(s.pos[t], cs), c)
    requires q < CELLS - COLUMNS ==> OnTape(s, cs, t, q + COLUMNS, half)
    ensures OnTape(s, cs + [c], t, q, half)
  {
    RolledScreen(s, cs, c, t, q, half);
    RolledTape(s, cs, c, t, q, half);
    if t > 0 && q < CELLS - COLUMNS {
      FirstStays(s, cs, t, q + COLUMNS, half);
    }
  }

  /** What the screen should show after a character that scrolls. */
  lemma {:induction false} RolledTape(s: State, cs: seq<byte>, c: byte, t: nat, q: nat, half: nat)
    requires s.Shaped() && t < TERMINALS && q < CELLS && half < 2 && Scrolls(Place(s.pos[t], cs), c)
    ensures ScreenByte(s, t, cs + [c], q, half) ==
      if q >= CELLS - COLUMNS then BlankByte(half)
      else if t > 0 then At(s, 0, q + COLUMNS, half)
      else ScreenByte(s, t, cs, q + COLUMNS, half)
  {
    var v := Place(s.pos[t], cs);
    RowsAfter(v, c);
    PlaceGrows(s.pos[t], cs, c);
    if q >= CELLS - COLUMNS {
      BlankRow(s, t, cs, c, q, half);
    } else if t == 0 {
      TapeLast(s, t, cs, c, q + COLUMNS * (Rows(v) + 1), half);
    }
  }

  /**
   * Every cell of every terminal after any text, newlines, tabs and scrolling included,
   * is what the tape says.
   */
  lemma {:induction false} ScreenIsTape(s: State, cs: seq<byte>, t: nat, q: nat, half: nat)
    requires s.Shaped() && t < TERMINALS && q < CELLS && half < 2
    ensures OnTape(s, cs, t, q, half)
    decreases |cs|
  {
    if cs == [] {
      NothingPrinted(s, t, q, half);
    } else {
      var most, c := cs[..|cs| - 1], cs[|cs| - 1];
      assert cs == most + [c];
      if !Scrolls(Place(s.pos[t], most), c) {
        ScreenIsTape(s, most, t, q, half);
        StaysOnTape(s, most, c, t, q, half);
      } else {
        if q < CELLS - COLUMNS {
          ScreenIsTape(s, most, t, q + COLUMNS, half);
        }
        RollsOnTape(s, most, c, t, q, half);
      }
    }
  }

  // ---------------------------------------------------------------- one character of a text

  lemma {:induction false} PlaceOfMore(p: nat, cs: seq<byte>, k: nat)
    requires k <= |cs|
    ensures Place(p, cs[..k]) <= Place(p, cs)
    decreases |cs| - k
  {
    if k == |cs| {
      assert cs[..k] == cs;
    } else {
      assert cs[..k + 1] == cs[..k] + [cs[k]];
      PlaceGrows(p, cs[..k], cs[k]);
      PlaceOfMore(p, cs, k + 1);
    }
  }

  /** What is on the tape stays there. */
  lemma {:induction false} TapeStays(s: State, t: nat, cs: seq<byte>, k: nat, v: nat, half: nat)
    requires s.Shaped() && t < TERMINALS && half < 2 && k <= |cs| && v < Place(s.pos[t], cs[..k])
    ensures TapeByte(s, t, cs, v, half) == TapeByte(s, t, cs[..k], v, half)
    decreases |cs|
  {
    if k == |cs| {
      assert cs[..k] == cs;
    } else {
      var most, c := cs[..|cs| - 1], cs[|cs| - 1];
      assert cs == most + [c] && most[..k] == cs[..k];
      TapeStays(s, t, most, k, v, half);
      PlaceOfMore(s.pos[t], most, k);
      TapeLast(s, t, most, c, v, half);
    }
  }

  /** Tape cell of character i of a plain place of the text. */
  lemma {:induction false} CharOnTape(s: State, t: nat, cs: seq<byte>, i: nat)
    requires s.Shaped() && t < TERMINALS && i < |cs| && IsPlain(cs[i])
    ensures var v := Place(s.pos[t], cs[..i]);
      v < Place(s.pos[t], cs) && TapeByte(s, t, cs, v, 0) == if Lost(v) then TapeByte(s, t, [], v, 0) else cs[i]
  {
    var v := Place(s.pos[t], cs[..i]);
    assert cs[..i + 1] == cs[..i] + [cs[i]];
    PlaceGrows(s.pos[t], cs[..i], cs[i]);
    PlaceOfMore(s.pos[t], cs, i + 1);
    TapeStays(s, t, cs, i + 1, v, 0);
    TapeLast(s, t, cs[..i], cs[i], v, 0);
    TapeAhead(s, t, cs[..i], v, 0);
  }

  /**
   * A plain character of a text printed on terminal 0, whose cell has not scrolled away, is
   * on the screen if and only if it did not arrive at the bottom right cell, or what stood
   * there is the same.
   */
  lemma {:induction false} CharShownIff(s: State, cs: seq<byte>, i: nat)
    requires s.Shaped() && i < |cs| && IsPlain(cs[i])
    requires Place(s.pos[0], cs[..i]) >= COLUMNS * Rows(Place(s.pos[0], cs))
    ensures AllReal(Typing(cs, 0))
    ensures var v := Place(s.pos[0], cs[..i]);
      var q := v - COLUMNS * Rows(Place(s.pos[0], cs));
      && q < CELLS
      && (Run(s, Typing(cs, 0)).video[2 * q] == cs[i]
          <==> !Lost(v) || cs[i] == if v < CELLS then s.video[2 * (CELLS - 1)] else SPACE)
  {
    var v := Place(s.pos[0], cs[..i]);
    var q := v - COLUMNS * Rows(Place(s.pos[0], cs));
    PrintedIsRun(s, cs, 0);
    CursorOnTape(s, cs, 0);
    CharOnTape(s, 0, cs, i);
    ScreenIsTape(s, cs, 0, q, 0);
  }
}
