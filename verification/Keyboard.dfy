/** The keyboard line discipline of student-distrib/keyboard.c: scancodes to one edited line per terminal. */
module Keyboard {
  import opened Bytes

  const BUFFER_SIZE := 128

  const ESC := 1
  const BACKSPACE := 14
  const TAB := 15
  const ENTER := 28
  const CTRL := 29
  const LSHIFT := 42
  const RSHIFT := 54
  const ALT := 56
  const CAPSLOCK := 58
  const F1 := 59
  const F2 := 60
  const F3 := 61
  /** Set in the scancode of a key that was released. */
  const RELEASED := 128

  // ---------------------------------------------------------------- tables

  /** The character code at index i of a row of keys. */
  function CharOf(keys: string, i: int): byte
    requires 0 <= i < |keys|
  {
    keys[i] as int % 256
  }

  /** keyboardUS. */
  function Plain(code: byte): byte {
    if code == ESC then 27
    else if 2 <= code <= 13 then CharOf("1234567890-=", code - 2)
    else if code == TAB then 9
    else if 16 <= code <= 27 then CharOf("qwertyuiop[]", code - 16)
    else if code == ENTER then NEWLINE
    else if 30 <= code <= 41 then CharOf("asdfghjkl;'`", code - 30)
    else if 43 <= code <= 53 then CharOf("\\zxcvbnm,./", code - 43)
    else if code == 55 then '*' as int
    else if code == 57 then SPACE
    else if code == 74 then '-' as int
    else if code == 78 then '+' as int
    else 0
  }

  /** keyboardUSShift. */
  function Shifted(code: byte): byte {
    if code == ESC then 27
    else if 2 <= code <= 13 then CharOf("!@#$%^&*()_+", code - 2)
    else if code == TAB then 9
    else if 16 <= code <= 27 then CharOf("QWERTYUIOP{}", code - 16)
    else if code == ENTER then NEWLINE
    else if 30 <= code <= 41 then CharOf("ASDFGHJKL:\"~", code - 30)
    else if 43 <= code <= 53 then CharOf("|ZXCVBNM<>?", code - 43)
    else if code == 55 then '*' as int
    else if code == 57 then SPACE
    else if code == 74 then '-' as int
    else if code == 78 then '+' as int
    else 0
  }

  predicate IsLower(b: byte) { 'a' as int <= b <= 'z' as int }

  // ---------------------------------------------------------------- state

  /** The modifier flags and the terminal that is shown. */
  datatype Mods = Mods(shift: bool, ctrl: bool, alt: bool, f1: bool, f2: bool, f3: bool, caps: bool, active: nat)

  /** The flags after a scancode; the terminal is not switched yet. */
  function Flags(m: Mods, code: byte): Mods {
    var down := code < RELEASED;
    var key := if down then code else code - RELEASED;
    m.(shift := if key == LSHIFT || key == RSHIFT then down else m.shift,
       ctrl := if key == CTRL then down else m.ctrl,
       alt := if key == ALT then down else m.alt,
       f1 := if key == F1 then down else m.f1,
       f2 := if key == F2 then down else m.f2,
       f3 := if key == F3 then down else m.f3,
       caps := if code == CAPSLOCK then !m.caps else m.caps)
  }

  /** The character of a pressed key; 0 for a released one. */
  function KeyChar(m: Mods, code: byte): byte {
    if code >= RELEASED then 0
    else if IsLower(Plain(code)) then (if m.shift != m.caps then Shifted(code) else Plain(code))
    else if m.shift then Shifted(code)
    else Plain(code)
  }

  /** The terminal that Alt and a function key ask for. */
  predicate Switching(m: Mods) { m.alt && (m.f1 || m.f2 || m.f3) }

  function Target(m: Mods): nat {
    if !Switching(m) then m.active else if m.f1 then 0 else if m.f2 then 1 else 2
  }

  /** Flags and terminal after a scancode. */
  function NextMods(m: Mods, code: byte): Mods { var n := Flags(m, code); n.(active := Target(n)) }

  /** What a scancode does to the lines. */
  datatype Edit = Push(c: byte, terminal: nat) | Pop(terminal: nat) | Keep

  predicate IsL(c: byte) { c == 'l' as int || c == 'L' as int }

  /** The edit for a key with character c, under flags n with the terminal not switched yet. */
  function EditFor(n: Mods, c: byte, code: byte): Edit {
    if code == BACKSPACE then Pop(n.active)
    else if c != 0 && code != TAB && code != ESC && !n.ctrl && !Switching(n) then Push(c, n.active)
    else Keep
  }

  function EditOf(m: Mods, code: byte): Edit {
    var n := Flags(m, code);
    EditFor(n, KeyChar(n, code), code)
  }

  /** What the handler asks of the console. */
  datatype Call = Backspace(terminal: nat) | Tab(terminal: nat) | Clear(terminal: nat) | Putc(c: byte, terminal: nat)

  /**
   * The whole state. cells is keyboardBuffer, three lines of 128 bytes one after the
   * other, and the byte behind it, which belongs to some other variable.
   */
  datatype State = State(mods: Mods, enter: bool, idx: seq<nat>, cells: seq<byte>) {
    predicate Shaped() {
      && |idx| == TERMINALS && |cells| == TERMINALS * BUFFER_SIZE + 1 && mods.active < TERMINALS
      && (forall t :: 0 <= t < TERMINALS ==> idx[t] <= BUFFER_SIZE)
    }

    /** The edited line of a terminal. */
    function Line(t: nat): (l: seq<byte>)
      requires Shaped() && t < TERMINALS
      ensures |l| == idx[t]
    {
      cells[t * BUFFER_SIZE..t * BUFFER_SIZE + idx[t]]
    }

    function Lines(): (ls: seq<seq<byte>>)
      requires Shaped()
      ensures |ls| == TERMINALS
    {
      [Line(0), Line(1), Line(2)]
    }
  }

  // ---------------------------------------------------------------- the step

  /** The cell that backspace clears. */
  function PopCell(s: State, t: nat): nat
    requires s.Shaped() && t < TERMINALS
  {
    t * BUFFER_SIZE + s.idx[t]
  }

  function Popped(s: State, t: nat): State
    requires s.Shaped() && t < TERMINALS
  {
    if s.idx[t] == 0 then s
    else s.(cells := s.cells[PopCell(s, t) := 0], idx := s.idx[t := s.idx[t] - 1])
  }

  function Pushed(s: State, c: byte, t: nat): State
    requires s.Shaped() && t < TERMINALS
  {
    if s.idx[t] < BUFFER_SIZE
    then s.(cells := s.cells[t * BUFFER_SIZE + s.idx[t] := c], idx := s.idx[t := s.idx[t] + 1])
    else s
  }

  function Edited(s: State, e: Edit): (s': State)
    requires s.Shaped() && (e.Keep? || e.terminal < TERMINALS)
    ensures s'.Shaped()
  {
    match e
    case Push(c, t) => Pushed(s, c, t)
    case Pop(t) => Popped(s, t)
    case Keep => s
  }

  /** keyboard_handler once flags and character are known: edit, then switch the terminal. */
  function Acted(s: State, c: byte, code: byte): (s': State)
    requires s.Shaped()
    ensures s'.Shaped()
  {
    var e := Edited(s, EditFor(s.mods, c, code));
    e.(mods := s.mods.(active := Target(s.mods)))
  }

  /** The console calls of keyboard_handler. */
  function CallsFor(s: State, c: byte, code: byte): seq<Call>
    requires s.Shaped()
  {
    var n := s.mods;
    match EditFor(n, c, code)
    case Push(c, t) => [Putc(c, t)]
    case Pop(t) => if s.idx[t] > 0 then [Backspace(t)] else []
    case Keep => if code == TAB then [Tab(n.active)] else if n.ctrl && IsL(c) then [Clear(n.active)] else []
  }

  function WithFlags(s: State, code: byte): (s': State)
    ensures s.Shaped() ==> s'.Shaped()
  {
    s.(mods := Flags(s.mods, code), enter := s.enter || code == ENTER)
  }

  /** keyboard_handler for one scancode. */
  function Handled(s: State, code: byte): (s': State)
    requires s.Shaped()
    ensures s'.Shaped()
  {
    Acted(WithFlags(s, code), KeyChar(Flags(s.mods, code), code), code)
  }

  // ---------------------------------------------------------------- the program

  class Driver {
    const cells: array<byte>
    const idx: array<nat>
    /** The static flags and active_terminal. */
    var mods: Mods
    var enter: bool

    ghost function Now(): State
      reads this, cells, idx
    {
      State(mods, enter, idx[..], cells[..])
    }

    ghost predicate Valid()
      reads this, cells, idx
    {
      Now().Shaped()
    }

    constructor ()
      ensures Valid() && mods == Mods(false, false, false, false, false, false, false, 0) && !enter
      ensures Now().Lines() == [[], [], []] && fresh(cells) && fresh(idx)
    {
      cells := new byte[TERMINALS * BUFFER_SIZE + 1];
      idx := new nat[TERMINALS](_ => 0);
      mods, enter := Mods(false, false, false, false, false, false, false, 0), false;
    }

    /** The flag updates of a released key. */
    method KeyReleased(key: int)
      requires 0 <= key < RELEASED
      modifies this`mods
      ensures mods == Flags(old(mods), key + RELEASED)
    {
      if key == LSHIFT || key == RSHIFT { mods := mods.(shift := false); }
      if key == CTRL { mods := mods.(ctrl := false); }
      if key == ALT { mods := mods.(alt := false); }
      if key == F1 { mods := mods.(f1 := false); }
      if key == F2 { mods := mods.(f2 := false); }
      if key == F3 { mods := mods.(f3 := false); }
    }

    /** The flag updates of a pressed key. */
    method KeyPressed(code: byte)
      requires code < RELEASED
      modifies this`mods, this`enter
      ensures mods == Flags(old(mods), code) && enter == (old(enter) || code == ENTER)
    {
      PressModifier(code);
      if code == CAPSLOCK { mods := mods.(caps := !mods.caps); }
      if code == ENTER { enter := true; }
    }

    method PressModifier(code: byte)
      requires code < RELEASED
      modifies this`mods
      ensures mods == Flags(old(mods), code).(caps := old(mods).caps)
    {
      if code == LSHIFT || code == RSHIFT { mods := mods.(shift := true); }
      if code == CTRL { mods := mods.(ctrl := true); }
      if code == ALT { mods := mods.(alt := true); }
      if code == F1 { mods := mods.(f1 := true); }
      if code == F2 { mods := mods.(f2 := true); }
      if code == F3 { mods := mods.(f3 := true); }
    }

    /** The table look-up of a pressed key. */
    method LookUp(code: byte) returns (c: byte)
      requires code < RELEASED
      ensures c == KeyChar(mods, code)
    {
      var plain, shifted := Plain(code), Shifted(code);
      if 'a' as int <= plain <= 'z' as int {
        c := if mods.shift != mods.caps then shifted else plain;
      } else {
        c := if mods.shift then shifted else plain;
      }
    }

    method PopChar(t: nat)
      requires Valid() && t < TERMINALS && idx[t] > 0
      modifies cells, idx
      ensures Now() == Popped(old(Now()), t) && Valid()
    {
      cells[t * BUFFER_SIZE + idx[t]] := NUL;
      idx[t] := idx[t] - 1;
    }

    method PushChar(c: byte, t: nat)
      requires Valid() && t < TERMINALS
      modifies cells, idx
      ensures Now() == Pushed(old(Now()), c, t) && Valid()
    {
      if idx[t] < BUFFER_SIZE {
        cells[t * BUFFER_SIZE + idx[t]] := c;
        idx[t] := idx[t] + 1;
      }
    }

    /** keyboard_handler for one scancode, with the console calls it makes. */
    method KeyboardHandler(code: byte) returns (calls: seq<Call>)
      requires Valid()
      modifies this, cells, idx
      ensures Valid() && Now() == Handled(old(Now()), code)
      ensures calls == CallsFor(WithFlags(old(Now()), code), KeyChar(Flags(old(mods), code), code), code)
    {
      var c := 0;
      if code >= RELEASED {
        KeyReleased(code - RELEASED);
      } else {
        KeyPressed(code);
        c := LookUp(code);
      }
      calls := Act(code, c);
    }

    /** The rest of keyboard_handler: backspace, tab, clear, terminal switch, store and echo. */
    method Act(code: byte, key: byte) returns (calls: seq<Call>)
      requires Valid() && (code == BACKSPACE ==> key == 0)
      modifies this`mods, cells, idx
      ensures Valid() && Now() == Acted(old(Now()), key, code)
      ensures calls == CallsFor(old(Now()), key, code)
    {
      var c;
      calls, c := ActSpecial(code, key);
      c := SwitchTerminal(c);
      if c != 0 && code != ESC && !mods.ctrl {
        PushChar(c, mods.active);
        calls := calls + [Putc(c, mods.active)];
      }
    }

    /** Backspace, Tab and Ctrl-L, which leave no character. */
    method ActSpecial(code: byte, key: byte) returns (calls: seq<Call>, c: byte)
      requires Valid() && (code == BACKSPACE ==> key == 0)
      modifies cells, idx
      ensures Valid() && Now() == if code == BACKSPACE then Popped(old(Now()), mods.active) else old(Now())
      ensures c == if code == TAB || (mods.ctrl && IsL(key)) then 0 else key
      ensures var t := mods.active;
        calls == if code == BACKSPACE then (if old(idx[t]) > 0 then [Backspace(t)] else [])
                 else if code == TAB then [Tab(t)]
                 else if mods.ctrl && IsL(key) then [Clear(t)]
                 else []
    {
      c := key;
      calls := [];
      if code == BACKSPACE && idx[mods.active] > 0 {
        calls := calls + [Backspace(mods.active)];
        PopChar(mods.active);
      }
      if code == TAB {
        calls := calls + [Tab(mods.active)];
        c := 0;
      }
      if mods.ctrl && IsL(c) {
        calls := calls + [Clear(mods.active)];
        c := 0;
      }
    }

    /** Alt and a function key select a terminal and swallow the character. */
    method SwitchTerminal(c: byte) returns (c': byte)
      modifies this`mods
      ensures mods == old(mods).(active := Target(old(mods)))
      ensures c' == if Switching(old(mods)) then 0 else c
    {
      c' := c;
      if mods.alt && mods.f1 {
        mods, c' := mods.(active := 0), 0;
      } else if mods.alt && mods.f2 {
        mods, c' := mods.(active := 1), 0;
      } else if mods.alt && mods.f3 {
        mods, c' := mods.(active := 2), 0;
      }
    }

    /**
     * keyboard_read. It waits for Enter on the terminal of the reading process unless
     * the arguments are bad; then it hands out the start of the line and empties it.
     */
    method KeyboardRead(pcbTerminal: nat, buf: array?<byte>, nbytes: int) returns (ret: int)
      requires Valid() && buf != cells
      requires (enter && pcbTerminal == mods.active) || nbytes <= 0 || buf == null
      requires enter && pcbTerminal == mods.active ==> buf != null && nbytes <= buf.Length
      modifies this`enter, cells, idx, buf
      ensures Valid()
      ensures !(old(enter) && pcbTerminal == mods.active) ==>
        Now() == old(Now()) && ret == if nbytes < 0 || buf == null then -1 else 0
      ensures old(enter) && pcbTerminal == mods.active ==>
        var line := old(Now()).Line(mods.active);
        && ret == |Clip(line, if nbytes < 0 then 0 else nbytes)|
        && buf[..ret] == Clip(line, if nbytes < 0 then 0 else nbytes)
        && !enter
        && Now().Lines() == old(Now()).Lines()[mods.active := []]
    {
      if !enter || pcbTerminal != mods.active {
        return if nbytes < 0 || buf == null then -1 else 0;
      }
      enter := false;
      ghost var lines := Now().Lines();
      ret := CopyLine(buf, nbytes);
      assert Now().Lines() == lines;
      ClearBuffer(mods.active);
    }

    /** The copy loop of keyboard_read. */
    method CopyLine(buf: array<byte>, nbytes: int) returns (n: nat)
      requires Valid() && buf != cells && nbytes <= buf.Length
      modifies buf
      ensures var part := Clip(Now().Line(mods.active), if nbytes < 0 then 0 else nbytes);
        n == |part| <= buf.Length && buf[..n] == part
    {
      n := 0;
      ghost var line := Now().Line(mods.active);
      while n < idx[mods.active] && n < nbytes
        invariant n <= idx[mods.active] && (n <= nbytes || n == 0) && n <= buf.Length
        invariant buf[..n] == line[..n]
      {
        assert line[n] == cells[mods.active * BUFFER_SIZE + n];
        buf[n] := cells[mods.active * BUFFER_SIZE + n];
        n := n + 1;
      }
    }

    /** clear_keyboardBuffer. */
    method ClearBuffer(t: nat)
      requires Valid() && t < TERMINALS
      modifies cells, idx
      ensures Valid()
      ensures Now().Lines() == old(Now()).Lines()[t := []]
      ensures forall k :: t * BUFFER_SIZE <= k < (t + 1) * BUFFER_SIZE ==> cells[k] == NUL
    {
      ghost var s := Now();
      idx[t] := 0;
      for i := 0 to BUFFER_SIZE
        invariant idx[..] == s.idx[t := 0]
        invariant forall k :: t * BUFFER_SIZE <= k < t * BUFFER_SIZE + i ==> cells[k] == NUL
        invariant forall k :: 0 <= k < cells.Length && !(t * BUFFER_SIZE <= k < t * BUFFER_SIZE + i) ==>
          cells[k] == s.cells[k]
      {
        cells[t * BUFFER_SIZE + i] := NUL;
      }
      EmptiedLines(s, Now(), t);
    }
  }

  lemma {:induction false} EmptiedLines(s: State, s': State, t: nat)
    requires s.Shaped() && s'.Shaped() && t < TERMINALS && s'.idx == s.idx[t := 0]
    requires forall k :: 0 <= k < |s.cells| && !(t * BUFFER_SIZE <= k < (t + 1) * BUFFER_SIZE) ==>
      s'.cells[k] == s.cells[k]
    ensures s'.Lines() == s.Lines()[t := []]
  {
    forall u | 0 <= u < TERMINALS && u != t ensures s'.Line(u) == s.Line(u) {
    }
  }

  // ---------------------------------------------------------------- lines and edits

  /** An edit of the lines themselves. */
  function Apply(lines: seq<seq<byte>>, e: Edit): (r: seq<seq<byte>>)
    ensures |r| == |lines|
  {
    match e
    case Push(c, t) => if t < |lines| && |lines[t]| < BUFFER_SIZE then lines[t := lines[t] + [c]] else lines
    case Pop(t) => if t < |lines| && lines[t] != [] then lines[t := lines[t][..|lines[t]| - 1]] else lines
    case Keep => lines
  }

  /** A backspace stores behind the array. */
  predicate StoresOutside(s: State, e: Edit)
    requires s.Shaped() && (e.Keep? || e.terminal < TERMINALS)
  {
    e.Pop? && s.idx[e.terminal] > 0 && PopCell(s, e.terminal) >= TERMINALS * BUFFER_SIZE
  }

  /** The scancode edits the lines as its key says and stores only inside keyboardBuffer. */
  predicate EditsLines(s: State, code: byte)
    requires s.Shaped()
  {
    && Handled(s, code).Lines() == Apply(s.Lines(), EditOf(s.mods, code))
    && !StoresOutside(s, EditOf(s.mods, code))
  }

  /**
   * Backspace on a full line writes the byte behind it: the first character of the next
   * terminal's line, or, for the last terminal, a byte behind the array.
   */
  predicate Spills(s: State, code: byte)
    requires s.Shaped()
  {
    var t := s.mods.active;
    code == BACKSPACE && Hits(s, t)
  }

  /** A scancode edits the lines as it should, inside the array, if and only if it does not spill. */
  lemma {:induction false} HandledIff(s: State, code: byte)
    requires s.Shaped()
    ensures EditsLines(s, code) <==> !Spills(s, code)
  {
    var s1, c := WithFlags(s, code), KeyChar(Flags(s.mods, code), code);
    EditedLines(s1, EditFor(s1.mods, c, code));
    assert s1.Lines() == s.Lines();
    assert Handled(s, code).Lines() == Edited(s1, EditFor(s1.mods, c, code)).Lines();
  }

  lemma {:induction false} EditedLines(s: State, e: Edit)
    requires s.Shaped() && (e.Keep? || e.terminal < TERMINALS)
    ensures Edited(s, e).Lines() == Apply(s.Lines(), e) && !StoresOutside(s, e) <==> !(e.Pop? && Hits(s, e.terminal))
  {
    match e
    case Push(c, t) => PushLines(s, c, t);
    case Pop(t) => PopLines(s, t);
    case Keep =>
  }

  lemma {:induction false} PushLines(s: State, c: byte, t: nat)
    requires s.Shaped() && t < TERMINALS
    ensures Pushed(s, c, t).Lines() == Apply(s.Lines(), Push(c, t))
  {
    if s.idx[t] < BUFFER_SIZE {
      forall u | 0 <= u < TERMINALS ensures Pushed(s, c, t).Line(u) == Apply(s.Lines(), Push(c, t))[u] {
        PushedLine(s, c, t, u);
      }
    }
  }

  lemma {:induction false} PushedLine(s: State, c: byte, t: nat, u: nat)
    requires s.Shaped() && t < TERMINALS && u < TERMINALS && s.idx[t] < BUFFER_SIZE
    ensures Pushed(s, c, t).Line(u) == if u == t then s.Line(u) + [c] else s.Line(u)
  {
  }

  lemma {:induction false} PopLines(s: State, t: nat)
    requires s.Shaped() && t < TERMINALS
    ensures var s' := Popped(s, t);
      && s'.Shaped()
      && (s'.Lines() == Apply(s.Lines(), Pop(t)) && !StoresOutside(s, Pop(t)) <==> !Hits(s, t))
  {
    var s' := Popped(s, t);
    if s.idx[t] > 0 {
      PoppedLine(s, t);
      forall u | 0 <= u < TERMINALS && u != t ensures s'.Line(u) == s.Line(u) <==> !(u == t + 1 && Hits(s, t)) {
        OtherLine(s, t, u);
      }
      var want := Apply(s.Lines(), Pop(t));
      assert s'.Lines()[0] == s'.Line(0) && s'.Lines()[1] == s'.Line(1) && s'.Lines()[2] == s'.Line(2);
      assert want[t] == s'.Line(t) && forall u :: 0 <= u < TERMINALS && u != t ==> want[u] == s.Line(u);
    }
  }

  /** The terminator that backspace writes falls on a character of the next line, or behind the last one. */
  predicate Hits(s: State, t: nat)
    requires s.Shaped() && t < TERMINALS
  {
    s.idx[t] == BUFFER_SIZE && (t + 1 == TERMINALS || (s.idx[t + 1] > 0 && s.cells[(t + 1) * BUFFER_SIZE] != NUL))
  }

  lemma {:induction false} PoppedLine(s: State, t: nat)
    requires s.Shaped() && t < TERMINALS && s.idx[t] > 0
    ensures Popped(s, t).Shaped() && Popped(s, t).Line(t) == s.Line(t)[..s.idx[t] - 1]
  {
    var l, l' := s.Line(t), Popped(s, t).Line(t);
    forall k | 0 <= k < s.idx[t] - 1 ensures l'[k] == l[k] {
    }
  }

  lemma {:induction false} OtherLine(s: State, t: nat, u: nat)
    requires s.Shaped() && t < TERMINALS && u < TERMINALS && u != t && s.idx[t] > 0
    ensures Popped(s, t).Shaped() && (Popped(s, t).Line(u) == s.Line(u) <==> !(u == t + 1 && Hits(s, t)))
  {
    var s', at := Popped(s, t), t * BUFFER_SIZE + s.idx[t];
    var l, l' := s.Line(u), s'.Line(u);
    assert forall k {:trigger l[k]} :: 0 <= k < |l| ==> l[k] == s.cells[u * BUFFER_SIZE + k];
    assert forall k {:trigger l'[k]} :: 0 <= k < |l'| ==> l'[k] == s'.cells[u * BUFFER_SIZE + k];
    if u == t + 1 && s.idx[t] == BUFFER_SIZE && |l| > 0 {
      assert l[0] == s.cells[at] && l'[0] == NUL;
      assert forall k :: 0 < k < |l| ==> l'[k] == l[k];
    } else {
      assert forall k :: 0 <= k < |l| ==> l'[k] == l[k];
    }
  }

  /** A line is full and the next one starts with 'x': a backspace on the first clears that character. */
  lemma {:induction false} BackspaceSpills(s: State, t: nat)
    requires s.Shaped() && t + 1 < TERMINALS && s.mods.active == t
    requires s.idx[t] == BUFFER_SIZE && s.idx[t + 1] > 0 && s.cells[(t + 1) * BUFFER_SIZE] == 'x' as int
    ensures s.Line(t + 1)[0] == 'x' as int && Handled(s, BACKSPACE).Line(t + 1)[0] == NUL
  {
  }

  /** The third terminal's line is full: a backspace leaves the lines right and clears a byte behind the array. */
  lemma {:induction false} BackspaceLeavesArray(s: State)
    requires s.Shaped() && s.mods.active == 2 && s.idx[2] == BUFFER_SIZE &&
      s.cells[TERMINALS * BUFFER_SIZE] == 'x' as int
    ensures var s' := Handled(s, BACKSPACE);
      && s'.Lines() == Apply(s.Lines(), Pop(2)) && StoresOutside(s, Pop(2)) && Spills(s, BACKSPACE)
      && s'.cells[TERMINALS * BUFFER_SIZE] == NUL
  {
    PoppedLine(s, 2);
    OtherLine(s, 2, 0);
    OtherLine(s, 2, 1);
    var s' := Handled(s, BACKSPACE);
    assert s'.Line(0) == s.Line(0) && s'.Line(1) == s.Line(1) && s'.Line(2) == s.Line(2)[..BUFFER_SIZE - 1];
  }

  // ---------------------------------------------------------------- runs

  function Run(s: State, codes: seq<byte>): (s': State)
    requires s.Shaped()
    ensures s'.Shaped()
    decreases |codes|
  {
    if codes == [] then s else Run(Handled(s, codes[0]), codes[1..])
  }

  /** The lines as they should be: the edits of the scancodes, one after the other. */
  function Folded(lines: seq<seq<byte>>, m: Mods, codes: seq<byte>): seq<seq<byte>>
    decreases |codes|
  {
    if codes == [] then lines
    else Folded(Apply(lines, EditOf(m, codes[0])), NextMods(m, codes[0]), codes[1..])
  }

  /** No scancode of the run spills. */
  predicate NoSpill(s: State, codes: seq<byte>)
    requires s.Shaped()
    decreases |codes|
  {
    codes == [] || (!Spills(s, codes[0]) && NoSpill(Handled(s, codes[0]), codes[1..]))
  }

  /** No scancode of the run stores behind the array. */
  predicate StaysInside(s: State, codes: seq<byte>)
    requires s.Shaped()
    decreases |codes|
  {
    codes == [] || (!StoresOutside(s, EditOf(s.mods, codes[0])) && StaysInside(Handled(s, codes[0]), codes[1..]))
  }

  /** After every part of the scancodes the lines are what the edits make of the given ones. */
  ghost predicate AllAlong(s: State, lines: seq<seq<byte>>, codes: seq<byte>)
    requires s.Shaped()
  {
    forall k :: 0 <= k <= |codes| ==> Run(s, codes[..k]).Lines() == Folded(lines, s.mods, codes[..k])
  }

  lemma {:induction false} AgreeLater(s: State, lines: seq<seq<byte>>, codes: seq<byte>, k: nat)
    requires s.Shaped() && k < |codes|
    ensures Run(s, codes[..k + 1]) == Run(Handled(s, codes[0]), codes[1..][..k])
    ensures Folded(lines, s.mods, codes[..k + 1])
      == Folded(Apply(lines, EditOf(s.mods, codes[0])), NextMods(s.mods, codes[0]), codes[1..][..k])
  {
    assert codes[..k + 1][1..] == codes[1..][..k];
  }

  lemma {:induction false} AllAlongStep(s: State, lines: seq<seq<byte>>, codes: seq<byte>)
    requires s.Shaped() && codes != [] && s.Lines() == lines
    ensures AllAlong(s, lines, codes)
      <==> AllAlong(Handled(s, codes[0]), Apply(lines, EditOf(s.mods, codes[0])), codes[1..])
  {
    var s1, l1 := Handled(s, codes[0]), Apply(lines, EditOf(s.mods, codes[0]));
    assert codes[..0] == [];
    assert s1.mods == NextMods(s.mods, codes[0]);
    if AllAlong(s, lines, codes) {
      forall k | 0 <= k <= |codes[1..]|
        ensures Run(s1, codes[1..][..k]).Lines() == Folded(l1, s1.mods, codes[1..][..k])
      {
        AgreeLater(s, lines, codes, k);
      }
    }
    if AllAlong(s1, l1, codes[1..]) {
      forall k | 0 <= k <= |codes| ensures Run(s, codes[..k]).Lines() == Folded(lines, s.mods, codes[..k]) {
        if k > 0 {
          AgreeLater(s, lines, codes, k - 1);
        }
      }
    }
  }

  /**
   * For every sequence of scancodes: all along it the lines of the three terminals are
   * what the edits make of them and no store leaves the array, if and only if no
   * scancode spills.
   */
  lemma {:induction false} LinesAreEdits(s: State, codes: seq<byte>)
    requires s.Shaped()
    ensures NoSpill(s, codes) <==> AllAlong(s, s.Lines(), codes) && StaysInside(s, codes)
    decreases |codes|
  {
    if codes == [] {
      assert codes[..0] == [];
    } else {
      var s1, l1 := Handled(s, codes[0]), Apply(s.Lines(), EditOf(s.mods, codes[0]));
      HandledIff(s, codes[0]);
      AllAlongStep(s, s.Lines(), codes);
      LinesAreEdits(s1, codes[1..]);
      StartsWith(s1, l1, codes[1..]);
    }
  }

  lemma {:induction false} StartsWith(s: State, lines: seq<seq<byte>>, codes: seq<byte>)
    requires s.Shaped()
    ensures AllAlong(s, lines, codes) ==> s.Lines() == lines
  {
    if AllAlong(s, lines, codes) {
      assert codes[..0] == [];
      assert Run(s, codes[..0]).Lines() == Folded(lines, s.mods, codes[..0]);
    }
  }

  // ---------------------------------------------------------------- shift and caps lock

  /** Shift is held: the last scancode of a shift key, if there was one, was a press. */
  function ShiftHeld(codes: seq<byte>): bool
    decreases |codes|
  {
    if codes == [] then false
    else
      var last := codes[|codes| - 1];
      if last == LSHIFT || last == RSHIFT then true
      else if last == LSHIFT + RELEASED || last == RSHIFT + RELEASED then false
      else ShiftHeld(codes[..|codes| - 1])
  }

  /** How often caps lock was pressed. */
  function CapsPresses(codes: seq<byte>): nat
    decreases |codes|
  {
    if codes == [] then 0
    else CapsPresses(codes[..|codes| - 1]) + if codes[|codes| - 1] == CAPSLOCK then 1 else 0
  }

  /** The last scancode of the key, if there was one, was a press. */
  function Held(codes: seq<byte>, key: byte): bool
    decreases |codes|
  {
    if codes == [] then false
    else
      var last := codes[|codes| - 1];
      if last == key then true
      else if last as int == key + RELEASED then false
      else Held(codes[..|codes| - 1], key)
  }

  const START := Mods(false, false, false, false, false, false, false, 0)

  /** Each flag says what the scancodes so far say of its key. */
  ghost predicate FlagsTell(m: Mods, codes: seq<byte>) {
    && m.shift == ShiftHeld(codes) && m.caps == (CapsPresses(codes) % 2 == 1)
    && m.ctrl == Held(codes, CTRL) && m.alt == Held(codes, ALT)
    && m.f1 == Held(codes, F1) && m.f2 == Held(codes, F2) && m.f3 == Held(codes, F3)
  }

  lemma {:induction false} HeldLast(codes: seq<byte>, code: byte, key: byte)
    ensures Held(codes + [code], key)
      == if code == key then true else if code as int == key + RELEASED then false else Held(codes, key)
  {
    assert (codes + [code])[..|codes|] == codes;
  }

  lemma {:induction false} CaseKeysLast(codes: seq<byte>, code: byte)
    ensures CapsPresses(codes + [code]) == CapsPresses(codes) + if code == CAPSLOCK then 1 else 0
    ensures ShiftHeld(codes + [code]) ==
      if code == LSHIFT || code == RSHIFT then true
      else if code == LSHIFT + RELEASED || code == RSHIFT + RELEASED then false
      else ShiftHeld(codes)
  {
    assert (codes + [code])[..|codes|] == codes;
  }

  lemma {:induction false} FlagsFollow(m: Mods, codes: seq<byte>, code: byte)
    requires FlagsTell(m, codes)
    ensures FlagsTell(NextMods(m, code), codes + [code])
  {
    CaseKeysLast(codes, code);
    HeldLast(codes, code, CTRL);
    HeldLast(codes, code, ALT);
    HeldLast(codes, code, F1);
    HeldLast(codes, code, F2);
    HeldLast(codes, code, F3);
  }

  lemma {:induction false} RunLast(s: State, codes: seq<byte>, code: byte)
    requires s.Shaped()
    ensures Run(s, codes + [code]) == Handled(Run(s, codes), code)
    decreases |codes|
  {
    if codes == [] {
    } else {
      assert (codes + [code])[1..] == codes[1..] + [code];
      RunLast(Handled(s, codes[0]), codes[1..], code);
    }
  }

  /** After any scancodes the driver's flags say which keys are held and how often caps lock was pressed. */
  lemma {:induction false} FlagsAre(s: State, codes: seq<byte>)
    requires s.Shaped() && s.mods == START
    ensures FlagsTell(Run(s, codes).mods, codes)
    decreases |codes|
  {
    if codes == [] {
    } else {
      var most, last := codes[..|codes| - 1], codes[|codes| - 1];
      assert codes == most + [last];
      FlagsAre(s, most);
      RunLast(s, most, last);
      FlagsFollow(Run(s, most).mods, most, last);
    }
  }

  /** The scancodes of the letter keys. */
  predicate IsLetterKey(code: byte) { 16 <= code <= 25 || 30 <= code <= 38 || 44 <= code <= 50 }

  predicate CasePair(low: byte, up: byte) { IsLower(low) && up as int == low - 32 }

  lemma {:induction false} TopRow(i: nat)
    requires i < 12
    ensures var low, up := CharOf("qwertyuiop[]", i), CharOf("QWERTYUIOP{}", i);
      if i < 10 then CasePair(low, up) else !IsLower(low)
  {
    assert i == 0 || i == 1 || i == 2 || i == 3 || i == 4 || i == 5 || i == 6 || i == 7 || i == 8 || i == 9 ||
      i == 10 || i == 11;
  }

  lemma {:induction false} HomeRow(i: nat)
    requires i < 12
    ensures var low, up := CharOf("asdfghjkl;'`", i), CharOf("ASDFGHJKL:\"~", i);
      if i < 9 then CasePair(low, up) else !IsLower(low)
  {
    assert i == 0 || i == 1 || i == 2 || i == 3 || i == 4 || i == 5 || i == 6 || i == 7 || i == 8 || i == 9 ||
      i == 10 || i == 11;
  }

  lemma {:induction false} BottomRow(i: nat)
    requires i < 11
    ensures var low, up := CharOf("\\zxcvbnm,./", i), CharOf("|ZXCVBNM<>?", i);
      if 1 <= i < 8 then CasePair(low, up) else !IsLower(low)
  {
    assert i == 0 || i == 1 || i == 2 || i == 3 || i == 4 || i == 5 || i == 6 || i == 7 || i == 8 || i == 9 || i == 10;
  }

  lemma {:induction false} DigitRow(i: nat)
    requires i < 12
    ensures !IsLower(CharOf("1234567890-=", i))
  {
    assert i == 0 || i == 1 || i == 2 || i == 3 || i == 4 || i == 5 || i == 6 || i == 7 || i == 8 || i == 9 ||
      i == 10 || i == 11;
  }

  /** The letter keys are those with a lower case letter in the first table, and the second has its upper case. */
  lemma {:induction false} LetterKeys(code: byte)
    ensures IsLetterKey(code) <==> IsLower(Plain(code))
    ensures IsLetterKey(code) ==> Shifted(code) as int == Plain(code) - 32
  {
    if 2 <= code <= 13 { DigitRow(code - 2); }
    if 16 <= code <= 27 { TopRow(code - 16); }
    if 30 <= code <= 41 { HomeRow(code - 30); }
    if 43 <= code <= 53 { BottomRow(code - 43); }
  }

  /** The letter of a key, upper case if shift is held or caps lock was pressed an odd number of times, but not both. */
  function LetterAfter(codes: seq<byte>, code: byte): (c: int) {
    if ShiftHeld(codes) != (CapsPresses(codes) % 2 == 1) then Plain(code) - 32 else Plain(code)
  }

  /** Alt and a function key are held, so that every scancode switches the terminal. */
  predicate SwitchHeld(codes: seq<byte>) {
    Held(codes, ALT) && (Held(codes, F1) || Held(codes, F2) || Held(codes, F3))
  }

  /** What a letter key does to the lines, by the flags. */
  lemma {:induction false} LetterEdit(m: Mods, codes: seq<byte>, code: byte)
    requires FlagsTell(m, codes) && IsLetterKey(code)
    ensures 0 <= LetterAfter(codes, code) < 256
    ensures EditOf(m, code) ==
      if Held(codes, CTRL) || SwitchHeld(codes) then Keep else Push(LetterAfter(codes, code), m.active)
  {
    LetterKeys(code);
    assert Flags(m, code) == m;
  }

  /**
   * After any scancodes, a letter key appends the letter in that case to the line of the
   * active terminal, if it is not full and neither Ctrl nor a terminal switch is held,
   * and otherwise leaves all lines as they are.
   */
  lemma {:induction false} LetterCase(s: State, codes: seq<byte>, code: byte)
    requires s.Shaped() && s.mods == START && IsLetterKey(code)
    ensures 0 <= LetterAfter(codes, code) < 256
    ensures var s1 := Run(s, codes);
      var t := s1.mods.active;
      Handled(s1, code).Lines() ==
        if |s1.Line(t)| < BUFFER_SIZE && !Held(codes, CTRL) && !SwitchHeld(codes)
        then s1.Lines()[t := s1.Line(t) + [LetterAfter(codes, code)]] else s1.Lines()
  {
    var s1 := Run(s, codes);
    FlagsAre(s, codes);
    LetterEdit(s1.mods, codes, code);
    HandledIff(s1, code);
  }
}
