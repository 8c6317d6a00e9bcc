/**
 * Keyboard and console together: the handler of student-distrib/keyboard.c edits a line
 * and echoes on the console of student-distrib/lib.c. When do the cells in front of the
 * cursor show the line?
 */
module Echo {
  import opened Bytes
  import K = Keyboard
  import C = Console

  /** Driver and console share the active terminal. */
  datatype Desk = Desk(k: K.State, c: C.State) {
    ghost predicate Good() { k.Shaped() && c.Shaped() && c.active == k.mods.active }
  }

  /** A call of the handler, on the console. */
  function Called(c: C.State, call: K.Call): (c': C.State)
    requires c.Shaped() && call.terminal < TERMINALS
    ensures c'.Shaped()
  {
    match call
    case Backspace(_) => C.Backspaced(c)
    case Tab(t) => C.Tabbed(c, t)
    case Clear(t) => C.ClearedState(c, t)
    case Putc(ch, t) => C.Put(c, ch, t)
  }

  /** What the handler calls for a scancode. */
  function Calls(k: K.State, code: byte): (calls: seq<K.Call>)
    requires k.Shaped()
    ensures |calls| <= 1 && forall i :: 0 <= i < |calls| ==> calls[i].terminal == k.mods.active
  {
    K.CallsFor(K.WithFlags(k, code), K.KeyChar(K.Flags(k.mods, code), code), code)
  }

  function AfterCalls(c: C.State, calls: seq<K.Call>): (c': C.State)
    requires c.Shaped() && |calls| <= 1 && forall i :: 0 <= i < |calls| ==> calls[i].terminal < TERMINALS
    ensures c'.Shaped()
  {
    if calls == [] then c else Called(c, calls[0])
  }

  /** One scancode. */
  function Step(d: Desk, code: byte): (d': Desk)
    requires d.Good()
    ensures d'.Good()
  {
    var k := K.Handled(d.k, code);
    Desk(k, AfterCalls(d.c, Calls(d.k, code)).(active := k.mods.active))
  }

  // ---------------------------------------------------------------- what is shown

  /** What follows the last newline. */
  function Tail(line: seq<byte>): (text: seq<byte>)
    ensures |text| <= |line| && NEWLINE !in text
  {
    if line == [] || line[|line| - 1] == NEWLINE then []
    else Tail(line[..|line| - 1]) + [line[|line| - 1]]
  }

  lemma {:induction false} TailGrows(line: seq<byte>, ch: byte)
    ensures Tail(line + [ch]) == if ch == NEWLINE then [] else Tail(line) + [ch]
  {
    assert (line + [ch])[..|line|] == line;
  }

  /** The character in cell q of terminal t. */
  function Cell(video: seq<byte>, t: nat, q: nat): byte
    requires |video| == C.STRIDE * TERMINALS && t < TERMINALS && q < CELLS
  {
    video[C.Base(t) + 2 * q]
  }

  /** The text stands in terminal t's cells in front of cell p. */
  ghost predicate TextBefore(video: seq<byte>, t: nat, p: nat, text: seq<byte>)
    requires |video| == C.STRIDE * TERMINALS && t < TERMINALS && p <= CELLS
  {
    |text| <= p && forall i :: 0 <= i < |text| ==> Cell(video, t, p - |text| + i) == text[i]
  }

  /** In front of the cursor of terminal t stands the part of its line behind the last newline. */
  ghost predicate Echoes(d: Desk, t: nat)
    requires d.Good() && t < TERMINALS
  {
    TextBefore(d.c.video, t, d.c.pos[t], Tail(d.k.Line(t)))
  }

  ghost predicate AllEcho(d: Desk)
    requires d.Good()
  {
    forall t :: 0 <= t < TERMINALS ==> Echoes(d, t)
  }

  // ---------------------------------------------------------------- one call

  /** putc of this character scrolls. */
  predicate Rolls(c: C.State, ch: byte, t: nat)
    requires c.Shaped() && t < TERMINALS
  {
    if ch == NEWLINE then c.pos[t] / COLUMNS == C.ROWS - 1 else c.pos[t] == CELLS - 1
  }

  predicate AllAre(text: seq<byte>, ch: byte) { forall i :: 0 <= i < |text| ==> text[i] == ch }

  /** After a scroll a short text is in front of the cursor if and only if terminal 0's last cells held it. */
  lemma {:induction false} RolledText(c: C.State, t: nat, text: seq<byte>)
    requires c.Shaped() && t < TERMINALS && |text| <= K.BUFFER_SIZE
    ensures TextBefore(C.Scrolled(c.video, t), t, CELLS - COLUMNS, text) <==> TextBefore(c.video, 0, CELLS, text)
  {
    var v := C.Scrolled(c.video, t);
    forall q | 0 <= q < CELLS - COLUMNS ensures Cell(v, t, q) == Cell(c.video, 0, q + COLUMNS) {
      assert v[C.Base(t) + 2 * q] == c.video[2 * q + 2 * COLUMNS];
    }
    forall i | 0 <= i < |text|
      ensures Cell(v, t, CELLS - COLUMNS - |text| + i) == text[i] <==> Cell(c.video, 0, CELLS - |text| + i) == text[i]
    {
      var q := CELLS - COLUMNS - |text| + i;
      assert Cell(v, t, q) == Cell(c.video, 0, q + COLUMNS);
    }
  }

  function Copies(ch: byte, n: nat): seq<byte> { seq(n, _ => ch) }

  lemma {:induction false} CopiesVideo(c: C.State, ch: byte, n: nat, t: nat)
    requires c.Shaped() && t < TERMINALS && c.pos[t] + n < CELLS
    ensures var c', p := C.PutMany(c, Copies(ch, n), t), c.pos[t];
      forall q :: 0 <= q < CELLS ==> Cell(c'.video, t, q) == if p <= q < p + n then ch else Cell(c.video, t, q)
    decreases n
  {
    if n == 0 {
    } else {
      CopiesVideo(c, ch, n - 1, t);
      C.PutManyCursor(c, Copies(ch, n - 1), t);
      var c1, p := C.PutMany(c, Copies(ch, n - 1), t), c.pos[t];
      assert Copies(ch, n)[..n - 1] == Copies(ch, n - 1);
      assert C.PutMany(c, Copies(ch, n), t) == C.PutPlain(c1, ch, t);
      forall q | 0 <= q < CELLS
        ensures Cell(C.PutPlain(c1, ch, t).video, t, q) == if q == p + n - 1 then ch else Cell(c1.video, t, q)
      {
      }
    }
  }

  /** A text that is still in front of the cursor n copies of ch further on is all ch. */
  lemma {:induction false} TextIsCopies(v: seq<byte>, v': seq<byte>, ch: byte, p: nat, n: nat, t: nat,
                                        text: seq<byte>, i: nat)
    requires |v| == |v'| == C.STRIDE * TERMINALS && t < TERMINALS && 0 < n && p + n < CELLS && i < |text|
    requires TextBefore(v, t, p, text) && TextBefore(v', t, p + n, text)
    requires forall q :: 0 <= q < CELLS ==> Cell(v', t, q) == if p <= q < p + n then ch else Cell(v, t, q)
    ensures text[i] == ch
    decreases |text| - i
  {
    var m := |text|;
    assert Cell(v', t, p + n - m + i) == text[i];
    if i >= m - n {
    } else {
      assert Cell(v, t, p - m + (i + n)) == text[i + n];
      TextIsCopies(v, v', ch, p, n, t, text, i + n);
    }
  }

  /** n copies of a character behind the text. */
  lemma {:induction false} CopiesIff(c: C.State, ch: byte, n: nat, t: nat, text: seq<byte>)
    requires c.Shaped() && t < TERMINALS && c.pos[t] + n < CELLS && TextBefore(c.video, t, c.pos[t], text)
    ensures var c' := C.PutMany(c, Copies(ch, n), t);
      c'.pos[t] == c.pos[t] + n && (TextBefore(c'.video, t, c'.pos[t], text) <==> n == 0 || AllAre(text, ch))
  {
    C.PutManyCursor(c, Copies(ch, n), t);
    CopiesVideo(c, ch, n, t);
    var c', p, m := C.PutMany(c, Copies(ch, n), t), c.pos[t], |text|;
    if n == 0 {
    } else if AllAre(text, ch) {
      forall i | 0 <= i < m ensures Cell(c'.video, t, p + n - m + i) == text[i] {
        if i < m - n {
          assert Cell(c.video, t, p - m + (i + n)) == text[i + n];
        }
      }
    } else if TextBefore(c'.video, t, p + n, text) {
      forall i | 0 <= i < m ensures text[i] == ch {
        TextIsCopies(c.video, c'.video, ch, p, n, t, text, i);
      }
    }
  }

  /**
   * A character that is echoed and not stored: the text is in front of the cursor if and
   * only if it is all that character.
   */
  lemma {:induction false} OneTooMany(c: C.State, ch: byte, t: nat, text: seq<byte>)
    requires c.Shaped() && t < TERMINALS && c.pos[t] < CELLS - 1 && TextBefore(c.video, t, c.pos[t], text)
    ensures var c' := C.PutPlain(c, ch, t); TextBefore(c'.video, t, c'.pos[t], text) <==> AllAre(text, ch)
  {
    CopiesIff(c, ch, 1, t, text);
    var one := Copies(ch, 1);
    assert one[..0] == [];
    assert C.PutMany(c, one, t) == C.PutPlain(C.PutMany(c, one[..0], t), one[0], t);
  }

  /** A stored character. */
  lemma {:induction false} OneMore(c: C.State, ch: byte, t: nat, text: seq<byte>)
    requires c.Shaped() && t < TERMINALS && c.pos[t] < CELLS - 1 && TextBefore(c.video, t, c.pos[t], text)
    ensures var c' := C.PutPlain(c, ch, t); TextBefore(c'.video, t, c'.pos[t], text + [ch])
  {
    var c', n, p := C.PutPlain(c, ch, t), |text|, c.pos[t];
    forall i | 0 <= i < n + 1 ensures Cell(c'.video, t, p + 1 - (n + 1) + i) == (text + [ch])[i] {
      if i < n {
        assert Cell(c.video, t, p - n + i) == text[i];
      }
    }
  }

  /** When a text is in front of the cursor after putc. */
  ghost predicate PutEchoes(c: C.State, ch: byte, t: nat, line: seq<byte>)
    requires c.Shaped() && t < TERMINALS
  {
    var stored := |line| < K.BUFFER_SIZE;
    if Rolls(c, ch, t) then TextBefore(c.video, 0, CELLS, Tail(if stored then line + [ch] else line))
    else if stored then true
    else if ch == NEWLINE then TextBefore(c.video, t, (c.pos[t] / COLUMNS + 1) * COLUMNS, Tail(line))
    else AllAre(Tail(line), ch)
  }

  lemma {:induction false} PutIff(c: C.State, ch: byte, t: nat, line: seq<byte>)
    requires c.Shaped() && t < TERMINALS && (ch == NEWLINE || C.IsPlain(ch)) && |line| <= K.BUFFER_SIZE
    requires TextBefore(c.video, t, c.pos[t], Tail(line))
    ensures var c', line' := C.Put(c, ch, t), if |line| < K.BUFFER_SIZE then line + [ch] else line;
      TextBefore(c'.video, t, c'.pos[t], Tail(line')) <==> PutEchoes(c, ch, t, line)
  {
    var line' := if |line| < K.BUFFER_SIZE then line + [ch] else line;
    TailGrows(line, ch);
    if Rolls(c, ch, t) {
      RolledText(c, t, Tail(line'));
    } else if ch != NEWLINE {
      if |line| < K.BUFFER_SIZE {
        OneMore(c, ch, t, Tail(line));
      } else {
        OneTooMany(c, ch, t, Tail(line));
      }
    }
  }

  lemma {:induction false} EraseIff(c: C.State, text: seq<byte>)
    requires c.Shaped()
    ensures var c', t := C.Backspaced(c), c.active;
      TextBefore(c'.video, t, c'.pos[t], text) <==>
        TextBefore(c.video, t, if c.pos[t] == 0 then 0 else c.pos[t] - 1, text)
  {
  }

  lemma {:induction false} TabIff(c: C.State, t: nat, text: seq<byte>)
    requires c.Shaped() && t < TERMINALS && TextBefore(c.video, t, c.pos[t], text)
    ensures var c' := C.Tabbed(c, t);
      TextBefore(c'.video, t, c'.pos[t], text) <==> C.TabSize(c.pos[t] % COLUMNS) == 0 || AllAre(text, SPACE)
  {
    var n := C.TabSize(c.pos[t] % COLUMNS);
    TabFits(c.pos[t]);
    assert C.Spaces(n) == Copies(SPACE, n);
    CopiesIff(c, SPACE, n, t, text);
  }

  lemma {:induction false} TabFits(p: nat)
    requires p < CELLS
    ensures p + C.TabSize(p % COLUMNS) < CELLS
  {
    var x, y := p % COLUMNS, p / COLUMNS;
    assert p == COLUMNS * y + x && y < C.ROWS;
  }

  // ---------------------------------------------------------------- one scancode

  /**
   * When the active terminal still echoes after a scancode, by what is on the desk before
   * it: what the key does, how full the line is, where the cursor stands and, where the
   * screen scrolls, what is in terminal 0's last cells.
   */
  ghost predicate StillEchoes(d: Desk, code: byte)
    requires d.Good()
  {
    var t := d.k.mods.active;
    var line, p := d.k.Line(t), d.c.pos[t];
    match K.EditOf(d.k.mods, code)
    case Push(ch, _) => PutEchoes(d.c, ch, t, line)
    case Pop(_) =>
      line == [] || line[|line| - 1] != NEWLINE
      || TextBefore(d.c.video, t, if p == 0 then 0 else p - 1, Tail(line[..|line| - 1]))
    case Keep =>
      if code == K.TAB then C.TabSize(p % COLUMNS) == 0 || AllAre(Tail(line), SPACE)
      else if Calls(d.k, code) != [] then Tail(line) == []
      else true
  }

  /** A newline, or a character that putc prints as it is, or none, or the key is Tab. */
  predicate IsEcho(ch: byte, code: byte) { ch == 0 || ch == NEWLINE || code == K.TAB || C.IsPlain(ch) }

  lemma {:induction false} PlainKeys(code: byte)
    ensures IsEcho(K.Plain(code), code)
  {
    if 2 <= code <= 13 { RowIsPlain("1234567890-=", code - 2); }
    if 16 <= code <= 27 { RowIsPlain("qwertyuiop[]", code - 16); }
    if 30 <= code <= 41 { RowIsPlain("asdfghjkl;'`", code - 30); }
    if 43 <= code <= 53 { RowIsPlain("\\zxcvbnm,./", code - 43); }
  }

  lemma {:induction false} ShiftedKeys(code: byte)
    ensures IsEcho(K.Shifted(code), code)
  {
    if 2 <= code <= 13 { RowIsPlain("!@#$%^&*()_+", code - 2); }
    if 16 <= code <= 27 { RowIsPlain("QWERTYUIOP{}", code - 16); }
    if 30 <= code <= 41 { RowIsPlain("ASDFGHJKL:\"~", code - 30); }
    if 43 <= code <= 53 { RowIsPlain("|ZXCVBNM<>?", code - 43); }
  }

  lemma {:induction false} KeysArePlain(n: K.Mods, code: byte)
    ensures IsEcho(K.KeyChar(n, code), code)
  {
    PlainKeys(code);
    ShiftedKeys(code);
  }

  lemma {:induction false} RowIsPlain(keys: string, i: nat)
    requires i < |keys| && forall j :: 0 <= j < |keys| ==> ' ' <= keys[j] <= '~'
    ensures C.IsPlain(K.CharOf(keys, i))
  {
    assert ' ' <= keys[i] <= '~';
  }

  /** The line of the active terminal after a scancode. */
  function LineAfter(line: seq<byte>, e: K.Edit): seq<byte> {
    match e
    case Push(ch, _) => if |line| < K.BUFFER_SIZE then line + [ch] else line
    case Pop(_) => if line == [] then [] else line[..|line| - 1]
    case Keep => line
  }

  lemma {:induction false} ActiveLine(k: K.State, code: byte)
    requires k.Shaped() && !K.Spills(k, code)
    ensures K.Handled(k, code).Line(k.mods.active) == LineAfter(k.Line(k.mods.active), K.EditOf(k.mods, code))
    ensures forall u :: 0 <= u < TERMINALS && u != k.mods.active ==> K.Handled(k, code).Line(u) == k.Line(u)
  {
    var k' := K.Handled(k, code);
    K.HandledIff(k, code);
    forall u | 0 <= u < TERMINALS
      ensures k'.Line(u) == k'.Lines()[u] && k.Line(u) == k.Lines()[u]
    {
    }
  }

  /** The console after a scancode. */
  lemma {:induction false} ConsoleAfter(d: Desk, code: byte)
    requires d.Good()
    ensures var t, c' := d.k.mods.active, Step(d, code).c;
      match K.EditOf(d.k.mods, code)
      case Push(ch, _) => IsEcho(ch, K.ESC) && ch != 0 && c' == C.Put(d.c, ch, t).(active := c'.active)
      case Pop(_) => c' == (if d.k.Line(t) == [] then d.c else C.Backspaced(d.c)).(active := c'.active)
      case Keep =>
        if code == K.TAB then c' == C.Tabbed(d.c, t).(active := c'.active)
        else if Calls(d.k, code) != [] then c' == C.ClearedState(d.c, t).(active := c'.active)
        else c' == d.c.(active := c'.active)
  {
    KeysArePlain(K.Flags(d.k.mods, code), code);
  }

  /** The active terminal. */
  lemma {:induction false} ActiveIff(d: Desk, code: byte)
    requires d.Good() && !K.Spills(d.k, code) && Echoes(d, d.k.mods.active)
    ensures Echoes(Step(d, code), d.k.mods.active) <==> StillEchoes(d, code)
  {
    var t := d.k.mods.active;
    var line := d.k.Line(t);
    ActiveLine(d.k, code);
    ConsoleAfter(d, code);
    match K.EditOf(d.k.mods, code)
    case Push(ch, _) => PutIff(d.c, ch, t, line);
    case Pop(_) =>
      if line != [] {
        PopIff(d.c, line);
      }
    case Keep =>
      if code == K.TAB {
        TabIff(d.c, t, Tail(line));
      }
  }

  lemma {:induction false} PopIff(c: C.State, line: seq<byte>)
    requires c.Shaped() && TextBefore(c.video, c.active, c.pos[c.active], Tail(line)) && line != []
    ensures var c', t, p := C.Backspaced(c), c.active, c.pos[c.active];
      var line' := line[..|line| - 1];
      TextBefore(c'.video, t, c'.pos[t], Tail(line')) <==>
        line[|line| - 1] != NEWLINE || TextBefore(c.video, t, if p == 0 then 0 else p - 1, Tail(line'))
  {
    var line' := line[..|line| - 1];
    EraseIff(c, Tail(line'));
    if line[|line| - 1] != NEWLINE {
      var text, p := Tail(line), c.pos[c.active];
      assert text == Tail(line') + [line[|line| - 1]];
      forall i | 0 <= i < |text| - 1 ensures Cell(c.video, c.active, p - 1 - (|text| - 1) + i) == Tail(line')[i] {
        assert Cell(c.video, c.active, p - |text| + i) == text[i];
      }
    }
  }

  /** A call as a console operation. */
  function OpOf(call: K.Call): C.Op {
    match call
    case Backspace(_) => C.Erase
    case Tab(t) => C.PutChar(C.TAB, t)
    case Clear(t) => C.Wipe(t)
    case Putc(ch, t) => C.PutChar(ch, t)
  }

  /** The other terminals go on echoing. */
  lemma {:induction false} OthersEcho(d: Desk, code: byte, u: nat)
    requires d.Good() && !K.Spills(d.k, code) && u < TERMINALS && u != d.k.mods.active && Echoes(d, u)
    ensures Echoes(Step(d, code), u)
  {
    var calls := Calls(d.k, code);
    ActiveLine(d.k, code);
    if calls != [] {
      OthersKept(d.c, calls[0], u);
    }
    SameText(d.c.video, AfterCalls(d.c, calls).video, u, d.c.pos[u], Tail(d.k.Line(u)));
  }

  lemma {:induction false} SameText(v: seq<byte>, v': seq<byte>, t: nat, p: nat, text: seq<byte>)
    requires |v| == |v'| == C.STRIDE * TERMINALS && t < TERMINALS && p <= CELLS && TextBefore(v, t, p, text)
    requires forall q :: 0 <= q < CELLS ==> Cell(v', t, q) == Cell(v, t, q)
    ensures TextBefore(v', t, p, text)
  {
  }

  lemma {:induction false} OthersKept(c: C.State, call: K.Call, u: nat)
    requires c.Shaped() && call.terminal == c.active && u < TERMINALS && u != c.active
    ensures Called(c, call).pos[u] == c.pos[u]
    ensures forall q :: 0 <= q < CELLS ==> Cell(Called(c, call).video, u, q) == Cell(c.video, u, q)
  {
    assert Called(c, call) == C.Step(c, OpOf(call));
    C.StepKeepsApart(c, OpOf(call));
  }

  /**
   * If every terminal echoes its line and no backspace spills, then every terminal echoes
   * after the scancode if and only if the condition above holds before it.
   */
  lemma {:induction false} EchoIff(d: Desk, code: byte)
    requires d.Good() && AllEcho(d) && !K.Spills(d.k, code)
    ensures AllEcho(Step(d, code)) <==> StillEchoes(d, code)
  {
    var t := d.k.mods.active;
    ActiveIff(d, code);
    forall u | 0 <= u < TERMINALS && u != t ensures Echoes(Step(d, code), u) {
      OthersEcho(d, code, u);
    }
  }

  // ---------------------------------------------------------------- runs

  /** Every terminal echoes after every part of the scancodes. */
  ghost predicate EchoesAlong(d: Desk, codes: seq<byte>)
    requires d.Good()
    decreases |codes|
  {
    AllEcho(d) && (codes == [] || EchoesAlong(Step(d, codes[0]), codes[1..]))
  }

  /** The condition holds before every scancode. */
  ghost predicate StillEchoesAlong(d: Desk, codes: seq<byte>)
    requires d.Good()
    decreases |codes|
  {
    codes == [] || (StillEchoes(d, codes[0]) && StillEchoesAlong(Step(d, codes[0]), codes[1..]))
  }

  /**
   * For every sequence of scancodes that does not spill: the lines are echoed all along if
   * and only if the condition holds all along.
   */
  lemma {:induction false} RunEchoIff(d: Desk, codes: seq<byte>)
    requires d.Good() && AllEcho(d) && K.NoSpill(d.k, codes)
    ensures EchoesAlong(d, codes) <==> StillEchoesAlong(d, codes)
    decreases |codes|
  {
    if codes == [] {
    } else {
      EchoIff(d, codes[0]);
      var d' := Step(d, codes[0]);
      if AllEcho(d') {
        RunEchoIff(d', codes[1..]);
      }
    }
  }

  /** A key that, under these flags, stores a printable character and changes no flag. */
  ghost predicate Types(m: K.Mods, code: byte) {
    && code != K.BACKSPACE && K.NextMods(m, code) == m
    && (K.EditOf(m, code).Push? && K.EditOf(m, code).c != NEWLINE)
  }

  /** A letter key does, unless Ctrl or a terminal switch is held. */
  lemma {:induction false} LettersType(m: K.Mods, code: byte)
    requires K.IsLetterKey(code) && !m.ctrl && !K.Switching(m)
    ensures Types(m, code)
  {
    K.LetterKeys(code);
    assert K.Flags(m, code) == m;
  }

  /** One such key, on a line and a screen with room. */
  lemma {:induction false} OneTyped(d: Desk, code: byte)
    requires d.Good() && AllEcho(d) && Types(d.k.mods, code)
    requires var t := d.k.mods.active; |d.k.Line(t)| < K.BUFFER_SIZE && d.c.pos[t] + 1 < CELLS
    ensures var d', t := Step(d, code), d.k.mods.active;
      && AllEcho(d') && d'.k.mods == d.k.mods && !K.Spills(d.k, code)
      && |d'.k.Line(t)| == |d.k.Line(t)| + 1 && d'.c.pos[t] == d.c.pos[t] + 1
  {
    ActiveLine(d.k, code);
    ConsoleAfter(d, code);
    EchoIff(d, code);
  }

  /**
   * Any such keys, as many as the line and the screen have room for: every terminal echoes
   * all along.
   */
  lemma {:induction false} TypingEchoes(d: Desk, codes: seq<byte>)
    requires d.Good() && AllEcho(d) && forall i :: 0 <= i < |codes| ==> Types(d.k.mods, codes[i])
    requires var t := d.k.mods.active; |d.k.Line(t)| + |codes| <= K.BUFFER_SIZE && d.c.pos[t] + |codes| < CELLS
    ensures EchoesAlong(d, codes)
    decreases |codes|
  {
    if codes == [] {
    } else {
      OneTyped(d, codes[0]);
      TypingEchoes(Step(d, codes[0]), codes[1..]);
    }
  }

  /** At most 128 letter keys on empty lines, none of them at the end of the screen, are echoed all along. */
  lemma {:induction false} LettersEcho(d: Desk, codes: seq<byte>)
    requires d.Good() && d.k.mods == K.START && d.k.Lines() == [[], [], []]
    requires |codes| <= K.BUFFER_SIZE && d.c.pos[0] + |codes| < CELLS
    requires forall i :: 0 <= i < |codes| ==> K.IsLetterKey(codes[i])
    ensures EchoesAlong(d, codes)
  {
    forall t | 0 <= t < TERMINALS ensures Echoes(d, t) {
      assert d.k.Line(t) == d.k.Lines()[t] == [];
    }
    forall i | 0 <= i < |codes| ensures Types(d.k.mods, codes[i]) {
      LettersType(d.k.mods, codes[i]);
    }
    TypingEchoes(d, codes);
  }

  /**
   * The key B arrives when 128 characters are held, an 'a' first behind the last newline: it
   * is echoed and not stored.
   */
  lemma {:induction false} FullLineMisleads(d: Desk, code: byte)
    requires d.Good() && AllEcho(d) && d.k.mods == K.START && d.c.pos[0] < CELLS - 1 && code == 48
    requires var line := d.k.Line(0); |line| == K.BUFFER_SIZE && Tail(line) != [] && Tail(line)[0] == 'a' as int
    ensures !AllEcho(Step(d, code)) && Step(d, code).k.Line(0) == d.k.Line(0)
  {
    assert K.CharOf("\\zxcvbnm,./", 5) == 'b' as int;
    assert K.EditOf(d.k.mods, code) == K.Push('b' as int, 0);
    EchoIff(d, code);
    ActiveLine(d.k, code);
  }

  // ---------------------------------------------------------------- Ctrl-L

  lemma {:induction false} KeyL(m: K.Mods)
    requires m.ctrl
    ensures K.EditOf(m, 38) == K.Keep && K.Flags(m, 38) == m && K.IsL(K.KeyChar(m, 38))
  {
    assert K.Plain(38) == 'l' as int && K.Shifted(38) == 'L' as int;
  }

  /**
   * The key L with Ctrl held: no cell of the active terminal holds an earlier character,
   * its cursor is home, and all other bytes, cursors and the lines stay.
   */
  lemma {:induction false} CtrlLClears(d: Desk, i: nat, p: nat)
    requires d.Good() && d.k.mods.ctrl && i < 2000 && p < 24576 && C.Outside(d.k.mods.active, p)
    ensures var t, d' := d.k.mods.active, Step(d, 38);
      && d'.c.video[8192 * t + 2 * i] == 32 && d'.c.video[8192 * t + 2 * i + 1] == 7
      && d'.c.pos == d.c.pos[t := 0] && d'.c.video[p] == d.c.video[p] && d'.k.Lines() == d.k.Lines()
  {
    var t := d.k.mods.active;
    KeyL(d.k.mods);
    assert Calls(d.k, 38) == [K.Clear(t)];
    C.WipeBytes(d.c, t, i);
    assert K.Handled(d.k, 38).cells == d.k.cells && K.Handled(d.k, 38).idx == d.k.idx;
  }
}
