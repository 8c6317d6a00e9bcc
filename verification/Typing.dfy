/**
 * What the keys do, told by the scancodes alone: which modifiers are held, which terminal is
 * active, and which character a key of the US keyboard appends to its line.
 */
module Typing {
  import opened Bytes
  import opened Keyboard

  // ---------------------------------------------------------------- held keys

  /** Scancode i is a press of the key, and no release of it follows. */
  predicate LastPress(codes: seq<byte>, key: byte, i: int) {
    0 <= i < |codes| && codes[i] == key && forall j :: i < j < |codes| ==> codes[j] as int != key + 128
  }

  lemma {:induction false} HeldIff(codes: seq<byte>, key: byte)
    requires key < 128
    ensures Held(codes, key) <==> exists i :: LastPress(codes, key, i)
    decreases |codes|
  {
    if codes == [] {
    } else {
      var n := |codes| - 1;
      var most, last := codes[..n], codes[n];
      HeldIff(most, key);
      if last == key {
        assert LastPress(codes, key, n);
      } else if last as int != key + 128 {
        forall i ensures LastPress(codes, key, i) <==> LastPress(most, key, i) {
          PressStays(codes, most, key, i);
        }
        if Held(most, key) {
          var i :| LastPress(most, key, i);
          assert LastPress(codes, key, i);
        }
      }
    }
  }

  lemma {:induction false} PressStays(codes: seq<byte>, most: seq<byte>, key: byte, i: int)
    requires codes != [] && codes[|codes| - 1] != key && codes[|codes| - 1] as int != key + 128
    requires most == codes[..|codes| - 1]
    ensures LastPress(codes, key, i) <==> LastPress(most, key, i)
  {
    assert forall j :: 0 <= j < |most| ==> codes[j] == most[j];
  }

  predicate IsShift(code: int) { code == 42 || code == 54 }

  /** Scancode i is a press of a shift key (42, 54), and no release of one follows. */
  predicate LastShift(codes: seq<byte>, i: int) {
    0 <= i < |codes| && IsShift(codes[i]) && forall j :: i < j < |codes| ==> !IsShift(codes[j] as int - 128)
  }

  lemma {:induction false} ShiftHeldIff(codes: seq<byte>)
    ensures ShiftHeld(codes) <==> exists i :: LastShift(codes, i)
    decreases |codes|
  {
    if codes == [] {
    } else {
      var n := |codes| - 1;
      var most, last := codes[..n], codes[n];
      ShiftHeldIff(most);
      if IsShift(last) {
        assert LastShift(codes, n);
      } else if !IsShift(last as int - 128) {
        forall i ensures LastShift(codes, i) <==> LastShift(most, i) {
          ShiftStays(codes, most, i);
        }
        if ShiftHeld(most) {
          var i :| LastShift(most, i);
          assert LastShift(codes, i);
        }
      }
    }
  }

  lemma {:induction false} ShiftStays(codes: seq<byte>, most: seq<byte>, i: int)
    requires codes != [] && !IsShift(codes[|codes| - 1]) && !IsShift(codes[|codes| - 1] as int - 128)
    requires most == codes[..|codes| - 1]
    ensures LastShift(codes, i) <==> LastShift(most, i)
  {
    assert forall j :: 0 <= j < |most| ==> codes[j] == most[j];
  }

  // ---------------------------------------------------------------- the active terminal

  /** Alt (56) is held with F1, F2 or F3 (59, 60, 61). */
  predicate AltWith(codes: seq<byte>, key: byte) { Held(codes, 56) && Held(codes, key) }

  /** The terminal that the scancodes have made active, 0 at first. */
  function ActiveAfter(codes: seq<byte>): (t: nat)
    ensures t < 3
    decreases |codes|
  {
    if codes == [] then 0
    else if AltWith(codes, 59) then 0
    else if AltWith(codes, 60) then 1
    else if AltWith(codes, 61) then 2
    else ActiveAfter(codes[..|codes| - 1])
  }

  /** After every scancode the active terminal is that of Alt and a function key, or stays. */
  lemma {:induction false} ActiveIs(s: State, codes: seq<byte>)
    requires s.Shaped() && s.mods == START
    ensures Run(s, codes).mods.active == ActiveAfter(codes)
    decreases |codes|
  {
    if codes == [] {
    } else {
      var most, last := codes[..|codes| - 1], codes[|codes| - 1];
      assert codes == most + [last];
      ActiveIs(s, most);
      RunLast(s, most, last);
      FlagsAre(s, codes);
    }
  }

  /** The flags of the driver, by the scancodes of their keys. */
  lemma {:induction false} FlagsByCode(s: State, codes: seq<byte>)
    requires s.Shaped() && s.mods == START
    ensures var m := Run(s, codes).mods;
      && m.ctrl == Held(codes, 29) && m.alt == Held(codes, 56) && m.f1 == Held(codes, 59) && m.f2 == Held(codes, 60)
      && m.f3 == Held(codes, 61) && m.shift == ShiftHeld(codes) && m.caps == (multiset(codes)[58] % 2 == 1)
  {
    FlagsAre(s, codes);
    CapsCounted(codes);
  }

  lemma {:induction false} CapsCounted(codes: seq<byte>)
    ensures CapsPresses(codes) == multiset(codes)[58]
    decreases |codes|
  {
    if codes == [] {
    } else {
      CapsCounted(codes[..|codes| - 1]);
      assert codes == codes[..|codes| - 1] + [codes[|codes| - 1]];
    }
  }

  /** Enter (28) has been noted if it was pressed. */
  lemma {:induction false} EnterNoted(s: State, codes: seq<byte>)
    requires s.Shaped()
    ensures Run(s, codes).enter <==> s.enter || 28 in codes
    decreases |codes|
  {
    if codes == [] {
    } else {
      EnterNoted(Handled(s, codes[0]), codes[1..]);
      assert 28 in codes <==> codes[0] == 28 || 28 in codes[1..];
    }
  }

  // ---------------------------------------------------------------- the characters

  /** The key of a character on the US keyboard; 0 if there is none. */
  function KeyOf(c: char): nat {
    match c
    case '1' | '!' => 2
    case '2' | '@' => 3
    case '3' | '#' => 4
    case '4' | '$' => 5
    case '5' | '%' => 6
    case '6' | '^' => 7
    case '7' | '&' => 8
    case '8' | '*' => 9
    case '9' | '(' => 10
    case '0' | ')' => 11
    case '-' | '_' => 12
    case '=' | '+' => 13
    case 'q' | 'Q' => 16
    case 'w' | 'W' => 17
    case 'e' | 'E' => 18
    case 'r' | 'R' => 19
    case 't' | 'T' => 20
    case 'y' | 'Y' => 21
    case 'u' | 'U' => 22
    case 'i' | 'I' => 23
    case 'o' | 'O' => 24
    case 'p' | 'P' => 25
    case '[' | '{' => 26
    case ']' | '}' => 27
    case 'a' | 'A' => 30
    case 's' | 'S' => 31
    case 'd' | 'D' => 32
    case 'f' | 'F' => 33
    case 'g' | 'G' => 34
    case 'h' | 'H' => 35
    case 'j' | 'J' => 36
    case 'k' | 'K' => 37
    case 'l' | 'L' => 38
    case ';' | ':' => 39
    case '\'' | '\"' => 40
    case '`' | '~' => 41
    case '\\' | '|' => 43
    case 'z' | 'Z' => 44
    case 'x' | 'X' => 45
    case 'c' | 'C' => 46
    case 'v' | 'V' => 47
    case 'b' | 'B' => 48
    case 'n' | 'N' => 49
    case 'm' | 'M' => 50
    case ',' | '<' => 51
    case '.' | '>' => 52
    case '/' | '?' => 53
    case ' ' => 57
    case '\n' => 28
    case _ => 0
  }

  predicate IsUpper(c: char) { 'A' <= c <= 'Z' }

  predicate IsLetter(c: char) { IsUpper(c) || 'a' <= c <= 'z' }

  /** The upper characters of the keys. */
  predicate NeedsShift(c: char) {
    match c
    case '!' | '@' | '#' | '$' | '%' | '^' | '&' | '*' | '(' | ')' | '_' | '+' => true
    case '{' | '}' | ':' | '\"' | '~' | '|' | '<' | '>' | '?' => true
    case _ => IsUpper(c)
  }

  /** With shift held or not, and caps lock pressed an odd number of times or not, a key gives this character. */
  predicate Wanted(c: char, shift: bool, caps: bool) {
    if IsLetter(c) then (shift != caps) == IsUpper(c)
    else c == ' ' || c == '\n' || shift == NeedsShift(c)
  }

  /** Every printable 7-bit character has its key, and so has the newline. */
  lemma {:induction false} AllHaveKeys(c: char)
    ensures KeyOf(c) != 0 <==> ' ' <= c <= '~' || c == '\n'
  {
    if c < 'A' {
      SignsHaveKeys(c);
    } else if c < 'a' {
      UppersHaveKeys(c);
    } else {
      LowersHaveKeys(c);
    }
  }

  lemma {:induction false} SignsHaveKeys(c: char)
    requires c < 'A'
    ensures KeyOf(c) != 0 <==> ' ' <= c || c == '\n'
  {
  }

  lemma {:induction false} UppersHaveKeys(c: char)
    requires 'A' <= c < 'a'
    ensures KeyOf(c) != 0
  {
  }

  lemma {:induction false} LowersHaveKeys(c: char)
    requires 'a' <= c
    ensures KeyOf(c) != 0 <==> c <= '~'
  {
  }

  /** The tables hold this character at the key: as it is, or with shift. */
  ghost predicate AtKey(c: char, k: nat) {
    && 2 <= k <= 57 && k != 14 && k != 15 && k != 29 && k != 42 && k != 54 && k != 55 && k != 56
    && (IsLetter(c) <==> IsLetterKey(k))
    && (NeedsShift(c) ==> Shifted(k) as int == c as int)
    && (!NeedsShift(c) ==> Plain(k) as int == c as int)
    && (c == ' ' || c == '\n' ==> Shifted(k) as int == c as int)
  }

  lemma {:induction false} DigitKeys(c: char)
    requires 2 <= KeyOf(c) <= 13
    ensures AtKey(c, KeyOf(c))
  {
  }

  lemma {:induction false} TopKeys(c: char)
    requires 16 <= KeyOf(c) <= 27
    ensures AtKey(c, KeyOf(c))
  {
  }

  lemma {:induction false} HomeKeys(c: char)
    requires 28 <= KeyOf(c) <= 41
    ensures AtKey(c, KeyOf(c))
  {
  }

  lemma {:induction false} BottomKeys(c: char)
    requires 43 <= KeyOf(c) <= 57
    ensures AtKey(c, KeyOf(c))
  {
  }

  lemma {:induction false} KeysAre(c: char)
    requires KeyOf(c) != 0
    ensures AtKey(c, KeyOf(c))
  {
    var k := KeyOf(c);
    if k <= 13 {
      DigitKeys(c);
    } else if k <= 27 {
      TopKeys(c);
    } else if k <= 41 {
      HomeKeys(c);
    } else {
      BottomKeys(c);
    }
  }

  // ---------------------------------------------------------------- one key

  lemma {:induction false} KeyEdit(m: Mods, c: char)
    requires KeyOf(c) != 0 && Wanted(c, m.shift, m.caps)
    ensures KeyOf(c) < 128 && c as int < 256 && Flags(m, KeyOf(c)) == m
    ensures EditOf(m, KeyOf(c)) == if m.ctrl || Switching(m) then Keep else Push(c as int, m.active)
  {
    KeysAre(c);
    EditAtKey(m, c, KeyOf(c));
  }

  lemma {:induction false} EditAtKey(m: Mods, c: char, k: nat)
    requires AtKey(c, k) && Wanted(c, m.shift, m.caps) && c as int != 0
    ensures c as int < 256 && Flags(m, k) == m
    ensures EditOf(m, k) == if m.ctrl || Switching(m) then Keep else Push(c as int, m.active)
  {
    LetterKeys(k);
  }

  /** Ctrl (29) is held, or Alt with a function key, so that nothing is typed. */
  predicate NothingTyped(codes: seq<byte>) {
    Held(codes, 29) || AltWith(codes, 59) || AltWith(codes, 60) || AltWith(codes, 61)
  }

  /**
   * After any scancodes, the key of a character that shift and caps lock ask for appends it
   * to the line of the active terminal, unless 128 characters are held, and no other line
   * changes; with Ctrl or a terminal switch held, no line changes.
   */
  lemma {:induction false} KeyTypes(s: State, codes: seq<byte>, c: char)
    requires s.Shaped() && s.mods == START && KeyOf(c) != 0
    requires Wanted(c, ShiftHeld(codes), multiset(codes)[58] % 2 == 1)
    ensures KeyOf(c) < 128 && c as int < 256
    ensures var s1, t := Run(s, codes), ActiveAfter(codes);
      Handled(s1, KeyOf(c)).Lines() ==
        if NothingTyped(codes) || |s1.Lines()[t]| == 128 then s1.Lines()
        else s1.Lines()[t := s1.Lines()[t] + [c as int]]
  {
    var s1 := Run(s, codes);
    FlagsByCode(s, codes);
    ActiveIs(s, codes);
    KeyEdit(s1.mods, c);
    HandledIff(s1, KeyOf(c));
  }

  /** Keys without a character of their own: Esc, Tab, the modifiers, the function keys, and every release. */
  predicate IsSilent(code: byte) {
    code >= 128 || code <= 1 || code == 15 || code == 29 || code == 42 || code == 54 || code == 56
    || 58 <= code <= 73 || 75 <= code <= 77 || 79 <= code
  }

  lemma {:induction false} SilentKey(s: State, code: byte)
    requires s.Shaped() && IsSilent(code)
    ensures Handled(s, code).Lines() == s.Lines()
  {
    HandledIff(s, code);
  }

  /** The keypad's signs, with and without shift. */
  lemma {:induction false} KeypadTypes(s: State, codes: seq<byte>, code: byte)
    requires s.Shaped() && s.mods == START && (code == 55 || code == 74 || code == 78)
    ensures var s1, t := Run(s, codes), ActiveAfter(codes);
      var c := if code == 55 then '*' else if code == 74 then '-' else '+';
      Handled(s1, code).Lines() ==
        if NothingTyped(codes) || |s1.Lines()[t]| == 128 then s1.Lines()
        else s1.Lines()[t := s1.Lines()[t] + [c as int]]
  {
    var s1 := Run(s, codes);
    FlagsByCode(s, codes);
    ActiveIs(s, codes);
    HandledIff(s1, code);
  }

  /** Backspace (14) takes the last character of the active line, if fewer than 128 are held. */
  lemma {:induction false} BackspaceTakes(s: State, codes: seq<byte>)
    requires s.Shaped() && s.mods == START
    ensures var s1, t := Run(s, codes), ActiveAfter(codes);
      var line := s1.Lines()[t];
      |line| < 128 ==> Handled(s1, 14).Lines() == s1.Lines()[t := if line == [] then [] else line[..|line| - 1]]
  {
    ActiveIs(s, codes);
    HandledIff(Run(s, codes), 14);
  }

  // ---------------------------------------------------------------- typing a text

  /** Press and release the key of a character, with shift (42) if it needs it. */
  function Strokes(c: char): seq<byte>
    requires KeyOf(c) != 0
  {
    KeysAre(c);
    var k: byte := KeyOf(c);
    if NeedsShift(c) then [42, k, k + 128, 170] else [k, k + 128]
  }

  predicate HasKeys(text: string) { forall i :: 0 <= i < |text| ==> KeyOf(text[i]) != 0 }

  function Typed(text: string): seq<byte>
    requires HasKeys(text)
  {
    if text == [] then [] else Typed(text[..|text| - 1]) + Strokes(text[|text| - 1])
  }

  /** No modifier is on. */
  predicate Bare(m: Mods) { !m.shift && !m.caps && !m.ctrl && !m.alt }

  lemma {:induction false} Released(s: State, code: byte)
    requires s.Shaped() && code >= 128
    ensures Handled(s, code).Lines() == s.Lines() && Handled(s, code).mods == NextMods(s.mods, code)
  {
    SilentKey(s, code);
  }

  lemma {:induction false} Pressed(s: State, c: char)
    requires s.Shaped() && KeyOf(c) != 0 && Wanted(c, s.mods.shift, s.mods.caps) && !s.mods.ctrl && !s.mods.alt
    requires |s.Lines()[s.mods.active]| < 128
    ensures KeyOf(c) < 128 && c as int < 256
    ensures var s', t := Handled(s, KeyOf(c)), s.mods.active;
      s'.mods == s.mods && s'.Lines() == s.Lines()[t := s.Lines()[t] + [c as int]]
  {
    KeyEdit(s.mods, c);
    HandledIff(s, KeyOf(c));
  }

  /** The line of the active terminal has gained this character, and nothing else has changed. */
  ghost predicate GainedOne(s: State, s': State, c: char)
    requires s.Shaped() && s'.Shaped()
  {
    var t := s.mods.active;
    s'.mods == s.mods && c as int < 256 && s'.Lines() == s.Lines()[t := s.Lines()[t] + [c as int]]
  }

  /** A key pressed and released. */
  lemma {:induction false} PlainStroke(s: State, c: char, k: byte)
    requires s.Shaped() && KeyOf(c) == k && AtKey(c, k) && Wanted(c, s.mods.shift, s.mods.caps)
    requires !s.mods.ctrl && !s.mods.alt && |s.Lines()[s.mods.active]| < 128
    ensures k < 128 && GainedOne(s, Handled(Handled(s, k), k + 128), c)
  {
    Pressed(s, c);
    Released(Handled(s, k), k + 128);
  }

  /** The same between a press and a release of shift. */
  lemma {:induction false} ShiftStroke(s: State, c: char, k: byte)
    requires s.Shaped() && KeyOf(c) == k && AtKey(c, k) && NeedsShift(c) && Bare(s.mods)
    requires |s.Lines()[s.mods.active]| < 128
    ensures k < 128 && GainedOne(s, Handled(Handled(Handled(Handled(s, 42), k), k + 128), 170), c)
  {
    var s0 := Handled(s, 42);
    SilentKey(s, 42);
    assert s0.mods == s.mods.(shift := true);
    PlainStroke(s0, c, k);
    Released(Handled(Handled(s0, k), k + 128), 170);
  }

  lemma {:induction false} StrokesType(s: State, c: char)
    requires s.Shaped() && KeyOf(c) != 0 && Bare(s.mods) && |s.Lines()[s.mods.active]| < 128
    ensures GainedOne(s, Run(s, Strokes(c)), c)
  {
    KeysAre(c);
    var k: byte := KeyOf(c);
    if NeedsShift(c) {
      ShiftStroke(s, c, k);
      RunFour(s, 42, k, k + 128, 170);
    } else {
      PlainStroke(s, c, k);
      RunTwo(s, k, k + 128);
    }
  }

  lemma {:induction false} RunOne(s: State, a: byte)
    requires s.Shaped()
    ensures Run(s, [a]) == Handled(s, a)
  {
    assert [a][1..] == [];
  }

  lemma {:induction false} RunTwo(s: State, a: byte, b: byte)
    requires s.Shaped()
    ensures Run(s, [a, b]) == Handled(Handled(s, a), b)
  {
    assert [a, b][1..] == [b];
    RunOne(Handled(s, a), b);
  }

  lemma {:induction false} RunFour(s: State, a: byte, b: byte, c: byte, d: byte)
    requires s.Shaped()
    ensures Run(s, [a, b, c, d]) == Handled(Handled(Handled(Handled(s, a), b), c), d)
  {
    assert [a, b, c, d][1..] == [b, c, d] && [b, c, d][1..] == [c, d];
    RunTwo(Handled(Handled(s, a), b), c, d);
  }

  lemma {:induction false} RunJoin(s: State, a: seq<byte>, b: seq<byte>)
    requires s.Shaped()
    ensures Run(s, a + b) == Run(Run(s, a), b)
    decreases |a|
  {
    if a == [] {
      assert a + b == b;
    } else {
      assert (a + b)[1..] == a[1..] + b;
      RunJoin(Handled(s, a[0]), a[1..], b);
    }
  }

  /** The codes of a text. */
  function CodesOf(text: string): (codes: seq<int>)
    ensures |codes| == |text| && forall i :: 0 <= i < |text| ==> codes[i] == text[i] as int
  {
    seq(|text|, i requires 0 <= i < |text| => text[i] as int)
  }

  /** The lines after this text has been appended to line t. */
  ghost predicate Gained(s: State, s': State, t: nat, text: string)
    requires s.Shaped() && s'.Shaped() && t < 3
  {
    && s'.mods == s.mods && s'.Lines()[t] == s.Lines()[t] + CodesOf(text)
    && forall u :: 0 <= u < 3 && u != t ==> s'.Lines()[u] == s.Lines()[u]
  }

  lemma {:induction false} GainedMore(s: State, s1: State, s2: State, t: nat, text: string, c: char)
    requires s.Shaped() && s1.Shaped() && s2.Shaped() && t == s.mods.active && Gained(s, s1, t, text)
    requires GainedOne(s1, s2, c)
    ensures Gained(s, s2, t, text + [c])
  {
    assert CodesOf(text + [c]) == CodesOf(text) + [c as int];
  }

  lemma {:induction false} OneMoreTyped(s: State, s1: State, text: string, c: char)
    requires s.Shaped() && s1.Shaped() && Gained(s, s1, s.mods.active, text) && Bare(s.mods) && KeyOf(c) != 0
    requires |s.Lines()[s.mods.active]| + |text| < 128
    ensures Gained(s, Run(s1, Strokes(c)), s.mods.active, text + [c])
  {
    StrokesType(s1, c);
    GainedMore(s, s1, Run(s1, Strokes(c)), s.mods.active, text, c);
  }

  lemma {:induction false} NothingGained(s: State, text: string)
    requires s.Shaped() && text == []
    ensures Gained(s, s, s.mods.active, text)
  {
    assert s.Lines()[s.mods.active] + CodesOf(text) == s.Lines()[s.mods.active];
  }

  /**
   * Any text of printable characters and newlines, typed with the keys of the US keyboard
   * and no modifier but shift, is what the line of the active terminal gains, as long as
   * it fits; no other line changes, and at the end no key is held that was not before.
   */
  lemma {:induction false} TextIsTyped(s: State, text: string)
    requires s.Shaped() && Bare(s.mods) && HasKeys(text) && |s.Lines()[s.mods.active]| + |text| <= 128
    ensures Gained(s, Run(s, Typed(text)), s.mods.active, text)
    decreases |text|
  {
    if text == [] {
      NothingGained(s, text);
    } else {
      var most, c := text[..|text| - 1], text[|text| - 1];
      assert text == most + [c];
      TextIsTyped(s, most);
      RunJoin(s, Typed(most), Strokes(c));
      OneMoreTyped(s, Run(s, Typed(most)), most, c);
    }
  }
}
