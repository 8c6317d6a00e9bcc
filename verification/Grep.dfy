/**
 * The streaming line search of syscalls/ece391grep.c: a sliding buffer of 1024
 * bytes, refilled by read, whose unfinished last line is carried to the front.
 */
module Grep {
  import opened Bytes

  const BUFSIZE: nat := 1024

  // ---------------------------------------------------------------- reference

  /** The pattern occurs somewhere in the line. */
  ghost predicate Occurs(pat: seq<byte>, line: seq<byte>) {
    exists i :: OccursAt(pat, line, i)
  }

  ghost predicate OccursAt(pat: seq<byte>, line: seq<byte>, i: int) {
    0 <= i && i + |pat| <= |line| && line[i..i + |pat|] == pat
  }

  /** The distance to the first newline, or to the end, but never more than limit. */
  function Cut(t: seq<byte>, limit: nat): (e: nat)
    ensures e <= |t| && e <= limit
    ensures forall k :: 0 <= k < e ==> t[k] != NEWLINE
    ensures e < |t| && e < limit ==> t[e] == NEWLINE
  {
    if t == [] || limit == 0 || t[0] == NEWLINE then 0 else 1 + Cut(t[1..], limit - 1)
  }

  /** The lines of a text: it is cut at every newline. */
  function Lines(t: seq<byte>): seq<seq<byte>> {
    if t == [] then []
    else
      var e := Cut(t, |t|);
      if e == |t| then [t] else [t[..e]] + Lines(t[e + 1..])
  }

  /** What a buffer of BUFSIZE bytes can see: the text is cut at newlines and after BUFSIZE bytes without one. */
  function Pieces(t: seq<byte>): seq<seq<byte>> {
    if t == [] then []
    else
      var e := Cut(t, BUFSIZE);
      if e == |t| then [t]
      else if t[e] == NEWLINE && e < BUFSIZE then [t[..e]] + Pieces(t[e + 1..])
      else [t[..e]] + Pieces(t[e..])
  }

  /**
   * What the buffer can see if the byte behind it holds a newline from before: the first
   * full buffer that does not end in a newline is cut there.
   */
  function StalePieces(t: seq<byte>): seq<seq<byte>> {
    if |t| < BUFSIZE then Pieces(t)
    else if t[BUFSIZE - 1] == NEWLINE then Pieces(t[..BUFSIZE]) + StalePieces(t[BUFSIZE..])
    else Pieces(t[..BUFSIZE]) + Pieces(t[BUFSIZE..])
  }

  /** What the search sees of a file, by the byte behind the buffer at the start. */
  function Seen(t: seq<byte>, stale: bool): seq<seq<byte>> { if stale then StalePieces(t) else Pieces(t) }

  /** The lines, in order, in which the pattern occurs. */
  ghost function Matching(pat: seq<byte>, lines: seq<seq<byte>>): seq<seq<byte>> {
    if lines == [] then []
    else (if Occurs(pat, lines[0]) then [lines[0]] else []) + Matching(pat, lines[1..])
  }

  /** Where a C string that starts with these bytes ends: at the first NUL, or behind them. */
  function FirstNul(line: seq<byte>): (n: nat)
    ensures n <= |line| && (forall k :: 0 <= k < n ==> line[k] != NUL) && (n < |line| ==> line[n] == NUL)
  {
    if line == [] || line[0] == NUL then 0 else 1 + FirstNul(line[1..])
  }

  /** What grep writes for a list of lines. */
  function Report(fname: seq<byte>, lines: seq<seq<byte>>): seq<byte> {
    if lines == [] then []
    else LineReport(fname, lines[0]) + Report(fname, lines[1..])
  }

  /** A char of the pattern, promoted to int: char is signed. */
  function SignedChar(c: byte): int {
    if c < 128 then c else c as int - 256
  }

  /** A pattern the search can find at all: the source compares its first character as a signed char. */
  predicate Searchable(pat: seq<byte>) {
    pat != [] && pat[0] < 128
  }

  /** The search takes a line: the pattern can be searched and occurs, or is empty and the line holds a NUL. */
  ghost predicate Finds(pat: seq<byte>, line: seq<byte>) {
    if pat == [] then NUL in line else Searchable(pat) && Occurs(pat, line)
  }

  /** The line itself, if the search takes it. */
  ghost function Hit(pat: seq<byte>, line: seq<byte>): seq<seq<byte>> {
    if Finds(pat, line) then [line] else []
  }

  /** The lines that the search selects. */
  ghost function Selected(pat: seq<byte>, lines: seq<seq<byte>>): seq<seq<byte>> {
    if lines == [] then [] else Hit(pat, lines[0]) + Selected(pat, lines[1..])
  }

  // ---------------------------------------------------------------- what is carried over

  /** Where the line that holds position n starts. */
  function LineStart(t: seq<byte>, n: nat): (i: nat)
    requires n <= |t|
    ensures i <= n && (i == 0 || t[i - 1] == NEWLINE) && NEWLINE !in t[i..n]
  {
    if n == 0 || t[n - 1] == NEWLINE then n
    else
      var i := LineStart(t, n - 1);
      assert t[i..n] == t[i..n - 1] + [t[n - 1]];
      i
  }

  lemma {:induction false} LineStartIs(b: seq<byte>, n: nat, i: nat)
    requires i <= n <= |b| && (i == 0 || b[i - 1] == NEWLINE) && NEWLINE !in b[i..n]
    ensures LineStart(b, n) == i
  {
    var j := LineStart(b, n);
    assert forall k :: i <= k < n ==> b[k] == b[i..n][k - i];
    assert forall k :: j <= k < n ==> b[k] == b[j..n][k - j];
  }

  /** What a buffer holds of a text. */
  function Block(t: seq<byte>): seq<byte> { Clip(t, BUFSIZE) }

  /** The newline behind a line that was searched is a NUL. */
  function Cleared(c: byte): byte { if c == NEWLINE then NUL else c }

  /**
   * Where the unfinished line of a buffer starts, which is carried over; its end if there
   * is none. A line that is alone in the buffer, or has a newline behind it, is not.
   */
  function CarryStart(b: seq<byte>, closed: bool): (i: nat)
    ensures i <= |b| && (b != [] ==> i > 0) && (closed ==> i == |b|)
  {
    var i := LineStart(b, |b|);
    if i == 0 || closed then |b| else i
  }

  /**
   * What the carry makes of an unfinished line that starts at i: strcpy stops at the first
   * NUL, and the bytes behind it are those that the front of the buffer held.
   */
  function Kept(b: seq<byte>, i: nat): (kept: seq<byte>)
    requires i <= |b|
    ensures |kept| == |b| - i
  {
    var line := b[i..];
    seq(|line|, k requires 0 <= k < |line| => if k <= FirstNul(line) then line[k] else Cleared(b[k]))
  }

  /** There is still a newline behind the buffer after b was searched. */
  predicate StaysStale(b: seq<byte>, stale: bool) { stale && (|b| < BUFSIZE || b[|b| - 1] == NEWLINE) }

  /**
   * What the search sees of a text, held in the buffer or not yet read: buffer by buffer,
   * the complete lines and what is carried over. The byte behind a full buffer is a newline
   * if stale, the one behind a last buffer that is not full if closed.
   */
  function Viewed(t: seq<byte>, stale: bool, closed: bool): seq<seq<byte>>
    decreases |t|
  {
    if t == [] then []
    else
      var b := Block(t);
      var i := CarryStart(b, if |b| == BUFSIZE then stale else closed);
      Pieces(b[..i]) + Viewed(Kept(b, i) + t[|b|..], StaysStale(b, stale), false)
  }

  predicate KeptWhole(b: seq<byte>, i: nat)
    requires i <= |b|
  {
    Kept(b, i) == b[i..]
  }

  /** Every unfinished line of a text that is carried over stays as it is. */
  predicate Intact(t: seq<byte>, stale: bool, closed: bool)
    decreases |t|
  {
    t == []
    || (var b := Block(t);
        var i := CarryStart(b, if |b| == BUFSIZE then stale else closed);
        KeptWhole(b, i) && Intact(t[i..], StaysStale(b, stale), false))
  }

  /** So it is with every file without NULs. */
  lemma {:induction false} NoNulIsIntact(t: seq<byte>, stale: bool, closed: bool)
    requires NUL !in t
    ensures Intact(t, stale, closed)
    decreases |t|
  {
    if t == [] {
    } else {
      var b := Block(t);
      var i := CarryStart(b, if |b| == BUFSIZE then stale else closed);
      KeptIsLine(b, i);
      NoNulIsIntact(t[i..], StaysStale(b, stale), false);
    }
  }

  /** A line is carried over as it is if it holds no NUL. */
  lemma {:induction false} KeptIsLine(b: seq<byte>, i: nat)
    requires i <= |b| && NUL !in b[i..]
    ensures KeptWhole(b, i)
  {
    NoNul(b[i..]);
  }

  // ---------------------------------------------------------------- the program

  /** An open regular file; a read is full until the end of the file, or fails. */
  class OpenFile {
    const file: seq<byte>
    var position: nat
    /** A read has failed. */
    var failed: bool

    constructor (file: seq<byte>)
      ensures this.file == file && position == 0 && !failed
    {
      this.file := file;
      position, failed := 0, false;
    }

    method Read(buf: array<byte>, at: nat, nbytes: nat) returns (cnt: int)
      requires position <= |file| && at + nbytes <= buf.Length
      modifies this, buf
      ensures position <= |file| && failed == (old(failed) || cnt == -1)
      ensures cnt == -1 ==> position == old(position) && buf[..] == old(buf[..])
      ensures cnt != -1 ==>
        && cnt == (if nbytes <= |file| - old(position) then nbytes else |file| - old(position))
        && position == old(position) + cnt
        && buf[..] == old(buf[..at]) + file[old(position)..position] + old(buf[at + cnt..])
    {
      if * {
        failed := true;
        return -1;
      }
      cnt := if nbytes <= |file| - position then nbytes else |file| - position;
      var start := position;
      for i := 0 to cnt
        invariant position == start && start + cnt <= |file| && failed == old(failed)
        invariant forall k :: at <= k < at + i ==> buf[k] == file[start + (k - at)]
        invariant forall k :: 0 <= k < buf.Length && !(at <= k < at + i) ==> buf[k] == old(buf[k])
      {
        buf[at + i] := file[start + i];
      }
      position := position + cnt;
    }
  }

  /** Descriptor 1. */
  class Output {
    var text: seq<byte>

    constructor ()
      ensures text == []
    {
      text := [];
    }

    /** ece391_fdputs of the C string at index p of a buffer. */
    method Puts(a: array<byte>, p: nat, ghost q: nat)
      requires EndsAt(a[..], p, q)
      modifies this
      ensures text == old(text) + a[p..q]
    {
      var len := StrLen(a, p, q);
      text := text + a[p..p + len];
    }
  }

  /** The scan for the end of the line that starts at from. */
  method LineEnd(data: array<byte>, from: nat, last: nat) returns (lineEnd: nat)
    requires from <= last < data.Length
    ensures from <= lineEnd <= last
    ensures forall k :: from <= k < lineEnd ==> data[k] != NEWLINE
    ensures lineEnd < last ==> data[lineEnd] == NEWLINE
  {
    lineEnd := from;
    while lineEnd < last && data[lineEnd] != NEWLINE
      invariant from <= lineEnd <= last
      invariant forall k :: from <= k < lineEnd ==> data[k] != NEWLINE
    {
      lineEnd := lineEnd + 1;
    }
  }

  /** The search loop over one terminated line, which may hold NULs of its own. */
  method SearchLine(pat: seq<byte>, data: array<byte>, lineStart: nat, lineEnd: nat) returns (found: bool)
    requires NUL !in pat
    requires lineStart <= lineEnd < data.Length && data[lineEnd] == NUL
    ensures found <==> Finds(pat, data[lineStart..lineEnd])
  {
    var s := pat + [NUL];
    ghost var line := data[lineStart..lineEnd];
    assert EndsAt(s, 0, |pat|);
    var check := lineStart;
    while check < lineEnd
      invariant lineStart <= check <= lineEnd
      invariant Searchable(pat) ==> forall i :: 0 <= i < check - lineStart ==> !OccursAt(pat, line, i)
      invariant pat == [] ==> forall i :: 0 <= i < check - lineStart ==> line[i] != NUL
    {
      assert line[check - lineStart] == data[check] && line[check - lineStart..] == data[check..lineEnd];
      if SignedChar(s[0]) == data[check] {
        var hit := CompareAt(pat, s, data, check, lineEnd, line, check - lineStart);
        if hit {
          return true;
        }
      } else {
        OccurrenceStarts(pat, line, check - lineStart);
      }
      check := check + 1;
    }
    found := false;
    assert Searchable(pat) ==> forall i :: OccursAt(pat, line, i) ==> 0 <= i < |line|;
  }

  /** strncmp of the string at check with the pattern. */
  method CompareAt(pat: seq<byte>, s: seq<byte>, data: array<byte>, check: nat, lineEnd: nat, ghost line: seq<byte>,
                   ghost i: nat)
    returns (hit: bool)
    requires NUL !in pat && s == pat + [NUL] && check <= lineEnd < data.Length && data[lineEnd] == NUL
    requires i <= |line| && line[i..] == data[check..lineEnd]
    ensures hit <==> OccursAt(pat, line, i)
  {
    ghost var rest := data[check..lineEnd];
    ghost var z := check + FirstNul(rest);
    StringEnds(data[..], check, lineEnd, z);
    assert EndsAt(s, 0, |pat|);
    var r := StrNCmp(data, check, z, s, |pat|, |pat|);
    HitIsOccurrence(pat, line, i);
    assert data[check..z] == rest[..FirstNul(rest)] && s[..|pat|] == pat;
    hit := r == 0;
  }

  lemma {:induction false} StringEnds(m: seq<byte>, p: nat, q: nat, z: nat)
    requires p <= q < |m| && m[q] == NUL && z == p + FirstNul(m[p..q])
    ensures EndsAt(m, p, z)
  {
    var part := m[p..q];
    assert forall k :: p <= k < q ==> m[k] == part[k - p];
  }

  lemma {:induction false} OccurrenceStarts(pat: seq<byte>, line: seq<byte>, i: nat)
    ensures OccursAt(pat, line, i) && pat != [] ==> line[i] == pat[0]
  {
    if OccursAt(pat, line, i) && pat != [] {
      assert line[i..i + |pat|][0] == line[i];
    }
  }

  /** The comparison of the string at i, which ends at a NUL of the line or behind it, with the pattern. */
  lemma {:induction false} HitIsOccurrence(pat: seq<byte>, line: seq<byte>, i: nat)
    requires i <= |line| && NUL !in pat
    ensures var rest := line[i..];
      Clip(rest[..FirstNul(rest)], |pat|) == Clip(pat, |pat|) <==> OccursAt(pat, line, i)
  {
    var rest := line[i..];
    var n, m := FirstNul(rest), |pat|;
    assert Clip(pat, m) == pat;
    if m <= n {
      assert rest[..n][..m] == rest[..m] == line[i..i + m];
    } else if m <= |rest| {
      assert line[i..i + m][n] == rest[n] == NUL;
      assert pat[n] != NUL;
    }
  }

  /** The lines still to be selected when text is what the buffer and the file still hold. */
  ghost function ToCome(pat: seq<byte>, text: seq<byte>): seq<seq<byte>> {
    Selected(pat, Pieces(text))
  }

  lemma {:induction false} CutIs(t: seq<byte>, limit: nat, e: nat)
    requires e <= |t| && e <= limit
    requires forall k :: 0 <= k < e ==> t[k] != NEWLINE
    requires e < |t| && e < limit ==> t[e] == NEWLINE
    ensures Cut(t, limit) == e
  {
  }

  /** The first piece of a text ends at its newline, at its end, or after BUFSIZE bytes. */
  lemma {:induction false} NextPiece(pat: seq<byte>, t: seq<byte>, e: nat)
    requires e <= |t| && e <= BUFSIZE && NEWLINE !in t[..e]
    requires e == |t| || e == BUFSIZE || t[e] == NEWLINE
    ensures ToCome(pat, t)
      == Hit(pat, t[..e])
       + ToCome(pat, t[if e < |t| && e < BUFSIZE then e + 1 else e..])
  {
    if t == [] {
      assert !Finds(pat, t);
    } else {
      assert forall k :: 0 <= k < e ==> t[k] == t[..e][k];
      CutIs(t, BUFSIZE, e);
      var line := t[..e];
      if e == |t| {
        assert t[e..] == [] && line == t;
        assert Pieces(t) == [line] && Pieces(t)[1..] == Pieces([]);
      } else {
        var rest := Pieces(t[if e < BUFSIZE then e + 1 else e..]);
        assert Pieces(t) == [line] + rest;
        assert Pieces(t)[1..] == rest;
      }
    }
  }

  lemma {:induction false} ReportAppend(fname: seq<byte>, lines: seq<seq<byte>>, line: seq<byte>)
    ensures Report(fname, lines + [line]) == Report(fname, lines) + LineReport(fname, line)
    decreases |lines|
  {
    if lines == [] {
      OneReport(fname, line);
    } else {
      ReportAppend(fname, lines[1..], line);
      assert (lines + [line])[1..] == lines[1..] + [line];
      BytesJoin(LineReport(fname, lines[0]), Report(fname, lines[1..]), LineReport(fname, line));
    }
  }

  lemma {:induction false} OneReport(fname: seq<byte>, line: seq<byte>)
    ensures Report(fname, [] + [line]) == Report(fname, []) + LineReport(fname, line)
  {
    var one := [] + [line];
    assert one == [line] && one[1..] == [];
    assert LineReport(fname, line) + [] == LineReport(fname, line) == [] + LineReport(fname, line);
  }

  lemma {:induction false} BytesJoin(a: seq<byte>, b: seq<byte>, c: seq<byte>)
    ensures a + (b + c) == a + b + c
  {
  }

  /** The text after a line of length e and its newline, if there is one. */
  ghost function After(pending: seq<byte>, e: nat): seq<byte>
    requires e <= |pending|
  {
    pending[if e < |pending| then e + 1 else e..]
  }

  /** What is to come is the first line of the text left, if it is a hit, and what the rest gives. */
  lemma {:induction false} SplitLeft(pat: seq<byte>, left: seq<byte>, e: nat, coming: seq<seq<byte>>)
    requires FirstLine(left, e)
    ensures ToCome(pat, left) + coming == Hit(pat, left[..e]) + (ToCome(pat, After(left, e)) + coming)
  {
    NextPiece(pat, left, e);
    JoinStep(Hit(pat, left[..e]), ToCome(pat, After(left, e)), coming, ToCome(pat, After(left, e)) + coming);
  }

  /** What is printed for one line: up to its first NUL. */
  function LineReport(fname: seq<byte>, line: seq<byte>): seq<byte> {
    fname + [':' as int] + line[..FirstNul(line)] + [NEWLINE]
  }

  /** A line is printed in full if and only if it holds no NUL. */
  lemma {:induction false} PrintedInFullIff(fname: seq<byte>, line: seq<byte>)
    ensures LineReport(fname, line) == fname + [':' as int] + line + [NEWLINE] <==> NUL !in line
  {
    if NUL !in line {
      NoNul(line);
      assert line[..|line|] == line;
    } else {
      assert FirstNul(line) < |line|;
      assert |LineReport(fname, line)| < |fname + [':' as int] + line + [NEWLINE]|;
    }
  }

  /** A hit is printed, or there is none. */
  lemma {:induction false} HitProgress(fname: seq<byte>, before: seq<byte>, text: seq<byte>, printed: seq<seq<byte>>,
                                       line: seq<byte>, coming: seq<seq<byte>>, goal: seq<seq<byte>>)
    ensures Progress(fname, before, text, printed, [line] + coming, goal) ==>
      Progress(fname, before, text + LineReport(fname, line), printed + [line], coming, goal)
    ensures Progress(fname, before, text, printed, [] + coming, goal) ==>
      Progress(fname, before, text, printed, coming, goal)
  {
    ReportAppend(fname, printed, line);
    BytesJoin(before, Report(fname, printed), LineReport(fname, line));
    assert printed + [line] + coming == printed + ([line] + coming);
    assert [] + coming == coming;
  }

  method PrintLine(fname: seq<byte>, data: array<byte>, lineStart: nat, lineEnd: nat, out: Output)
    requires lineStart <= lineEnd < data.Length && data[lineEnd] == NUL
    modifies out
    ensures out.text == old(out.text) + LineReport(fname, data[lineStart..lineEnd])
  {
    ghost var line := data[lineStart..lineEnd];
    ghost var z := lineStart + FirstNul(line);
    StringEnds(data[..], lineStart, lineEnd, z);
    assert data[lineStart..z] == line[..FirstNul(line)];
    out.text := out.text + fname;
    out.text := out.text + [':' as int];
    out.Puts(data, lineStart, z);
    out.text := out.text + [NEWLINE];
  }

  /** So much is printed, and with what is to come it makes up the goal. */
  ghost predicate Progress(fname: seq<byte>, before: seq<byte>, text: seq<byte>, printed: seq<seq<byte>>,
                           coming: seq<seq<byte>>, goal: seq<seq<byte>>)
  {
    text == before + Report(fname, printed) && printed + coming == goal
  }

  /** A text that a buffer can hold starts with a line of e bytes. */
  ghost predicate FirstLine(left: seq<byte>, e: nat) {
    e <= |left| <= BUFSIZE && NEWLINE !in left[..e] && (e < |left| ==> left[e] == NEWLINE)
  }

  /**
   * Terminate and search the line at lineStart, the first one of those left in the buffer,
   * and report it if it matches: the reported lines, the lines left and those coming
   * after them still make up the goal.
   */
  method TakeLine(pat: seq<byte>, fname: seq<byte>, data: array<byte>, lineStart: nat, lineEnd: nat, out: Output,
                  ghost left: seq<byte>, ghost coming: seq<seq<byte>>, ghost printed: seq<seq<byte>>,
                  ghost before: seq<byte>, ghost goal: seq<seq<byte>>)
    returns (ghost printed': seq<seq<byte>>)
    requires NUL !in pat && lineStart <= lineEnd < data.Length && FirstLine(left, lineEnd - lineStart)
    requires data[lineStart..lineEnd] == left[..lineEnd - lineStart]
    requires Progress(fname, before, out.text, printed, ToCome(pat, left) + coming, goal)
    modifies data, out
    ensures data[..] == old(data[..])[lineEnd := NUL]
    ensures Progress(fname, before, out.text, printed', ToCome(pat, After(left, lineEnd - lineStart)) + coming, goal)
  {
    ghost var e := lineEnd - lineStart;
    SplitLeft(pat, left, e, coming);
    HitProgress(fname, before, out.text, printed, left[..e], ToCome(pat, After(left, e)) + coming, goal);
    printed' := ReportLine(pat, fname, data, lineStart, lineEnd, out, left[..e], printed);
  }

  /** Terminate and search a line, and print it if it is a hit. */
  method ReportLine(pat: seq<byte>, fname: seq<byte>, data: array<byte>, lineStart: nat, lineEnd: nat, out: Output,
                    ghost line: seq<byte>, ghost printed: seq<seq<byte>>)
    returns (ghost printed': seq<seq<byte>>)
    requires NUL !in pat && lineStart <= lineEnd < data.Length && data[lineStart..lineEnd] == line
    modifies data, out
    ensures data[..] == old(data[..])[lineEnd := NUL]
    ensures Hit(pat, line) == [] ==> out.text == old(out.text) && printed' == printed
    ensures Hit(pat, line) == [line] ==> out.text == old(out.text) + LineReport(fname, line)
    ensures Hit(pat, line) == [line] ==> printed' == printed + [line]
  {
    printed' := printed;
    data[lineEnd] := NUL;
    assert data[lineStart..lineEnd] == line;
    var found := SearchLine(pat, data, lineStart, lineEnd);
    if found {
      PrintLine(fname, data, lineStart, lineEnd, out);
      printed' := printed + [line];
    }
  }

  /** In the middle of a buffer that was read as b: the newlines in front of lineStart are NULs. */
  ghost predicate InBuffer(m: seq<byte>, b: seq<byte>, lineStart: nat) {
    && |m| == BUFSIZE + 1 && lineStart <= |b| <= BUFSIZE && (lineStart == 0 || b[lineStart - 1] == NEWLINE)
    && (lineStart < |b| || b == [])
    && forall k :: 0 <= k < |b| ==> m[k] == if k < lineStart then Cleared(b[k]) else b[k]
  }

  /** Behind a buffer that was read as b: what lies behind c is carried over. */
  ghost predicate BufferDone(m: seq<byte>, b: seq<byte>, c: nat, stale: bool, last: nat) {
    && |m| == BUFSIZE + 1 && |b| <= BUFSIZE && c <= |b| && last == |b| - c && m[..last] == Kept(b, c)
    && (forall k :: 0 <= k < |b| ==> m[k] != NEWLINE)
    && (m[BUFSIZE] == NEWLINE <==> StaysStale(b, stale))
  }

  /** The rest of the buffer is an unfinished line; stale says whether a newline is behind the buffer. */
  ghost predicate Unfinished(m: seq<byte>, b: seq<byte>, lineStart: nat, stale: bool) {
    InBuffer(m, b, lineStart) && NEWLINE !in b[lineStart..] && stale == (m[BUFSIZE] == NEWLINE)
  }

  /** The carry: terminate the unfinished line and copy it to the front; strcpy stops at its first NUL. */
  method CarryDown(data: array<byte>, lineStart: nat, lineEnd: nat, ghost b: seq<byte>, ghost stale: bool)
    requires Unfinished(data[..], b, lineStart, stale) && lineEnd == |b|
    modifies data
    ensures BufferDone(data[..], b, lineStart, stale, lineEnd - lineStart)
  {
    ghost var line, was := b[lineStart..], data[..];
    LineStands(was, b, lineStart);
    data[lineEnd] := NUL;
    assert data[..] == was[lineEnd := NUL];
    CopyToFront(data, lineStart, FirstNul(line));
    LineKept(b, lineStart, was, FirstNul(line), data[..]);
  }

  /** strcpy of the string at from to the front. */
  method CopyToFront(data: array<byte>, from: nat, ghost n: nat)
    requires EndsAt(data[..], from, from + n)
    modifies data
    ensures forall k :: 0 <= k <= n ==> data[..][k] == old(data[..])[k + from]
    ensures forall k :: n < k < data.Length ==> data[..][k] == old(data[..])[k]
  {
    StrCpyDown(data, 0, from, from + n);
  }

  /** The unfinished line, once it is terminated, is a string up to its first NUL. */
  lemma {:induction false} LineStands(was: seq<byte>, b: seq<byte>, i: nat)
    requires InBuffer(was, b, i)
    ensures EndsAt(was[|b| := NUL], i, i + FirstNul(b[i..]))
  {
    assert was[|b| := NUL][i..|b|] == b[i..];
    StringEnds(was[|b| := NUL], i, |b|, i + FirstNul(b[i..]));
  }

  /** After the copy of the line at i, which was terminated, to the front, up to its first NUL. */
  lemma {:induction false} LineKept(b: seq<byte>, i: nat, was: seq<byte>, n: nat, m: seq<byte>)
    requires InBuffer(was, b, i) && |m| == |was| && NEWLINE !in b[i..] && n == FirstNul(b[i..])
    requires forall k :: 0 <= k <= n ==> m[k] == was[|b| := NUL][k + i]
    requires forall k :: n < k < |m| ==> m[k] == was[|b| := NUL][k]
    ensures BufferDone(m, b, i, was[BUFSIZE] == NEWLINE, |b| - i)
  {
    var line, was' := b[i..], was[|b| := NUL];
    forall k | i <= k < |b| ensures b[k] == was'[k] != NEWLINE {
      assert b[k] == line[k - i];
    }
    KeptBytes(b, i, was', line, n, m);
    KeptNoNewline(b, i, was', n, m);
    assert m[BUFSIZE] == NEWLINE <==> StaysStale(b, was[BUFSIZE] == NEWLINE);
  }

  lemma {:induction false} KeptBytes(b: seq<byte>, i: nat, was: seq<byte>, line: seq<byte>, n: nat, m: seq<byte>)
    requires i <= |b| < |was| == |m| && line == b[i..] && n == FirstNul(line)
    requires (forall k :: 0 <= k < i ==> was[k] == Cleared(b[k]))
    requires forall k :: i <= k < |b| ==> was[k] == b[k] != NEWLINE
    requires (forall k :: 0 <= k <= n ==> m[k] == was[k + i]) && (forall k :: n < k < |m| ==> m[k] == was[k])
    ensures m[..|b| - i] == Kept(b, i)
  {
    forall k | 0 <= k < |line| ensures m[k] == Kept(b, i)[k] {
      if k <= n {
        assert was[k + i] == b[k + i] == line[k];
      }
    }
  }

  lemma {:induction false} KeptNoNewline(b: seq<byte>, i: nat, was: seq<byte>, n: nat, m: seq<byte>)
    requires i <= |b| < |was| == |m| && n + i <= |b| && was[|b|] != NEWLINE
    requires forall k :: 0 <= k < |b| ==> was[k] != NEWLINE
    requires (forall k :: 0 <= k <= n ==> m[k] == was[k + i]) && (forall k :: n < k < |m| ==> m[k] == was[k])
    ensures forall k :: 0 <= k < |b| ==> m[k] != NEWLINE
  {
  }

  lemma {:induction false} NoNul(line: seq<byte>)
    requires NUL !in line
    ensures FirstNul(line) == |line|
  {
  }

  /** Where the lines end that are searched; cnt is what the last read gave. */
  ghost function Stop(b: seq<byte>, cnt: nat, closed: bool): nat {
    if cnt == 0 then |b| else CarryStart(b, closed)
  }

  /** That is so at c: behind a newline, and none follows, or at the end. */
  ghost predicate StopsAt(b: seq<byte>, cnt: nat, closed: bool, c: nat) {
    && c <= |b| && (c == |b| || (cnt != 0 && !closed && c > 0 && b[c - 1] == NEWLINE))
    && (cnt == 0 || closed || (c > 0 && b[c - 1] == NEWLINE && NoNewline(b, c)) || (c == |b| && NoNewline(b, 0)))
  }

  ghost predicate NoNewline(b: seq<byte>, i: nat) {
    forall k :: i <= k < |b| ==> b[k] != NEWLINE
  }

  lemma {:induction false} StopStops(b: seq<byte>, cnt: nat, closed: bool)
    ensures StopsAt(b, cnt, closed, Stop(b, cnt, closed))
  {
    var i := LineStart(b, |b|);
    assert b[i..|b|] == b[i..] && b[0..] == b;
  }

  /** The loop over the lines of a buffer is at lineStart, and will stop at c. */
  ghost predicate Round(m: seq<byte>, b: seq<byte>, lineStart: nat, c: nat, cnt: nat, stale: bool) {
    && InBuffer(m, b, lineStart) && StopsAt(b, cnt, m[|b|] == NEWLINE, c) && lineStart <= c
    && stale == (m[BUFSIZE] == NEWLINE)
  }

  /** The loop over the lines of a buffer, in a round of its own or, if there is no more, behind it. */
  ghost predicate InRounds(pat: seq<byte>, fname: seq<byte>, before: seq<byte>, text: seq<byte>,
                           printed: seq<seq<byte>>, coming: seq<seq<byte>>, goal: seq<seq<byte>>, m: seq<byte>,
                           b: seq<byte>, c: nat, cnt: nat, stale: bool, more: bool, lineStart: nat, last: nat)
  {
    if more then
      && Round(m, b, lineStart, c, cnt, stale)
      && Progress(fname, before, text, printed, ToCome(pat, b[lineStart..c]) + coming, goal)
    else BufferDone(m, b, c, stale, last) && Progress(fname, before, text, printed, coming, goal)
  }

  /**
   * One fill of the buffer: the lines up to the unfinished one are searched, and that is
   * carried to the front; last' is the number of carried bytes.
   */
  method SearchBuffer(pat: seq<byte>, fname: seq<byte>, data: array<byte>, last: nat, cnt: nat, out: Output,
                      ghost coming: seq<seq<byte>>, ghost printed: seq<seq<byte>>, ghost before: seq<byte>,
                      ghost goal: seq<seq<byte>>)
    returns (last': nat, ghost printed': seq<seq<byte>>)
    requires NUL !in pat && data.Length == BUFSIZE + 1 && last <= BUFSIZE
    requires var b := data[..last];
      Progress(fname, before, out.text, printed, ToCome(pat, b[..Stop(b, cnt, data[last] == NEWLINE)]) + coming, goal)
    modifies data, out
    ensures var b := old(data[..last]);
      BufferDone(data[..], b, Stop(b, cnt, old(data[last]) == NEWLINE), old(data[BUFSIZE]) == NEWLINE, last')
    ensures Progress(fname, before, out.text, printed', coming, goal)
  {
    printed' := printed;
    ghost var b, stale := data[..last], data[BUFSIZE] == NEWLINE;
    ghost var c := Stop(b, cnt, data[last] == NEWLINE);
    var lineStart: nat, more := 0, true;
    last' := last;
    assert b[0..c] == b[..c];
    StopStops(b, cnt, data[last] == NEWLINE);
    while more
      invariant lineStart <= last || !more
      invariant InRounds(pat, fname, before, out.text, printed', coming, goal, data[..], b, c, cnt, stale, more,
        lineStart, last')
      decreases more, last - lineStart
    {
      more, lineStart, last', printed' :=
        NextLine(pat, fname, data, lineStart, last, cnt, out, b, c, stale, coming, printed', before, goal);
    }
  }

  /** One round of the loop over the lines. */
  method NextLine(pat: seq<byte>, fname: seq<byte>, data: array<byte>, lineStart: nat, last: nat, cnt: nat, out: Output,
                  ghost b: seq<byte>, ghost c: nat, ghost stale: bool, ghost coming: seq<seq<byte>>,
                  ghost printed: seq<seq<byte>>, ghost before: seq<byte>, ghost goal: seq<seq<byte>>)
    returns (more: bool, lineStart': nat, last': nat, ghost printed': seq<seq<byte>>)
    requires NUL !in pat && last == |b|
    requires InRounds(pat, fname, before, out.text, printed, coming, goal,
      data[..], b, c, cnt, stale, true, lineStart, 0)
    modifies data, out
    ensures more ==> lineStart < lineStart' <= last
    ensures InRounds(pat, fname, before, out.text, printed', coming, goal, data[..], b, c, cnt, stale, more, lineStart',
      last')
  {
    var lineEnd, carry := FindLine(data, lineStart, last, cnt, b, c, stale);
    if carry {
      last' := CarryLine(pat, fname, data, lineStart, last, out.text, b, c, cnt, stale, coming, printed, before, goal);
      more, lineStart', printed' := false, lineStart, printed;
    } else {
      more, printed' :=
        SearchNext(pat, fname, data, lineStart, lineEnd, last, out, b, c, cnt, stale, coming, printed, before, goal);
      lineStart', last' := lineEnd + 1, 0;
    }
  }

  /** The unfinished line at lineStart is carried over. */
  method CarryLine(ghost pat: seq<byte>, ghost fname: seq<byte>, data: array<byte>, lineStart: nat, last: nat,
                   ghost text: seq<byte>, ghost b: seq<byte>, ghost c: nat, ghost cnt: nat, ghost stale: bool,
                   ghost coming: seq<seq<byte>>, ghost printed: seq<seq<byte>>, ghost before: seq<byte>,
                   ghost goal: seq<seq<byte>>)
    returns (last': nat)
    requires last == |b| && c == lineStart && Unfinished(data[..], b, lineStart, stale)
    requires Progress(fname, before, text, printed, ToCome(pat, b[lineStart..c]) + coming, goal)
    modifies data
    ensures InRounds(pat, fname, before, text, printed, coming, goal,
      data[..], b, c, cnt, stale, false, lineStart, last')
  {
    NothingLeft(pat, b[lineStart..c], coming);
    CarryDown(data, lineStart, last, b, stale);
    last' := last - lineStart;
  }

  /** The scan for the end of the line at lineStart has come to lineEnd. */
  ghost predicate LineFound(m: seq<byte>, b: seq<byte>, lineStart: nat, lineEnd: nat) {
    && lineStart <= lineEnd <= |b| < |m| && b[lineStart..lineEnd] == m[lineStart..lineEnd]
    && NEWLINE !in b[lineStart..lineEnd] && (lineEnd < |b| ==> b[lineEnd] == NEWLINE)
  }

  /** The end of the line at lineStart, and whether the line is to be carried over. */
  method FindLine(data: array<byte>, lineStart: nat, last: nat, cnt: nat, ghost b: seq<byte>, ghost c: nat,
                  ghost stale: bool)
    returns (lineEnd: nat, carry: bool)
    requires last == |b| && Round(data[..], b, lineStart, c, cnt, stale)
    ensures Round(data[..], b, lineStart, c, cnt, stale)
    ensures carry ==> c == lineStart && Unfinished(data[..], b, lineStart, stale)
    ensures !carry ==> LineFound(data[..], b, lineStart, lineEnd) && (c == |b| || lineEnd < c < |b|)
  {
    lineEnd := LineEnd(data, lineStart, last);
    carry := data[lineEnd] != NEWLINE && 0 != cnt && lineStart != 0;
    LineInBuffer(data[..], b, lineStart, lineEnd, c, cnt, stale);
  }

  /** The line that the scan for its end has found is searched, unless it is carried over. */
  lemma {:induction false} LineInBuffer(m: seq<byte>, b: seq<byte>, lineStart: nat, lineEnd: nat, c: nat, cnt: nat,
                                        stale: bool)
    requires Round(m, b, lineStart, c, cnt, stale) && lineStart <= lineEnd <= |b|
    requires forall k :: lineStart <= k < lineEnd ==> m[k] != NEWLINE
    requires lineEnd < |b| ==> m[lineEnd] == NEWLINE
    ensures LineFound(m, b, lineStart, lineEnd)
    ensures if m[lineEnd] != NEWLINE && cnt != 0 && lineStart != 0
      then c == lineStart && lineEnd == |b| && Unfinished(m, b, lineStart, stale)
      else c == |b| || lineEnd < c < |b|
  {
    assert b[lineStart..lineEnd] == m[lineStart..lineEnd];
    assert forall k :: lineStart <= k < lineEnd ==> m[lineStart..lineEnd][k - lineStart] == m[k];
    StopIs(b, cnt, m[|b|] == NEWLINE, lineStart, lineEnd, c);
    assert b[lineStart..|b|] == b[lineStart..];
  }

  /** A line is terminated, and there are more. */
  lemma {:induction false} LineTerminated(m: seq<byte>, b: seq<byte>, lineStart: nat, lineEnd: nat, c: nat, cnt: nat,
                                          stale: bool)
    requires Round(m, b, lineStart, c, cnt, stale) && LineFound(m, b, lineStart, lineEnd) && lineEnd + 1 < |b|
    requires lineEnd < c
    ensures Round(m[lineEnd := NUL], b, lineEnd + 1, c, cnt, stale)
  {
    var line := b[lineStart..lineEnd];
    assert forall k :: lineStart <= k < lineEnd ==> b[k] == line[k - lineStart];
  }

  /** The last line is terminated. */
  lemma {:induction false} LastTerminated(m: seq<byte>, b: seq<byte>, lineStart: nat, lineEnd: nat, c: nat, cnt: nat,
                                          stale: bool)
    requires Round(m, b, lineStart, c, cnt, stale) && LineFound(m, b, lineStart, lineEnd) && lineEnd + 1 >= |b|
    requires c == |b|
    ensures BufferDone(m[lineEnd := NUL], b, c, stale, 0)
  {
    var line, m' := b[lineStart..lineEnd], m[lineEnd := NUL];
    assert forall k :: lineStart <= k < lineEnd ==> b[k] == line[k - lineStart];
    assert forall k :: 0 <= k < |b| ==> m'[k] != NEWLINE;
    assert m'[BUFSIZE] == NEWLINE <==> StaysStale(b, stale);
    assert m'[..0] == Kept(b, c);
  }

  /** The line at lineStart is searched; more says whether there is another one. */
  method SearchNext(pat: seq<byte>, fname: seq<byte>, data: array<byte>, lineStart: nat, lineEnd: nat, last: nat,
                    out: Output, ghost b: seq<byte>, ghost c: nat, ghost cnt: nat, ghost stale: bool,
                    ghost coming: seq<seq<byte>>, ghost printed: seq<seq<byte>>, ghost before: seq<byte>,
                    ghost goal: seq<seq<byte>>)
    returns (more: bool, ghost printed': seq<seq<byte>>)
    requires NUL !in pat && last == |b| && LineFound(data[..], b, lineStart, lineEnd) && (c == |b| || lineEnd < c < |b|)
    requires Round(data[..], b, lineStart, c, cnt, stale)
    requires Progress(fname, before, out.text, printed, ToCome(pat, b[lineStart..c]) + coming, goal)
    modifies data, out
    ensures more ==> lineEnd < last
    ensures InRounds(pat, fname, before, out.text, printed', coming, goal,
      data[..], b, c, cnt, stale, more, lineEnd + 1, 0)
  {
    more := lineEnd + 1 < last;
    ghost var left, e := b[lineStart..c], lineEnd - lineStart;
    LineIsFirst(b, lineStart, lineEnd, c);
    if more {
      LineTerminated(data[..], b, lineStart, lineEnd, c, cnt, stale);
    } else {
      LastTerminated(data[..], b, lineStart, lineEnd, c, cnt, stale);
      NothingLeft(pat, After(left, e), coming);
    }
    assert data[..][lineStart..lineEnd] == data[lineStart..lineEnd];
    printed' := TakeLine(pat, fname, data, lineStart, lineEnd, out, left, coming, printed, before, goal);
  }

  lemma {:induction false} NothingLeft(pat: seq<byte>, left: seq<byte>, coming: seq<seq<byte>>)
    requires left == []
    ensures ToCome(pat, left) + coming == coming
  {
  }

  /** The line from lineStart to lineEnd is searched, unless it is carried over. */
  lemma {:induction false} StopIs(b: seq<byte>, cnt: nat, closed: bool, lineStart: nat, lineEnd: nat, c: nat)
    requires lineStart <= lineEnd <= |b| && (lineStart == 0 || b[lineStart - 1] == NEWLINE)
    requires NEWLINE !in b[lineStart..lineEnd] && (lineEnd < |b| ==> b[lineEnd] == NEWLINE)
    requires StopsAt(b, cnt, closed, c)
    ensures if lineEnd < |b| then lineEnd < c
      else c == if cnt != 0 && lineStart != 0 && !closed then lineStart else |b|
  {
    assert forall k :: c <= k < |b| ==> b[k] == b[c..][k - c];
    assert forall k :: lineStart <= k < lineEnd ==> b[k] == b[lineStart..lineEnd][k - lineStart];
  }

  lemma {:induction false} LineIsFirst(b: seq<byte>, lineStart: nat, lineEnd: nat, c: nat)
    requires lineStart <= lineEnd <= c <= |b| <= BUFSIZE && NEWLINE !in b[lineStart..lineEnd]
    requires if lineEnd < |b| then lineEnd < c && b[lineEnd] == NEWLINE else c == |b|
    ensures var left, e := b[lineStart..c], lineEnd - lineStart;
      FirstLine(left, e) && left[..e] == b[lineStart..lineEnd]
        && After(left, e) == if lineEnd < |b| then b[lineEnd + 1..c] else []
  {
    assert b[lineStart..c][..lineEnd - lineStart] == b[lineStart..lineEnd];
  }

  const OPEN_FAILED := Ascii("file open failed\n")

  /** The byte behind the n bytes of a buffer that is not full is a newline. */
  ghost predicate Behind(m: seq<byte>, n: nat) {
    n < BUFSIZE && n < |m| && m[n] == NEWLINE
  }

  /** What is to come between two reads: of the bytes that the memory m holds, and of t, which is not yet read. */
  ghost function Coming(pat: seq<byte>, m: seq<byte>, last: nat, t: seq<byte>): seq<seq<byte>>
    requires |m| == BUFSIZE + 1 && last < BUFSIZE
  {
    Selected(pat, Viewed(m[..last] + t, m[BUFSIZE] == NEWLINE, Behind(m, last + |t|)))
  }

  /** Between two reads: the unfinished line is held, and what is printed and what is to come make up the goal. */
  ghost predicate Between(pat: seq<byte>, fname: seq<byte>, before: seq<byte>, text: seq<byte>,
                          printed: seq<seq<byte>>, m: seq<byte>, last: nat, t: seq<byte>, goal: seq<seq<byte>>)
  {
    && |m| == BUFSIZE + 1 && last < BUFSIZE && NEWLINE !in m[..last]
    && Progress(fname, before, text, printed, Coming(pat, m, last, t), goal)
  }

  /** A read of cnt bytes has left rest of t unread. */
  ghost predicate Filled(was: seq<byte>, m: seq<byte>, last: nat, cnt: nat, t: seq<byte>, rest: seq<byte>) {
    && |m| == |was| == BUFSIZE + 1 && last + cnt <= BUFSIZE && m[..last + cnt] + rest == was[..last] + t
    && (last + cnt < BUFSIZE || cnt == 0 ==> rest == []) && (cnt == 0 ==> m == was)
    && forall k :: last + cnt <= k < |m| ==> m[k] == was[k]
  }

  lemma {:induction false} MatchingAppend(pat: seq<byte>, a: seq<seq<byte>>, b: seq<seq<byte>>)
    ensures Matching(pat, a + b) == Matching(pat, a) + Matching(pat, b)
    decreases |a|
  {
    if a == [] {
      assert a + b == b && [] + Matching(pat, b) == Matching(pat, b);
    } else {
      var tail, first := a[1..], if Occurs(pat, a[0]) then [a[0]] else [];
      assert (a + b)[1..] == tail + b && (a + b)[0] == a[0];
      MatchingAppend(pat, tail, b);
      JoinStep(first, Matching(pat, tail), Matching(pat, b), Matching(pat, tail + b));
    }
  }

  lemma {:induction false} SelectedAppend(pat: seq<byte>, a: seq<seq<byte>>, b: seq<seq<byte>>)
    ensures Selected(pat, a + b) == Selected(pat, a) + Selected(pat, b)
    decreases |a|
  {
    if a == [] {
      assert a + b == b && [] + Selected(pat, b) == Selected(pat, b);
    } else {
      var tail := a[1..];
      assert (a + b)[1..] == tail + b && (a + b)[0] == a[0];
      SelectedAppend(pat, tail, b);
      JoinStep(Hit(pat, a[0]), Selected(pat, tail), Selected(pat, b), Selected(pat, tail + b));
    }
  }

  /** One buffer of a file, while the byte behind the buffer is a newline. */
  lemma {:induction false} StaleStep(pat: seq<byte>, t: seq<byte>)
    ensures |t| < BUFSIZE ==> Selected(pat, StalePieces(t)) == ToCome(pat, t)
    ensures |t| >= BUFSIZE ==>
      Selected(pat, StalePieces(t))
        == ToCome(pat, t[..BUFSIZE]) + Selected(pat, Seen(t[BUFSIZE..], t[BUFSIZE - 1] == NEWLINE))
  {
    if |t| >= BUFSIZE {
      SelectedAppend(pat, Pieces(t[..BUFSIZE]), Seen(t[BUFSIZE..], t[BUFSIZE - 1] == NEWLINE));
    }
  }

  /** One buffer of what is to come. */
  lemma {:induction false} ViewStep(pat: seq<byte>, t: seq<byte>, stale: bool, closed: bool, b: seq<byte>, i: nat)
    requires b == Block(t) && i == CarryStart(b, if |b| == BUFSIZE then stale else closed)
    ensures Selected(pat, Viewed(t, stale, closed))
      == ToCome(pat, b[..i]) + Selected(pat, Viewed(Kept(b, i) + t[|b|..], StaysStale(b, stale), false))
  {
    if t == [] {
      assert Kept(b, i) + t[|b|..] == [];
      assert Selected(pat, []) == [];
    } else {
      SelectedAppend(pat, Pieces(b[..i]), Viewed(Kept(b, i) + t[|b|..], StaysStale(b, stale), false));
    }
  }

  /** A last buffer that holds one line is not carried over, whatever is behind it. */
  lemma {:induction false} ClosedOrNot(t: seq<byte>, stale: bool, closed: bool)
    requires closed ==> NEWLINE !in t
    ensures Viewed(t, stale, closed) == Viewed(t, stale, false)
  {
    if closed {
      var b := Block(t);
      assert b[0..|b|] == b;
      LineStartIs(b, |b|, 0);
    }
  }

  /** One read and one search of the buffer; cnt is -1 for a failed read. */
  method ReadAndSearch(pat: seq<byte>, fname: seq<byte>, fd: OpenFile, data: array<byte>, last: nat, out: Output,
                       ghost printed: seq<seq<byte>>, ghost before: seq<byte>, ghost goal: seq<seq<byte>>)
    returns (cnt: int, last': nat, ghost printed': seq<seq<byte>>)
    requires NUL !in pat && fd.position <= |fd.file| && !fd.failed
    requires Between(pat, fname, before, out.text, printed, data[..], last, fd.file[fd.position..], goal)
    modifies data, out, fd
    ensures fd.position <= |fd.file| && (fd.failed <==> cnt == -1) && cnt >= -1
    ensures cnt == -1 ==> printed' == printed && out.text == old(out.text)
    ensures cnt > 0 ==> fd.position > old(fd.position)
    ensures cnt != -1 ==>
      Between(pat, fname, before, out.text, printed', data[..], last', fd.file[fd.position..], goal)
    ensures cnt == 0 ==> last' == 0 && fd.position == |fd.file|
  {
    last', printed' := last, printed;
    ghost var was, t := data[..], fd.file[fd.position..];
    cnt := Fill(fd, data, last);
    if cnt != -1 {
      last', printed' :=
        SearchRead(pat, fname, data, last, cnt, out, was, t, fd.file[fd.position..], printed, before, goal);
    }
  }

  /** The search of the buffer after a read. */
  method SearchRead(pat: seq<byte>, fname: seq<byte>, data: array<byte>, last: nat, cnt: nat, out: Output,
                    ghost was: seq<byte>, ghost t: seq<byte>, ghost rest: seq<byte>,
                    ghost printed: seq<seq<byte>>, ghost before: seq<byte>, ghost goal: seq<seq<byte>>)
    returns (last': nat, ghost printed': seq<seq<byte>>)
    requires NUL !in pat && Between(pat, fname, before, out.text, printed, was, last, t, goal)
    requires Filled(was, data[..], last, cnt, t, rest)
    modifies data, out
    ensures Between(pat, fname, before, out.text, printed', data[..], last', rest, goal) && (cnt == 0 ==> last' == 0)
  {
    ghost var b, stale := data[..last + cnt], data[BUFSIZE] == NEWLINE;
    ghost var c := Stop(b, cnt, data[last + cnt] == NEWLINE);
    ghost var coming := Selected(pat, Viewed(Kept(b, c) + rest, StaysStale(b, stale), false));
    assert data[..][..last + cnt] == b;
    ComingRead(pat, was, data[..], last, cnt, t, rest);
    last', printed' := SearchBuffer(pat, fname, data, last + cnt, cnt, out, coming, printed, before, goal);
    ComingAfter(pat, data[..], b, c, stale, last', rest);
  }

  /** What a read makes of what is to come. */
  lemma {:induction false} ComingRead(pat: seq<byte>, was: seq<byte>, m: seq<byte>, last: nat, cnt: nat, t: seq<byte>,
                                      rest: seq<byte>)
    requires Filled(was, m, last, cnt, t, rest) && last < BUFSIZE && NEWLINE !in was[..last]
    ensures var b := m[..last + cnt];
      var c := Stop(b, cnt, m[last + cnt] == NEWLINE);
      Coming(pat, was, last, t)
        == ToCome(pat, b[..c]) + Selected(pat, Viewed(Kept(b, c) + rest, StaysStale(b, m[BUFSIZE] == NEWLINE), false))
  {
    var b := m[..last + cnt];
    assert |b + rest| == last + |t|;
    ViewedRead(pat, was[..last] + t, was[BUFSIZE] == NEWLINE, Behind(was, last + |t|), b, rest, cnt,
      m[last + cnt] == NEWLINE);
  }

  /** After the search of a buffer. */
  lemma {:induction false} ComingAfter(pat: seq<byte>, m: seq<byte>, b: seq<byte>, c: nat, stale: bool, last: nat,
                                       rest: seq<byte>)
    requires BufferDone(m, b, c, stale, last) && last < BUFSIZE && (|b| < BUFSIZE ==> rest == [])
    ensures NEWLINE !in m[..last]
    ensures Coming(pat, m, last, rest) == Selected(pat, Viewed(Kept(b, c) + rest, StaysStale(b, stale), false))
  {
    var t := m[..last] + rest;
    assert forall k :: 0 <= k < last ==> m[..last][k] == m[k];
    if rest == [] {
      assert t == m[..last];
    }
    ClosedOrNot(t, StaysStale(b, stale), Behind(m, |t|));
  }

  /** What a read makes of what is to come. */
  lemma {:induction false} ViewedRead(pat: seq<byte>, t: seq<byte>, stale: bool, closed: bool, b: seq<byte>,
                                      rest: seq<byte>, cnt: nat, behind: bool)
    requires t == b + rest && |b| <= BUFSIZE && (|b| < BUFSIZE ==> rest == []) && (cnt == 0 ==> NEWLINE !in b)
    requires behind == if |b| == BUFSIZE then stale else closed
    ensures var c := Stop(b, cnt, behind);
      Selected(pat, Viewed(t, stale, closed))
        == ToCome(pat, b[..c]) + Selected(pat, Viewed(Kept(b, c) + rest, StaysStale(b, stale), false))
  {
    assert Block(t) == b && t[|b|..] == rest;
    if cnt == 0 {
      assert b[0..|b|] == b;
      LineStartIs(b, |b|, 0);
    }
    ViewStep(pat, t, stale, closed, b, CarryStart(b, behind));
  }

  /** The read: the buffer, behind the bytes it holds, is filled up from the file. */
  method Fill(fd: OpenFile, data: array<byte>, last: nat) returns (cnt: int)
    requires data.Length == BUFSIZE + 1 && last < BUFSIZE && fd.position <= |fd.file| && !fd.failed
    modifies fd, data
    ensures fd.position <= |fd.file| && (fd.failed <==> cnt == -1) && cnt >= -1
    ensures cnt != -1 ==>
      && fd.position == old(fd.position) + cnt && (cnt == 0 ==> fd.position == |fd.file|)
      && Filled(old(data[..]), data[..], last, cnt, old(fd.file[fd.position..]), fd.file[fd.position..])
  {
    ghost var was, at := data[..], fd.position;
    cnt := fd.Read(data, last, BUFSIZE - last);
    if cnt != -1 {
      ReadFills(was, data[..], last, cnt, fd.file[at..], fd.file[fd.position..]);
    }
  }

  lemma {:induction false} ReadFills(was: seq<byte>, m: seq<byte>, last: nat, cnt: nat, t: seq<byte>, rest: seq<byte>)
    requires |was| == BUFSIZE + 1 && last < BUFSIZE && cnt == (if BUFSIZE - last <= |t| then BUFSIZE - last else |t|)
    requires m == was[..last] + t[..cnt] + was[last + cnt..] && rest == t[cnt..]
    ensures Filled(was, m, last, cnt, t, rest)
  {
    assert t == t[..cnt] + rest;
    assert m[..last + cnt] == was[..last] + t[..cnt];
  }

  lemma {:induction false} NothingPrinted(pat: seq<byte>, fname: seq<byte>, before: seq<byte>, m: seq<byte>,
                                          t: seq<byte>, goal: seq<seq<byte>>)
    requires |m| == BUFSIZE + 1 && goal == Selected(pat, Viewed(t, m[BUFSIZE] == NEWLINE, Behind(m, |t|)))
    ensures Between(pat, fname, before, before, [], m, 0, t, goal)
  {
    assert m[..0] + t == t;
    assert [] + goal == goal && before + [] == before;
  }

  lemma {:induction false} AllPrinted(pat: seq<byte>, fname: seq<byte>, before: seq<byte>, text: seq<byte>,
                                      printed: seq<seq<byte>>, m: seq<byte>, t: seq<byte>, goal: seq<seq<byte>>)
    requires t == [] && Between(pat, fname, before, text, printed, m, 0, t, goal)
    ensures text == before + Report(fname, goal)
  {
    assert m[..0] + t == [] && Coming(pat, m, 0, t) == [] && printed + [] == printed;
  }

  /**
   * do_one_file. For every file and every pattern, whatever the alignment of the lines to
   * the buffer and whatever the buffer holds at the start: a run that ends well has printed
   * exactly the selected pieces of the whole file, in order, each up to its first NUL; a run
   * that a failing read cuts short has printed the first of them.
   */
  method DoOneFile(pat: seq<byte>, fname: seq<byte>, fd: OpenFile?, data: array<byte>, out: Output)
    returns (status: int, ghost printed: seq<seq<byte>>)
    requires NUL !in pat && NUL !in fname
    requires data.Length == BUFSIZE + 1 && (fd != null ==> fd.position == 0 && !fd.failed)
    modifies data, out, fd
    ensures fd == null ==> status == -1 && out.text == old(out.text) + Ascii("file open failed\n")
    ensures fd != null ==> (status == 0 <==> !fd.failed)
    ensures fd != null ==>
      var seen := Viewed(fd.file, old(data[BUFSIZE]) == NEWLINE, Behind(old(data[..]), |fd.file|));
      if status == 0 then out.text == old(out.text) + Report(fname, Selected(pat, seen))
      else
        && status == -1 && printed <= Selected(pat, seen)
        && out.text == old(out.text) + Report(fname, printed) + Ascii("file read failed\n")
  {
    printed := [];
    if fd == null {
      out.text := out.text + OPEN_FAILED;
      return -1, printed;
    }
    ghost var before := out.text;
    ghost var goal := Selected(pat, Viewed(fd.file, data[BUFSIZE] == NEWLINE, Behind(data[..], |fd.file|)));
    NothingPrinted(pat, fname, before, data[..], fd.file, goal);
    assert fd.file[0..] == fd.file;
    var last: nat, cnt := 0, 1;
    while cnt != 0
      invariant fd.position <= |fd.file| && !fd.failed
      invariant Between(pat, fname, before, out.text, printed, data[..], last, fd.file[fd.position..], goal)
      invariant cnt == 0 ==> last == 0 && fd.position == |fd.file|
      decreases cnt != 0, |fd.file| - fd.position
    {
      cnt, last, printed := ReadAndSearch(pat, fname, fd, data, last, out, printed, before, goal);
      if cnt == -1 {
        out.text := out.text + READ_FAILED;
        return -1, printed;
      }
    }
    AllPrinted(pat, fname, before, out.text, printed, data[..], fd.file[fd.position..], goal);
    status := 0;
  }

  // ---------------------------------------------------------------- what strcpy costs

  /** A buffer from which nothing is carried over, and what comes after it. */
  lemma {:induction false} WholeBlock(pat: seq<byte>, b: seq<byte>, rest: seq<byte>)
    requires b != [] && |b| <= BUFSIZE && (|b| < BUFSIZE ==> rest == [])
    requires rest == [] || NEWLINE !in b || b[|b| - 1] == NEWLINE
    ensures ToCome(pat, b + rest) == ToCome(pat, b) + ToCome(pat, rest)
  {
    if rest == [] {
      NothingLeft(pat, rest, []);
      assert b + rest == b && ToCome(pat, b) + [] == ToCome(pat, b);
    } else if b[|b| - 1] == NEWLINE {
      ToComeSplit(pat, b, rest);
    } else {
      OnePiece(pat, b);
      assert (b + rest)[..BUFSIZE] == b && (b + rest)[BUFSIZE..] == rest;
      NextPiece(pat, b + rest, BUFSIZE);
    }
  }

  /** A text is treated buffer by buffer, if what is carried over stays as it is. */
  lemma {:induction false} ToComeStep(pat: seq<byte>, t: seq<byte>, closed: bool, b: seq<byte>, i: nat)
    requires t != [] && (closed ==> |t| < BUFSIZE) && b == Block(t) && i == CarryStart(b, closed)
    ensures ToCome(pat, t) == ToCome(pat, b[..i]) + ToCome(pat, t[i..])
  {
    assert b[0..|b|] == b == b[..|b|] && t == b + t[|b|..];
    if i == |b| {
      WholeBlock(pat, b, t[|b|..]);
    } else {
      assert b[..i] + t[i..] == t;
      ToComeSplit(pat, b[..i], t[i..]);
    }
  }

  /** What is seen of a text that a full buffer with a newline behind it does not cut. */
  lemma {:induction false} SeenUncut(pat: seq<byte>, t: seq<byte>, stale: bool)
    requires stale ==> |t| < BUFSIZE
    ensures Selected(pat, Seen(t, stale)) == ToCome(pat, t)
  {
  }

  lemma {:induction false} SeenStep(pat: seq<byte>, t: seq<byte>, stale: bool, closed: bool, b: seq<byte>, i: nat)
    requires t != [] && (closed ==> |t| < BUFSIZE)
    requires b == Block(t) && i == CarryStart(b, if |b| == BUFSIZE then stale else closed)
    ensures Selected(pat, Seen(t, stale)) == ToCome(pat, b[..i]) + Selected(pat, Seen(t[i..], StaysStale(b, stale)))
  {
    if stale && |b| == BUFSIZE {
      StaleStep(pat, t);
      assert b[..i] == t[..BUFSIZE];
    } else {
      SeenUncut(pat, t, stale);
      SeenUncut(pat, t[i..], StaysStale(b, stale));
      ToComeStep(pat, t, if |b| == BUFSIZE then stale else closed, b, i);
    }
  }

  /** The search selects the pieces of a text as its newlines and the buffer cut it. */
  ghost predicate SeesAll(pat: seq<byte>, t: seq<byte>, stale: bool, closed: bool) {
    Selected(pat, Viewed(t, stale, closed)) == Selected(pat, Seen(t, stale))
  }

  /** After a buffer, what is selected of the rest decides. */
  lemma {:induction false} RestDecides(pat: seq<byte>, t: seq<byte>, stale: bool, closed: bool, b: seq<byte>, i: nat)
    requires t != [] && (closed ==> |t| < BUFSIZE)
    requires b == Block(t) && i == CarryStart(b, if |b| == BUFSIZE then stale else closed)
    ensures SeesAll(pat, t, stale, closed)
      <==> (Selected(pat, Viewed(Kept(b, i) + t[|b|..], StaysStale(b, stale), false))
            == Selected(pat, Seen(t[i..], StaysStale(b, stale))))
  {
    ViewStep(pat, t, stale, closed, b, i);
    SeenStep(pat, t, stale, closed, b, i);
    SameFront(ToCome(pat, b[..i]), Selected(pat, Viewed(Kept(b, i) + t[|b|..], StaysStale(b, stale), false)),
      Selected(pat, Seen(t[i..], StaysStale(b, stale))));
  }

  lemma {:induction false} KeptDecides(pat: seq<byte>, t: seq<byte>, stale: bool, closed: bool, b: seq<byte>, i: nat)
    requires t != [] && (closed ==> |t| < BUFSIZE)
    requires b == Block(t) && i == CarryStart(b, if |b| == BUFSIZE then stale else closed) && KeptWhole(b, i)
    ensures SeesAll(pat, t, stale, closed) <==> SeesAll(pat, t[i..], StaysStale(b, stale), false)
  {
    assert Kept(b, i) + t[|b|..] == t[i..];
    RestDecides(pat, t, stale, closed, b, i);
  }

  /** What is carried over as it is, is selected as it is. */
  lemma {:induction false} IntactIsSeen(pat: seq<byte>, t: seq<byte>, stale: bool, closed: bool)
    requires Intact(t, stale, closed) && (closed ==> |t| < BUFSIZE)
    ensures SeesAll(pat, t, stale, closed)
    decreases |t|
  {
    if t == [] {
    } else {
      var b := Block(t);
      var i := CarryStart(b, if |b| == BUFSIZE then stale else closed);
      KeptDecides(pat, t, stale, closed, b, i);
      IntactIsSeen(pat, t[i..], StaysStale(b, stale), false);
    }
  }

  /** The first line that the empty pattern selects, of a text that starts with a NUL in its first line. */
  lemma {:induction false} FirstSelected(pat: seq<byte>, x: seq<byte>, y: seq<byte>)
    requires pat == [] && NUL in x && NEWLINE !in x && |x| <= BUFSIZE
    ensures ToCome(pat, x + y) != [] && x <= ToCome(pat, x + y)[0]
  {
    var t := x + y;
    var e := Cut(t, BUFSIZE);
    assert e >= |x| && x == t[..e][..|x|];
    NextPiece(pat, t, e);
    var k :| 0 <= k < |x| && x[k] == NUL;
    assert t[..e][k] == NUL;
  }

  lemma {:induction false} FirstViewed(pat: seq<byte>, x: seq<byte>, y: seq<byte>, stale: bool)
    requires pat == [] && NUL in x && NEWLINE !in x && |x| <= BUFSIZE
    ensures var l := Selected(pat, Viewed(x + y, stale, false)); l != [] && x <= l[0]
  {
    var t := x + y;
    var b := Block(t);
    var i := CarryStart(b, if |b| == BUFSIZE then stale else false);
    assert i >= |x| && b[..i] == x + b[|x|..i];
    FirstSelected(pat, x, b[|x|..i]);
    ViewStep(pat, t, stale, false, b, i);
  }

  /** What is kept of a line that is not kept as it is. */
  lemma {:induction false} KeptWithNul(b: seq<byte>, i: nat)
    requires i <= |b| && NEWLINE !in b[i..] && !KeptWhole(b, i)
    ensures NUL in b[i..] && NUL in Kept(b, i) && NEWLINE !in Kept(b, i)
  {
    var line := b[i..];
    if NUL !in line {
      KeptIsLine(b, i);
    } else {
      assert Kept(b, i)[FirstNul(line)] == NUL;
    }
  }

  /** The first line that is not kept as it is. */
  lemma {:induction false} FirstLost(pat: seq<byte>, t: seq<byte>, stale: bool, closed: bool, b: seq<byte>, i: nat)
    requires pat == [] && t != [] && (closed ==> |t| < BUFSIZE)
    requires b == Block(t) && i == CarryStart(b, if |b| == BUFSIZE then stale else closed) && !KeptWhole(b, i)
    ensures !SeesAll(pat, t, stale, closed)
  {
    var rest := t[|b|..];
    assert b[i..|b|] == b[i..] && b[i..] + rest == t[i..];
    KeptWithNul(b, i);
    assert b[|b| - 1] == b[i..][|b| - 1 - i];
    SeenUncut(pat, t[i..], StaysStale(b, stale));
    FirstSelected(pat, b[i..], rest);
    FirstViewed(pat, Kept(b, i), rest, StaysStale(b, stale));
    RestDecides(pat, t, stale, closed, b, i);
  }

  lemma {:induction false} NotIntactIsLost(pat: seq<byte>, t: seq<byte>, stale: bool, closed: bool)
    requires pat == [] && !Intact(t, stale, closed) && (closed ==> |t| < BUFSIZE)
    ensures !SeesAll(pat, t, stale, closed)
    decreases |t|
  {
    var b := Block(t);
    var i := CarryStart(b, if |b| == BUFSIZE then stale else closed);
    if KeptWhole(b, i) {
      KeptDecides(pat, t, stale, closed, b, i);
      NotIntactIsLost(pat, t[i..], StaysStale(b, stale), false);
    } else {
      FirstLost(pat, t, stale, closed, b, i);
    }
  }

  lemma {:induction false} SameFront(p: seq<seq<byte>>, x: seq<seq<byte>>, y: seq<seq<byte>>)
    ensures p + x == p + y <==> x == y
  {
    assert (p + x)[|p|..] == x && (p + y)[|p|..] == y;
  }

  /**
   * The search selects, for every pattern, the pieces of the file as its newlines and the
   * buffer cut it, if and only if every line that is carried over stays as it is.
   */
  lemma {:induction false} CarryLosesNothingIff(t: seq<byte>, stale: bool, closed: bool)
    requires closed ==> |t| < BUFSIZE
    ensures (forall pat: seq<byte> :: NUL !in pat ==> SeesAll(pat, t, stale, closed)) <==> Intact(t, stale, closed)
  {
    if Intact(t, stale, closed) {
      forall pat: seq<byte> | NUL !in pat ensures SeesAll(pat, t, stale, closed) {
        IntactIsSeen(pat, t, stale, closed);
      }
    } else {
      var pat: seq<byte> := [];
      NotIntactIsLost(pat, t, stale, closed);
      assert NUL !in pat;
    }
  }

  /** A short text of one line, in which nothing is found. */
  lemma {:induction false} NothingSeen(pat: seq<byte>, line: seq<byte>)
    requires NEWLINE !in line && |line| < BUFSIZE && !Finds(pat, line)
    ensures Selected(pat, Viewed(line, false, false)) == []
  {
    assert line[0..|line|] == line && line[..|line|] == line;
    LineStartIs(line, |line|, 0);
    ViewStep(pat, line, false, false, line, |line|);
    OnePiece(pat, line);
    assert Kept(line, |line|) + line[|line|..] == [];
  }

  /** A file of an empty line and an unfinished one, of which the carry keeps something in which nothing is found. */
  lemma {:induction false} SecondLineIsLost(pat: seq<byte>, file: seq<byte>, line: seq<byte>, kept: seq<byte>)
    requires file == [NEWLINE] + line && 0 < |line| < BUFSIZE - 1 && NEWLINE !in line && pat != []
    requires kept == Kept(file, 1) && NEWLINE !in kept && !Finds(pat, kept)
    ensures Selected(pat, Viewed(file, false, false)) == []
  {
    assert file[1..|file|] == line;
    LineStartIs(file, |file|, 1);
    ViewStep(pat, file, false, false, file, 1);
    assert file[..1] == [NEWLINE] && kept + file[|file|..] == kept;
    NextPiece(pat, [NEWLINE], 0);
    assert !Finds(pat, []) && [NEWLINE][1..] == [] && ToCome(pat, []) == [];
    NothingSeen(pat, kept);
  }

  lemma {:induction false} SecondLineMatches(pat: seq<byte>, file: seq<byte>, line: seq<byte>)
    requires file == [NEWLINE] + line && 0 < |line| < BUFSIZE && NEWLINE !in line && Searchable(pat)
    requires Occurs(pat, line)
    ensures line in Matching(pat, Lines(file)) && Matching(pat, Lines(file)) == Selected(pat, Seen(file, false))
  {
    EmptyLineFirst(line);
    assert Lines(file)[1] == line;
    MatchingMembers(pat, Lines(file), line);
    PrintsMatchingLines(pat, file);
  }

  /** An empty line, and "a", NUL and "x" without a newline behind them: the carry loses the "x". */
  lemma {:induction false} CarryStopsAtNul(file: seq<byte>, line: seq<byte>, pat: seq<byte>)
    requires line == ['a' as int, NUL, 'x' as int] && file == [NEWLINE] + line && pat == ['x' as int]
    ensures line in Matching(pat, Lines(file)) && Matching(pat, Lines(file)) == Selected(pat, Seen(file, false))
    ensures Selected(pat, Viewed(file, false, false)) == []
  {
    assert OccursAt(pat, line, 2);
    SecondLineMatches(pat, file, line);
    KeptNuls(file, line);
    SecondLineIsLost(pat, file, line, ['a' as int, NUL, NUL]);
  }

  lemma {:induction false} KeptNuls(file: seq<byte>, line: seq<byte>)
    requires line == ['a' as int, NUL, 'x' as int] && file == [NEWLINE] + line
    ensures Kept(file, 1) == ['a' as int, NUL, NUL]
  {
    assert file[1..] == line && FirstNul(line) == 1 by { assert FirstNul(line[1..]) == 0; }
  }

  // ---------------------------------------------------------------- what the buffer size costs

  /** A part of a line holds no occurrence that the line does not hold. */
  lemma {:induction false} OccursInPart(pat: seq<byte>, line: seq<byte>, i: nat, j: nat)
    requires i <= j <= |line| && Occurs(pat, line[i..j])
    ensures Occurs(pat, line)
  {
    var k :| OccursAt(pat, line[i..j], k);
    var part := line[i..j];
    forall m | 0 <= m < |pat| ensures line[i + k..i + k + |pat|][m] == pat[m] {
      assert part[k..k + |pat|][m] == part[k + m];
    }
    assert OccursAt(pat, line, i + k);
  }

  /** What is found in a part of a line is found in the line. */
  lemma {:induction false} FindsInPart(pat: seq<byte>, line: seq<byte>, i: nat, j: nat)
    requires i <= j <= |line| && Finds(pat, line[i..j])
    ensures Finds(pat, line)
  {
    if pat == [] {
      var k :| 0 <= k < j - i && line[i..j][k] == NUL;
      assert line[i + k] == NUL;
    } else {
      OccursInPart(pat, line, i, j);
    }
  }

  lemma {:induction false} NoHit(pat: seq<byte>, line: seq<byte>, i: nat, j: nat)
    requires i <= j <= |line| && !Finds(pat, line)
    ensures Hit(pat, line) == [] && Hit(pat, line[i..j]) == []
  {
    if Finds(pat, line[i..j]) {
      FindsInPart(pat, line, i, j);
    }
  }

  /** The first BUFSIZE bytes of a line that is longer, or as long. */
  lemma {:induction false} FirstPart(pat: seq<byte>, t: seq<byte>, e: nat, coming: seq<seq<byte>>)
    requires BUFSIZE <= e <= |t| && NEWLINE !in t[..e] && (Finds(pat, t[..e]) ==> e <= BUFSIZE)
    requires ToCome(pat, t[BUFSIZE..]) == Hit(pat, t[BUFSIZE..e]) + coming
    ensures ToCome(pat, t) == Hit(pat, t[..e]) + coming
  {
    var line := t[..e];
    assert line[0..BUFSIZE] == t[..BUFSIZE] && line[BUFSIZE..e] == t[BUFSIZE..e];
    NextPiece(pat, t, BUFSIZE);
    assert [] + coming == coming;
    if e == BUFSIZE {
      assert t[BUFSIZE..e] == [] && !Finds(pat, []);
    } else {
      NoHit(pat, line, 0, BUFSIZE);
      NoHit(pat, line, BUFSIZE, e);
    }
  }

  /** A line that fits the buffer, or in which nothing is to be found, is treated as one line. */
  lemma {:induction false} WholeLine(pat: seq<byte>, t: seq<byte>, e: nat)
    requires e <= |t| && NEWLINE !in t[..e] && (e < |t| ==> t[e] == NEWLINE)
    requires Finds(pat, t[..e]) ==> e <= BUFSIZE
    ensures ToCome(pat, t) == Hit(pat, t[..e]) + ToCome(pat, After(t, e))
    decreases e
  {
    if e < BUFSIZE {
      NextPiece(pat, t, e);
    } else {
      var u := t[BUFSIZE..];
      assert u[..e - BUFSIZE] == t[BUFSIZE..e] == t[..e][BUFSIZE..e];
      assert After(u, e - BUFSIZE) == After(t, e);
      if Finds(pat, u[..e - BUFSIZE]) {
        FindsInPart(pat, t[..e], BUFSIZE, e);
      }
      WholeLine(pat, u, e - BUFSIZE);
      FirstPart(pat, t, e, ToCome(pat, After(t, e)));
    }
  }

  lemma {:induction false} PrintableIs(pat: seq<byte>, lines: seq<seq<byte>>)
    ensures Printable(pat, lines) <==>
      forall line :: line in lines && Occurs(pat, line) ==>
        |line| <= 1024 && if pat == [] then 0 in line else pat[0] < 128
  {
  }

  /** Every line in which the pattern occurs is found and fits the buffer. */
  ghost predicate Printable(pat: seq<byte>, lines: seq<seq<byte>>) {
    forall line :: line in lines && Occurs(pat, line) ==> Finds(pat, line) && |line| <= BUFSIZE
  }

  lemma {:induction false} PiecesAreShort(t: seq<byte>)
    ensures forall p :: p in Pieces(t) ==> |p| <= BUFSIZE
    decreases |t|
  {
    if t == [] {
    } else {
      var e := Cut(t, BUFSIZE);
      if e < |t| {
        PiecesAreShort(t[if t[e] == NEWLINE && e < BUFSIZE then e + 1 else e..]);
      }
    }
  }

  lemma {:induction false} MatchingMembers(pat: seq<byte>, lines: seq<seq<byte>>, line: seq<byte>)
    ensures line in Matching(pat, lines) <==> line in lines && Occurs(pat, line)
  {
    if lines == [] {
    } else {
      MatchingMembers(pat, lines[1..], line);
      assert line in lines <==> line == lines[0] || line in lines[1..];
    }
  }

  lemma {:induction false} SelectedMembers(pat: seq<byte>, lines: seq<seq<byte>>, line: seq<byte>)
    ensures line in Selected(pat, lines) <==> line in lines && Finds(pat, line)
  {
    if lines == [] {
    } else {
      SelectedMembers(pat, lines[1..], line);
      assert line in lines <==> line == lines[0] || line in lines[1..];
    }
  }

  /** What is found occurs. */
  lemma {:induction false} FoundOccurs(pat: seq<byte>, line: seq<byte>)
    requires Finds(pat, line)
    ensures Occurs(pat, line)
  {
    if pat == [] {
      assert OccursAt(pat, line, 0);
    }
  }

  lemma {:induction false} MatchingFirst(pat: seq<byte>, line: seq<byte>, lines: seq<seq<byte>>)
    requires Finds(pat, line) <==> Occurs(pat, line)
    ensures Matching(pat, [line] + lines) == Hit(pat, line) + Matching(pat, lines)
  {
    assert ([line] + lines)[1..] == lines;
  }

  /** The lines of a text: the first one, and those behind it. */
  lemma {:induction false} LinesFirst(t: seq<byte>, e: nat)
    requires t != [] && e == Cut(t, |t|)
    ensures Lines(t) == [t[..e]] + Lines(After(t, e))
  {
    if e == |t| {
      assert t[..e] == t && After(t, e) == [] && [t] + [] == [t];
    }
  }

  lemma {:induction false} PrintableIsExact(pat: seq<byte>, t: seq<byte>)
    requires Printable(pat, Lines(t))
    ensures ToCome(pat, t) == Matching(pat, Lines(t))
    decreases |t|
  {
    if t == [] {
    } else {
      var e := Cut(t, |t|);
      var line, rest := t[..e], After(t, e);
      LinesFirst(t, e);
      assert line in Lines(t) && forall l :: l in Lines(rest) ==> l in Lines(t);
      if Finds(pat, line) {
        FoundOccurs(pat, line);
      }
      WholeLine(pat, t, e);
      MatchingFirst(pat, line, Lines(rest));
      PrintableIsExact(pat, rest);
    }
  }

  /**
   * The search prints exactly the lines of the file in which the pattern occurs,
   * once each and in order, if and only if each of these lines has at most BUFSIZE
   * bytes and is found: the pattern starts with an ASCII character, or it is empty and the
   * line holds a NUL.
   */
  lemma {:induction false} PrintsMatchingLines(pat: seq<byte>, file: seq<byte>)
    ensures Selected(pat, Pieces(file)) == Matching(pat, Lines(file)) <==> Printable(pat, Lines(file))
  {
    if Printable(pat, Lines(file)) {
      PrintableIsExact(pat, file);
    } else {
      var line :| line in Lines(file) && Occurs(pat, line) && !(Finds(pat, line) && |line| <= BUFSIZE);
      MatchingMembers(pat, Lines(file), line);
      PiecesAreShort(file);
      SelectedMembers(pat, Pieces(file), line);
    }
  }

  /** A line of BUFSIZE + 1 bytes that ends in the pattern "xx" is not printed. */
  lemma {:induction false} LongLineIsLost(file: seq<byte>)
    requires file == seq(BUFSIZE - 1, i => 'a' as int) + ['x' as int, 'x' as int]
    ensures Matching(['x' as int, 'x' as int], Lines(file)) == [file]
    ensures Selected(['x' as int, 'x' as int], Pieces(file)) == []
  {
    var pat: seq<byte> := ['x' as int, 'x' as int];
    CutIs(file, |file|, |file|);
    assert OccursAt(pat, file, BUFSIZE - 1);
    assert Lines(file) == [file] && Lines(file)[1..] == [];
    var head, tail := file[..BUFSIZE], file[BUFSIZE..];
    NextPiece(pat, file, BUFSIZE);
    NextPiece(pat, tail, 1);
    assert tail[1..] == [];
    forall i ensures !OccursAt(pat, head, i) {
      if 0 <= i && i + 2 <= |head| {
        assert head[i..i + 2][0] == head[i] == 'a' as int;
      }
    }
  }

  // ---------------------------------------------------------------- a newline behind the buffer

  /** The line around position n. */
  function LineAt(t: seq<byte>, n: nat): seq<byte>
    requires n <= |t|
  {
    t[LineStart(t, n)..n + Cut(t[n..], |t| - n)]
  }

  /** With a newline behind the buffer, the lines in which the pattern occurs are selected, and nothing else. */
  ghost predicate StaleExact(pat: seq<byte>, t: seq<byte>) {
    Selected(pat, StalePieces(t)) == Matching(pat, Lines(t))
  }

  /** The pattern occurs in a line that the newline behind the buffer cuts in two. */
  ghost predicate CutsMatch(pat: seq<byte>, t: seq<byte>) {
    |t| > BUFSIZE
    && if t[BUFSIZE - 1] == NEWLINE then CutsMatch(pat, t[BUFSIZE..])
       else t[BUFSIZE] != NEWLINE && Finds(pat, LineAt(t, BUFSIZE))
  }

  /** The first element in front of two lists, one of which goes on. */
  lemma {:induction false} JoinStep(first: seq<seq<byte>>, a: seq<seq<byte>>, b: seq<seq<byte>>, ab: seq<seq<byte>>)
    requires ab == a + b
    ensures first + ab == first + a + b
  {
  }

  lemma {:induction false} PieceOfBoth(pat: seq<byte>, x: seq<byte>, y: seq<byte>)
    returns (x': seq<byte>, hit: seq<seq<byte>>)
    requires x != [] && x[|x| - 1] == NEWLINE
    ensures |x'| < |x| && (x' == [] || x'[|x'| - 1] == NEWLINE)
    ensures ToCome(pat, x) == hit + ToCome(pat, x') && ToCome(pat, x + y) == hit + ToCome(pat, x' + y)
  {
    var e := Cut(x, BUFSIZE);
    var i := if e < BUFSIZE then e + 1 else e;
    x', hit := x[i..], Hit(pat, x[..e]);
    PieceEnds(x, y, e, i);
    PieceAt(pat, x, e, i);
    PieceAt(pat, x + y, e, i);
  }

  lemma {:induction false} PieceAt(pat: seq<byte>, t: seq<byte>, e: nat, i: nat)
    requires e < |t| && e <= BUFSIZE && NEWLINE !in t[..e] && (e < BUFSIZE ==> t[e] == NEWLINE)
    requires i == if e < BUFSIZE then e + 1 else e
    ensures ToCome(pat, t) == Hit(pat, t[..e]) + ToCome(pat, t[i..])
  {
    NextPiece(pat, t, e);
  }

  lemma {:induction false} PieceEnds(x: seq<byte>, y: seq<byte>, e: nat, i: nat)
    requires x != [] && x[|x| - 1] == NEWLINE && e == Cut(x, BUFSIZE) && i == if e < BUFSIZE then e + 1 else e
    ensures e < |x| && e <= BUFSIZE && NEWLINE !in x[..e] && (e < BUFSIZE ==> x[e] == (x + y)[e] == NEWLINE)
    ensures (x + y)[..e] == x[..e] && (x + y)[i..] == x[i..] + y && (x[i..] == [] || x[i..][|x[i..]| - 1] == NEWLINE)
  {
  }

  lemma {:induction false} NoneToCome(pat: seq<byte>, x: seq<byte>, y: seq<byte>)
    requires x == []
    ensures ToCome(pat, x + y) == ToCome(pat, x) + ToCome(pat, y)
  {
    assert x + y == y && ToCome(pat, x) == [] && [] + ToCome(pat, y) == ToCome(pat, y);
  }

  /** Text behind a newline is treated by itself. */
  lemma {:induction false} ToComeSplit(pat: seq<byte>, x: seq<byte>, y: seq<byte>)
    requires x == [] || x[|x| - 1] == NEWLINE
    ensures ToCome(pat, x + y) == ToCome(pat, x) + ToCome(pat, y)
    decreases |x|
  {
    if x == [] {
      NoneToCome(pat, x, y);
    } else {
      var x', hit := PieceOfBoth(pat, x, y);
      ToComeSplit(pat, x', y);
      JoinStep(hit, ToCome(pat, x'), ToCome(pat, y), ToCome(pat, x' + y));
    }
  }

  lemma {:induction false} FirstOfBoth(x: seq<byte>, y: seq<byte>, e: nat)
    requires x != [] && x[|x| - 1] == NEWLINE && e == Cut(x, |x|)
    ensures e < |x| && Cut(x + y, |x + y|) == e && (x + y)[..e] == x[..e] && After(x + y, e) == After(x, e) + y
  {
    var t := x + y;
    assert e < |x| && t[e] == x[e];
    CutIs(t, |t|, e);
  }

  lemma {:induction false} LineOfBoth(x: seq<byte>, y: seq<byte>) returns (x': seq<byte>, line: seq<byte>)
    requires x != [] && x[|x| - 1] == NEWLINE
    ensures |x'| < |x| && (x' == [] || x'[|x'| - 1] == NEWLINE)
    ensures Lines(x) == [line] + Lines(x') && Lines(x + y) == [line] + Lines(x' + y)
  {
    var e := Cut(x, |x|);
    x', line := After(x, e), x[..e];
    FirstOfBoth(x, y, e);
    LinesFirst(x, e);
    LinesFirst(x + y, e);
  }

  lemma {:induction false} LinesSplit(x: seq<byte>, y: seq<byte>)
    requires x == [] || x[|x| - 1] == NEWLINE
    ensures Lines(x + y) == Lines(x) + Lines(y)
    decreases |x|
  {
    if x == [] {
      assert x + y == y && [] + Lines(y) == Lines(y);
    } else {
      var x', line := LineOfBoth(x, y);
      LinesSplit(x', y);
      JoinStep([line], Lines(x'), Lines(y), Lines(x' + y));
    }
  }

  /** The two parts of a line that is cut in two, as hits. */
  lemma {:induction false} CutHits(pat: seq<byte>, a: seq<byte>, b: seq<byte>)
    requires a != []
    ensures Hit(pat, a) + Hit(pat, b) == Hit(pat, a + b) <==> b == [] || !Finds(pat, a + b)
  {
    var line := a + b;
    assert line[0..|a|] == a && line[|a|..|line|] == b;
    if b == [] {
      assert a + b == a && !Finds(pat, b) && Hit(pat, a) + [] == Hit(pat, a);
    } else if !Finds(pat, line) {
      NoHit(pat, line, 0, |a|);
      NoHit(pat, line, |a|, |line|);
    } else {
      var hits := Hit(pat, a) + Hit(pat, b);
      assert forall h :: h in hits ==> h == a || h == b;
      assert line !in hits && line in [line];
    }
  }

  lemma {:induction false} SameEnds(p: seq<seq<byte>>, x: seq<seq<byte>>, y: seq<seq<byte>>, q: seq<seq<byte>>)
    ensures p + (x + q) == p + (y + q) <==> x == y
  {
    if p + (x + q) == p + (y + q) {
      assert (p + (x + q))[|p|..] == x + q && (p + (y + q))[|p|..] == y + q;
      assert (x + q)[..|x|] == x && (y + q)[..|y|] == y;
    }
  }

  /** The lines of a text x + a + v, where v is cut off behind a, in the middle of a line that ends in b. */
  lemma {:induction false} CutLines(x: seq<byte>, a: seq<byte>, v: seq<byte>, n: nat)
    requires (x == [] || x[|x| - 1] == NEWLINE) && a != [] && NEWLINE !in a && n == Cut(v, |v|)
    ensures Lines(x + (a + v)) == Lines(x) + ([a + v[..n]] + Lines(After(v, n)))
  {
    var u, e := a + v, |a| + n;
    CutIs(u, |u|, e);
    assert u[..e] == a + v[..n] && After(u, e) == After(v, n);
    LinesFirst(u, e);
    LinesSplit(x, u);
  }

  lemma {:induction false} RestFits(pat: seq<byte>, a: seq<byte>, b: seq<byte>)
    requires Printable(pat, [a + b])
    ensures Finds(pat, b) ==> |b| <= BUFSIZE
    ensures Finds(pat, a + b) <==> Occurs(pat, a + b)
  {
    var line := a + b;
    assert line in [line] && line[|a|..|line|] == b;
    if Finds(pat, b) {
      FindsInPart(pat, line, |a|, |line|);
    }
    if Finds(pat, line) {
      FoundOccurs(pat, line);
    }
  }

  /** A text whose first full buffer x + a is cut at its end, in the middle of a line that ends in b. */
  lemma {:induction false} CutParts(pat: seq<byte>, t: seq<byte>, x: seq<byte>, a: seq<byte>, v: seq<byte>, n: nat)
    requires Printable(pat, Lines(t)) && |t| >= BUFSIZE && t[BUFSIZE - 1] != NEWLINE
    requires t[..BUFSIZE] == x + a && t[BUFSIZE..] == v && n == Cut(v, |v|)
    requires (x == [] || x[|x| - 1] == NEWLINE) && a != [] && NEWLINE !in a
    ensures StaleExact(pat, t) <==> n == 0 || !Finds(pat, a + v[..n])
  {
    var b, y := v[..n], After(v, n);
    assert t == t[..BUFSIZE] + t[BUFSIZE..] == x + (a + v);
    CutLines(x, a, v, n);
    PartsArePrintable(pat, Lines(x), [a + b] + Lines(y));
    PartsArePrintable(pat, [a + b], Lines(y));
    RestFits(pat, a, b);
    PrintableIsExact(pat, x);
    PrintableIsExact(pat, y);
    BufferParts(pat, t, x, a, v, b, y);
    MatchingAppend(pat, Lines(x), [a + b] + Lines(y));
    MatchingFirst(pat, a + b, Lines(y));
    SameEnds(Matching(pat, Lines(x)), Hit(pat, a) + Hit(pat, b), Hit(pat, a + b), Matching(pat, Lines(y)));
    CutHits(pat, a, b);
  }

  lemma {:induction false} SlicesMeet(t: seq<byte>, i: nat, j: nat, n: nat)
    requires i <= j && j + n <= |t|
    ensures t[i..j + n] == t[i..j] + t[j..][..n]
  {
  }

  /** What is cut, for a text whose first full buffer is cut at its end. */
  lemma {:induction false} CutsAt(pat: seq<byte>, t: seq<byte>, i: nat, v: seq<byte>, n: nat)
    requires |t| >= BUFSIZE && t[BUFSIZE - 1] != NEWLINE && i == LineStart(t, BUFSIZE) && v == t[BUFSIZE..] &&
      n == Cut(v, |v|)
    ensures CutsMatch(pat, t) <==> n > 0 && Finds(pat, t[i..BUFSIZE] + v[..n])
  {
    SlicesMeet(t, i, BUFSIZE, n);
    assert n > 0 <==> |t| > BUFSIZE && t[BUFSIZE] != NEWLINE;
  }

  /** A text whose first full buffer is cut at its end. */
  lemma {:induction false} CutOnce(pat: seq<byte>, t: seq<byte>)
    requires Printable(pat, Lines(t)) && |t| >= BUFSIZE && t[BUFSIZE - 1] != NEWLINE
    ensures StaleExact(pat, t) <==> !CutsMatch(pat, t)
  {
    var i, v := LineStart(t, BUFSIZE), t[BUFSIZE..];
    var n := Cut(v, |v|);
    SlicesMeet(t, 0, i, BUFSIZE - i);
    CutsAt(pat, t, i, v, n);
    CutParts(pat, t, t[..i], t[i..BUFSIZE], v, n);
  }

  lemma {:induction false} PartsArePrintable(pat: seq<byte>, a: seq<seq<byte>>, b: seq<seq<byte>>)
    ensures Printable(pat, a + b) <==> Printable(pat, a) && Printable(pat, b)
  {
    assert forall l :: l in a + b <==> l in a || l in b;
  }

  /** What the search selects of a text whose first full buffer x + a is cut at its end; b is the rest of the line. */
  lemma {:induction false} BufferParts(pat: seq<byte>, t: seq<byte>, x: seq<byte>, a: seq<byte>, v: seq<byte>,
                                       b: seq<byte>, y: seq<byte>)
    requires |t| >= BUFSIZE && t[BUFSIZE - 1] != NEWLINE
    requires t[..BUFSIZE] == x + a && t[BUFSIZE..] == v && (x == [] || x[|x| - 1] == NEWLINE)
    requires NEWLINE !in a && NEWLINE !in b && |b| <= |v| && v[..|b|] == b && (|b| < |v| ==> v[|b|] == NEWLINE) &&
      y == After(v, |b|)
    requires Finds(pat, b) ==> |b| <= BUFSIZE
    ensures Selected(pat, StalePieces(t)) == ToCome(pat, x) + (Hit(pat, a) + Hit(pat, b) + ToCome(pat, y))
  {
    StaleStep(pat, t);
    ToComeSplit(pat, x, a);
    OnePiece(pat, a);
    WholeLine(pat, v, |b|);
    Regroup(ToCome(pat, x), Hit(pat, a), Hit(pat, b), ToCome(pat, y));
  }

  lemma {:induction false} OnePiece(pat: seq<byte>, a: seq<byte>)
    requires NEWLINE !in a && |a| <= BUFSIZE
    ensures ToCome(pat, a) == Hit(pat, a)
  {
    NextPiece(pat, a, |a|);
    assert a[..|a|] == a && a[|a|..] == [] && ToCome(pat, []) == [] && Hit(pat, a) + [] == Hit(pat, a);
  }

  lemma {:induction false} Regroup(p: seq<seq<byte>>, h: seq<seq<byte>>, g: seq<seq<byte>>, q: seq<seq<byte>>)
    ensures p + h + (g + q) == p + (h + g + q)
  {
  }

  /** A pattern that can be searched, and lines that the buffer could hold. */
  lemma {:induction false} StaleIff(pat: seq<byte>, t: seq<byte>)
    requires Printable(pat, Lines(t))
    ensures StaleExact(pat, t) <==> !CutsMatch(pat, t)
    decreases |t|
  {
    StaleStep(pat, t);
    if |t| < BUFSIZE {
      PrintableIsExact(pat, t);
    } else if t[BUFSIZE - 1] != NEWLINE {
      CutOnce(pat, t);
    } else {
      var x, y := t[..BUFSIZE], t[BUFSIZE..];
      assert t == x + y;
      LinesSplit(x, y);
      PartsArePrintable(pat, Lines(x), Lines(y));
      PrintableIsExact(pat, x);
      MatchingAppend(pat, Lines(x), Lines(y));
      StaleIff(pat, y);
      var a, b, c := Matching(pat, Lines(x)), Selected(pat, StalePieces(y)), Matching(pat, Lines(y));
      assert (a + b)[|a|..] == b && (a + c)[|a|..] == c;
      assert |t| == BUFSIZE ==> y == [];
    }
  }

  lemma {:induction false} StalePiecesAreShort(t: seq<byte>)
    ensures forall p :: p in StalePieces(t) ==> |p| <= BUFSIZE
    decreases |t|
  {
    PiecesAreShort(t);
    if |t| < BUFSIZE {
    } else {
      PiecesAreShort(t[..BUFSIZE]);
      PiecesAreShort(t[BUFSIZE..]);
      StalePiecesAreShort(t[BUFSIZE..]);
    }
  }

  /**
   * With a newline behind the buffer at the start, the search prints exactly the lines of
   * the file in which the pattern occurs if and only if it would without it and the
   * pattern does not occur in the line that is cut.
   */
  lemma {:induction false} StalePrintsMatchingLines(pat: seq<byte>, file: seq<byte>)
    ensures StaleExact(pat, file)
      <==> Printable(pat, Lines(file)) && !CutsMatch(pat, file)
  {
    if Printable(pat, Lines(file)) {
      StaleIff(pat, file);
    } else {
      var line :| line in Lines(file) && Occurs(pat, line) && !(Finds(pat, line) && |line| <= BUFSIZE);
      MatchingMembers(pat, Lines(file), line);
      StalePiecesAreShort(file);
      SelectedMembers(pat, StalePieces(file), line);
    }
  }

  /**
   * What do_one_file selects of a file that is carried over as it is, those without NULs
   * among them, is the lines in which the pattern occurs, under exactly these conditions.
   */
  lemma {:induction false} SelectsMatchingLinesIff(pat: seq<byte>, file: seq<byte>, stale: bool, closed: bool)
    requires Intact(file, stale, closed) && (closed ==> |file| < BUFSIZE)
    ensures Selected(pat, Viewed(file, stale, closed)) == Matching(pat, Lines(file)) <==>
      && (forall line :: line in Lines(file) && Occurs(pat, line) ==>
        |line| <= 1024 && if pat == [] then 0 in line else pat[0] < 128)
      && (stale ==> !CutsMatch(pat, file))
  {
    PrintableIs(pat, Lines(file));
    IntactIsSeen(pat, file, stale, closed);
    if stale {
      StalePrintsMatchingLines(pat, file);
    } else {
      PrintsMatchingLines(pat, file);
    }
  }

  lemma {:induction false} EmptyLineFirst(line: seq<byte>)
    requires NEWLINE !in line && line != []
    ensures Lines([NEWLINE] + line) == [[], line]
  {
    LinesSplit([NEWLINE], line);
    CutIs([NEWLINE], 1, 0);
    CutIs(line, |line|, |line|);
    assert [NEWLINE][1..] == [] && Lines([NEWLINE]) == [[]] && Lines(line) == [line];
  }

  lemma {:induction false} SecondLineIsCut(file: seq<byte>, line: seq<byte>, pat: seq<byte>)
    requires file == [NEWLINE] + line && NEWLINE !in line && |line| == BUFSIZE && Finds(pat, line)
    ensures CutsMatch(pat, file)
  {
    var i := LineStart(file, BUFSIZE);
    assert forall k :: 1 <= k < |file| ==> file[k] == line[k - 1];
    assert file[0] in file[0..BUFSIZE];
    assert i == 1;
    CutIs(file[BUFSIZE..], 1, 1);
    assert LineAt(file, BUFSIZE) == line;
  }

  lemma {:induction false} EndsInXx(line: seq<byte>, pat: seq<byte>)
    requires line == seq(BUFSIZE - 2, i => 'a' as int) + ['x' as int, 'x' as int] && pat == ['x' as int, 'x' as int]
    ensures |line| == BUFSIZE && NEWLINE !in line && Searchable(pat) && Finds(pat, line)
  {
    assert OccursAt(pat, line, BUFSIZE - 2);
  }

  /**
   * An empty line and one of 1024 bytes that ends in "xx": found without a newline behind
   * the buffer, lost with one.
   */
  lemma {:induction false} StaleNewlineLoses(line: seq<byte>, pat: seq<byte>)
    requires line == seq(BUFSIZE - 2, i => 'a' as int) + ['x' as int, 'x' as int] && pat == ['x' as int, 'x' as int]
    ensures var file := [NEWLINE] + line;
      Selected(pat, Pieces(file)) == Matching(pat, Lines(file)) && !StaleExact(pat, file)
  {
    EndsInXx(line, pat);
    CutLineLoses(line, pat);
  }

  lemma {:induction false} CutLineLoses(line: seq<byte>, pat: seq<byte>)
    requires |line| == BUFSIZE && NEWLINE !in line && Searchable(pat) && Finds(pat, line)
    ensures var file := [NEWLINE] + line;
      Selected(pat, Pieces(file)) == Matching(pat, Lines(file)) && !StaleExact(pat, file)
  {
    var file: seq<byte> := [NEWLINE] + line;
    EmptyLineFirst(line);
    assert forall l :: l in Lines(file) ==> |l| <= BUFSIZE;
    PrintsMatchingLines(pat, file);
    SecondLineIsCut(file, line, pat);
    StaleIff(pat, file);
  }

  // ---------------------------------------------------------------- ordinary files

  /**
   * A file without NULs, of lines of at most 1024 bytes, and a pattern that starts with a
   * 7-bit character: what is printed is the lines in which the pattern occurs.
   */
  lemma {:induction false} OrdinaryFile(pat: seq<byte>, file: seq<byte>, closed: bool)
    requires 0 !in file && (forall line :: line in Lines(file) ==> |line| <= 1024)
    requires pat != [] && pat[0] < 128 && (closed ==> |file| < 1024)
    ensures Selected(pat, Viewed(file, false, closed)) == Matching(pat, Lines(file))
  {
    NoNulIsIntact(file, false, closed);
    SelectsMatchingLinesIff(pat, file, false, closed);
  }

  /** Of no file anything is printed for a pattern that starts with another character. */
  lemma {:induction false} HighPattern(pat: seq<byte>, lines: seq<seq<byte>>)
    requires pat != [] && pat[0] >= 128
    ensures Selected(pat, lines) == []
  {
    if lines == [] {
    } else {
      HighPattern(pat, lines[1..]);
    }
  }

  /** The empty pattern selects the lines that hold a NUL, so none of a file without one. */
  lemma {:induction false} EmptyPattern(lines: seq<seq<byte>>, line: seq<byte>)
    ensures line in Selected([], lines) <==> line in lines && 0 in line
  {
    SelectedMembers([], lines, line);
  }

  /** The newline at the end of a text, if there is one. */
  function Ending(t: seq<byte>): seq<byte> { if t != [] && t[|t| - 1] == 10 then [10] else [] }

  ghost predicate Rejoins(t: seq<byte>) { t == Unlines(Lines(t)) + Ending(t) }

  lemma {:induction false} NoNewlineInLines(t: seq<byte>)
    ensures forall line :: line in Lines(t) ==> 10 !in line
    decreases |t|
  {
    if t == [] {
    } else {
      var e := Cut(t, |t|);
      LinesFirst(t, e);
      NoNewlineInLines(After(t, e));
      assert 10 !in t[..e];
    }
  }

  /** The lines hold no newline, and make up the text again, but for a newline at its end. */
  lemma {:induction false} LinesJoin(t: seq<byte>)
    ensures forall line :: line in Lines(t) ==> 10 !in line
    ensures t == Unlines(Lines(t)) + Ending(t)
  {
    NoNewlineInLines(t);
    LinesRejoin(t);
  }

  lemma {:induction false} LinesRejoin(t: seq<byte>)
    ensures Rejoins(t)
    decreases |t|
  {
    if t == [] {
    } else {
      var e := Cut(t, |t|);
      LinesRejoin(After(t, e));
      RejoinFirst(t, e);
    }
  }

  lemma {:induction false} RejoinFirst(t: seq<byte>, e: nat)
    requires t != [] && e == Cut(t, |t|) && Rejoins(After(t, e))
    ensures Rejoins(t)
  {
    var first, rest := t[..e], After(t, e);
    LinesFirst(t, e);
    TextAround(t, e);
    if rest != [] {
      LinesSome(rest);
    }
    JoinedLines(t, first, rest, Lines(rest));
  }

  lemma {:induction false} TextAround(t: seq<byte>, e: nat)
    requires t != [] && e == Cut(t, |t|)
    ensures if e == |t| then t == t[..e] && After(t, e) == [] && Ending(t) == [] else t == t[..e] + [10] + After(t, e)
  {
  }

  lemma {:induction false} JoinedLines(t: seq<byte>, first: seq<byte>, rest: seq<byte>, lines: seq<seq<byte>>)
    requires rest == Unlines(lines) + Ending(rest) && (rest == [] <==> lines == [])
    requires (t == first && rest == [] && Ending(t) == []) || t == first + [10] + rest
    ensures t == Unlines([first] + lines) + Ending(t)
  {
    UnlinesFirst(first, lines);
    if t == first + [10] + rest {
      JoinFirst(t, first, rest, Unlines(lines));
    }
  }

  lemma {:induction false} JoinFirst(t: seq<byte>, first: seq<byte>, u: seq<byte>, lines: seq<byte>)
    requires t == first + [10] + u && u == lines + Ending(u)
    ensures u == [] ==> t == first + Ending(t)
    ensures u != [] ==> t == first + [10] + lines + Ending(t)
  {
    if u == [] {
      assert t == first + [10];
    } else {
      assert t[|t| - 1] == u[|u| - 1];
    }
  }

  lemma {:induction false} LinesSome(t: seq<byte>)
    requires t != []
    ensures Lines(t) != []
  {
  }

  /** What is printed for a line: all of it, or what stands before its first NUL. */
  lemma {:induction false} ReportIs(fname: seq<byte>, a: seq<byte>, b: seq<byte>)
    requires 0 !in a
    ensures LineReport(fname, a) == fname + Ascii(":") + a + Ascii("\n")
    ensures LineReport(fname, a + [0] + b) == fname + Ascii(":") + a + Ascii("\n")
  {
    NoNul(a);
    assert Ascii(":") == [58] && Ascii("\n") == [10] && a[..|a|] == a;
    var line := a + [0] + b;
    assert forall k :: 0 <= k < |a| ==> line[k] == a[k];
    assert line[|a|] == 0;
    assert line[..|a|] == a;
  }
}
