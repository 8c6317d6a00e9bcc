/** add_frames of fish/fish.c: two text frames, read byte by byte in step, become additions to the blink list. */
module Frames {
  import opened Bytes

  const OFFSET := 40

  /** A cell of the frames and its two characters. */
  datatype Addition = Addition(row: nat, col: nat, onChar: byte, offChar: byte)

  /** What RTC_ADD gets: the 16-bit location field and the two characters. */
  datatype Request = Request(location: nat, onChar: byte, offChar: byte)

  /** The location of a cell, in 16 bits. */
  function Location(row: nat, col: nat): nat { (row * COLUMNS + col + OFFSET) % U16 }

  function RequestOf(a: Addition): Request { Request(Location(a.row, a.col), a.onChar, a.offChar) }

  function Requests(adds: seq<Addition>): (reqs: seq<Request>)
    ensures |reqs| == |adds| && forall i :: 0 <= i < |adds| ==> reqs[i] == RequestOf(adds[i])
  {
    seq(|adds|, i requires 0 <= i < |adds| => RequestOf(adds[i]))
  }

  lemma {:induction false} RequestsAppend(a: seq<Addition>, b: seq<Addition>)
    ensures Requests(a + b) == Requests(a) + Requests(b)
  {
  }

  // ---------------------------------------------------------------- reference

  /** The first line of a text, without its newline. */
  function FirstLine(t: seq<byte>): (l: seq<byte>)
    ensures |l| <= |t| && l == t[..|l|] && NEWLINE !in l
    ensures |l| < |t| ==> t[|l|] == NEWLINE
  {
    if t == [] || t[0] == NEWLINE then [] else [t[0]] + FirstLine(t[1..])
  }

  /** The rows of a frame: its lines, the last of them ended by the end of the file, perhaps empty. */
  function Rows(t: seq<byte>): (rows: seq<seq<byte>>)
    ensures rows != []
    decreases |t|
  {
    var l := FirstLine(t);
    [l] + if |l| < |t| then Rows(t[|l| + 1..]) else []
  }

  /** Row r of a frame, empty behind its end. */
  function Row(rows: seq<seq<byte>>, r: nat): seq<byte> { if r < |rows| then rows[r] else [] }

  /** The character of a column, a space behind the end of the row. */
  function CharAt(l: seq<byte>, c: nat): byte { if c < |l| then l[c] else SPACE }

  function Max(a: nat, b: nat): nat { if a < b then b else a }

  predicate Blank(l0: seq<byte>, l1: seq<byte>, c: nat) { CharAt(l0, c) == SPACE && CharAt(l1, c) == SPACE }

  /** The additions for row r, from column c on. */
  function RowAdditions(r: nat, l0: seq<byte>, l1: seq<byte>, c: nat): seq<Addition>
    decreases Max(|l0|, |l1|) - c
  {
    if c >= Max(|l0|, |l1|) then []
    else CellAdditions(r, l0, l1, c) + RowAdditions(r, l0, l1, c + 1)
  }

  /** The addition for one cell, none for a cell that is blank in both frames. */
  function CellAdditions(r: nat, l0: seq<byte>, l1: seq<byte>, c: nat): seq<Addition> {
    if Blank(l0, l1, c) then [] else [Addition(r, c, CharAt(l0, c), CharAt(l1, c))]
  }

  /** The additions for two frames, from row r on. */
  function FrameAdditions(rows0: seq<seq<byte>>, rows1: seq<seq<byte>>, r: nat): seq<Addition>
    decreases Max(|rows0|, |rows1|) - r
  {
    if r >= Max(|rows0|, |rows1|) then []
    else RowAdditions(r, Row(rows0, r), Row(rows1, r), 0) + FrameAdditions(rows0, rows1, r + 1)
  }

  // ---------------------------------------------------------------- what the additions are

  /** This addition is due: it is the one of its cell, and the cell is not blank in both frames. */
  ghost predicate Due(rows0: seq<seq<byte>>, rows1: seq<seq<byte>>, a: Addition) {
    var l0, l1 := Row(rows0, a.row), Row(rows1, a.row);
    !Blank(l0, l1, a.col) && a.onChar == CharAt(l0, a.col) && a.offChar == CharAt(l1, a.col)
  }

  predicate Before(a: Addition, b: Addition) { a.row < b.row || (a.row == b.row && a.col < b.col) }

  /** In row-major order, so no row and column twice. */
  ghost predicate InOrder(s: seq<Addition>) {
    forall i, j :: 0 <= i < j < |s| ==> Before(s[i], s[j])
  }

  lemma {:induction false} InEither(a: Addition, x: seq<Addition>, y: seq<Addition>)
    ensures a in x + y <==> a in x || a in y
  {
  }

  /** The addition is found from column c of row r on exactly when it is that of a cell that is not blank. */
  ghost predicate FoundInRow(r: nat, l0: seq<byte>, l1: seq<byte>, c: nat, a: Addition) {
    a in RowAdditions(r, l0, l1, c) <==>
      && a.row == r && a.col >= c && !Blank(l0, l1, a.col)
      && a.onChar == CharAt(l0, a.col) && a.offChar == CharAt(l1, a.col)
  }

  lemma {:induction false} OneCellMore(r: nat, l0: seq<byte>, l1: seq<byte>, c: nat, a: Addition)
    requires c < Max(|l0|, |l1|) && FoundInRow(r, l0, l1, c + 1, a)
    ensures FoundInRow(r, l0, l1, c, a)
  {
    InEither(a, CellAdditions(r, l0, l1, c), RowAdditions(r, l0, l1, c + 1));
  }

  lemma {:induction false} NoCellsLeft(r: nat, l0: seq<byte>, l1: seq<byte>, c: nat, a: Addition)
    requires c >= Max(|l0|, |l1|)
    ensures FoundInRow(r, l0, l1, c, a)
  {
  }

  lemma {:induction false} RowMembers(r: nat, l0: seq<byte>, l1: seq<byte>, c: nat, a: Addition)
    ensures FoundInRow(r, l0, l1, c, a)
    decreases Max(|l0|, |l1|) - c
  {
    if c >= Max(|l0|, |l1|) {
      NoCellsLeft(r, l0, l1, c, a);
    } else {
      RowMembers(r, l0, l1, c + 1, a);
      OneCellMore(r, l0, l1, c, a);
    }
  }

  lemma {:induction false} RowInOrder(r: nat, l0: seq<byte>, l1: seq<byte>, c: nat)
    ensures var s := RowAdditions(r, l0, l1, c);
      InOrder(s) && forall k :: 0 <= k < |s| ==> s[k].row == r && s[k].col >= c
    decreases Max(|l0|, |l1|) - c
  {
    if c >= Max(|l0|, |l1|) {
    } else {
      RowInOrder(r, l0, l1, c + 1);
    }
  }

  /** The addition is found from row r on exactly when it is due. */
  ghost predicate FoundIffDue(rows0: seq<seq<byte>>, rows1: seq<seq<byte>>, r: nat, a: Addition) {
    a in FrameAdditions(rows0, rows1, r) <==> a.row >= r && Due(rows0, rows1, a)
  }

  lemma {:induction false} NoRowsLeft(rows0: seq<seq<byte>>, rows1: seq<seq<byte>>, r: nat, a: Addition)
    requires r >= Max(|rows0|, |rows1|)
    ensures FoundIffDue(rows0, rows1, r, a)
  {
  }

  lemma {:induction false} OneRowMore(rows0: seq<seq<byte>>, rows1: seq<seq<byte>>, r: nat, a: Addition)
    requires r < Max(|rows0|, |rows1|) && FoundIffDue(rows0, rows1, r + 1, a)
    ensures FoundIffDue(rows0, rows1, r, a)
  {
    RowMembers(r, Row(rows0, r), Row(rows1, r), 0, a);
    InEither(a, RowAdditions(r, Row(rows0, r), Row(rows1, r), 0), FrameAdditions(rows0, rows1, r + 1));
  }

  /** Exactly the cells in which some frame has a character other than a space get an addition. */
  lemma {:induction false} AdditionsAreDue(rows0: seq<seq<byte>>, rows1: seq<seq<byte>>, r: nat, a: Addition)
    ensures FoundIffDue(rows0, rows1, r, a)
    decreases Max(|rows0|, |rows1|) - r
  {
    if r >= Max(|rows0|, |rows1|) {
      NoRowsLeft(rows0, rows1, r, a);
    } else {
      AdditionsAreDue(rows0, rows1, r + 1, a);
      OneRowMore(rows0, rows1, r, a);
    }
  }

  /** The additions come in row-major order, so no row and column gets two. */
  lemma {:induction false} AdditionsInOrder(rows0: seq<seq<byte>>, rows1: seq<seq<byte>>, r: nat)
    ensures var s := FrameAdditions(rows0, rows1, r);
      InOrder(s) && forall k :: 0 <= k < |s| ==> s[k].row >= r
    decreases Max(|rows0|, |rows1|) - r
  {
    if r >= Max(|rows0|, |rows1|) {
    } else {
      RowInOrder(r, Row(rows0, r), Row(rows1, r), 0);
      AdditionsInOrder(rows0, rows1, r + 1);
    }
  }

  // ---------------------------------------------------------------- where the additions go

  /** Some frame has a character other than a space in this row and column. */
  predicate Marked(rows0: seq<seq<byte>>, rows1: seq<seq<byte>>, r: nat, c: nat) {
    !Blank(Row(rows0, r), Row(rows1, r), c)
  }

  function AdditionAt(rows0: seq<seq<byte>>, rows1: seq<seq<byte>>, r: nat, c: nat): Addition {
    Addition(r, c, CharAt(Row(rows0, r), c), CharAt(Row(rows1, r), c))
  }

  /** A frame shows a space behind the end of a row and below the last one; a cell is marked if one frame shows more. */
  lemma {:induction false} CellsAre(rows0: seq<seq<byte>>, rows1: seq<seq<byte>>, r: nat, c: nat)
    ensures CharAt(Row(rows0, r), c) == if r < |rows0| && c < |rows0[r]| then rows0[r][c] else 32
    ensures Marked(rows0, rows1, r, c) <==>
      (r < |rows0| && c < |rows0[r]| && rows0[r][c] != 32) || (r < |rows1| && c < |rows1[r]| && rows1[r][c] != 32)
  {
  }

  /**
   * The i-th request is that of the i-th marked cell, row by row: for the 16-bit location 40
   * cells behind its row and column, with the characters of the two frames.
   */
  lemma {:induction false} RequestsAre(rows0: seq<seq<byte>>, rows1: seq<seq<byte>>, i: nat)
    requires i < |FrameAdditions(rows0, rows1, 0)|
    ensures var adds := FrameAdditions(rows0, rows1, 0);
      var r, c := adds[i].row, adds[i].col;
      && Requests(adds)[i] == Request((80 * r + c + 40) % 65536, CharAt(Row(rows0, r), c), CharAt(Row(rows1, r), c))
      && Marked(rows0, rows1, r, c)
  {
    var adds := FrameAdditions(rows0, rows1, 0);
    assert adds[i] in adds;
    AdditionsAreDue(rows0, rows1, 0, adds[i]);
  }

  /** The rows hold no newline, and with newlines between them they are the file. */
  lemma {:induction false} RowsJoin(t: seq<byte>)
    ensures Unlines(Rows(t)) == t && forall row :: row in Rows(t) ==> 10 !in row
    decreases |t|
  {
    var l := FirstLine(t);
    if |l| < |t| {
      var u := t[|l| + 1..];
      RowsJoin(u);
      FirstRowJoins(t, l, u, Rows(u));
    } else {
      FirstRowJoins(t, l, [], []);
    }
  }

  lemma {:induction false} FirstRowJoins(t: seq<byte>, l: seq<byte>, u: seq<byte>, rest: seq<seq<byte>>)
    requires (rest == [] && t == l) || (rest != [] && |l| < |t| && t[..|l|] == l && t[|l|] == 10 && t[|l| + 1..] == u)
    requires Unlines(rest) == u && 10 !in l && forall row :: row in rest ==> 10 !in row
    ensures Unlines([l] + rest) == t && forall row :: row in [l] + rest ==> 10 !in row
  {
    UnlinesFirst(l, rest);
    if rest != [] {
      assert t == l + [10] + u;
    }
  }

  /** No two requests are for one location. */
  ghost predicate Apart(reqs: seq<Request>) {
    forall i, j :: 0 <= i < j < |reqs| ==> reqs[i].location != reqs[j].location
  }

  /** How many cells, in rows of 80, the second cell lies behind the first. */
  function Distance(r: nat, c: nat, r': nat, c': nat): int { COLUMNS * (r' - r) + (c' - c) }

  /** Two cells have one location exactly when they lie a multiple of 65536 cells apart. */
  lemma {:induction false} SameLocationIff(r: nat, c: nat, r': nat, c': nat)
    ensures Location(r, c) == Location(r', c') <==> Distance(r, c, r', c') % U16 == 0
  {
    SameRemainderIff(r * COLUMNS + c + OFFSET, r' * COLUMNS + c' + OFFSET);
  }

  lemma {:induction false} SameRemainderIff(v: nat, w: nat)
    ensures v % U16 == w % U16 <==> (w - v) % U16 == 0
  {
    assert v == U16 * (v / U16) + v % U16 && w == U16 * (w / U16) + w % U16;
  }

  /**
   * No two cells with a character in them lie a multiple of 65536 cells apart: for frames
   * of less than that, no two with the second 80 columns back for each row that it is on.
   */
  ghost predicate CellsApart(rows0: seq<seq<byte>>, rows1: seq<seq<byte>>) {
    forall r: nat, c: nat, r': nat, c': nat ::
      Marked(rows0, rows1, r, c) && Marked(rows0, rows1, r', c') && Distance(r, c, r', c') % U16 == 0
      ==> r == r' && c == c'
  }

  /** A marked cell has its request. */
  lemma {:induction false} RequestAt(rows0: seq<seq<byte>>, rows1: seq<seq<byte>>, r: nat, c: nat) returns (i: nat)
    requires Marked(rows0, rows1, r, c)
    ensures var adds := FrameAdditions(rows0, rows1, 0);
      i < |adds| && adds[i].row == r && adds[i].col == c && Requests(adds)[i].location == Location(r, c)
  {
    var adds, a := FrameAdditions(rows0, rows1, 0), AdditionAt(rows0, rows1, r, c);
    AdditionsAreDue(rows0, rows1, 0, a);
    i :| 0 <= i < |adds| && adds[i] == a;
  }

  /** The location of a cell lies 40 cells behind it, in 16 bits. */
  lemma {:induction false} LocationIs(r: nat, c: nat)
    ensures Location(r, c) == (80 * r + c + 40) % 65536
  {
  }

  /** A marked cell is asked for. */
  lemma {:induction false} CellIsAsked(rows0: seq<seq<byte>>, rows1: seq<seq<byte>>, r: nat, c: nat)
    requires Marked(rows0, rows1, r, c)
    ensures RequestOf(AdditionAt(rows0, rows1, r, c)) in Requests(FrameAdditions(rows0, rows1, 0))
  {
    var adds, a := FrameAdditions(rows0, rows1, 0), AdditionAt(rows0, rows1, r, c);
    AdditionsAreDue(rows0, rows1, 0, a);
    var i :| 0 <= i < |adds| && adds[i] == a;
    assert Requests(adds)[i] == RequestOf(a);
  }

  /** A request has its marked cell. */
  lemma {:induction false} CellOf(rows0: seq<seq<byte>>, rows1: seq<seq<byte>>, i: nat)
    requires i < |FrameAdditions(rows0, rows1, 0)|
    ensures var adds := FrameAdditions(rows0, rows1, 0);
      Marked(rows0, rows1, adds[i].row, adds[i].col) && Requests(adds)[i].location == Location(adds[i].row, adds[i].col)
  {
    var adds := FrameAdditions(rows0, rows1, 0);
    assert adds[i] in adds;
    AdditionsAreDue(rows0, rows1, 0, adds[i]);
  }

  /** The locations that are asked for are pairwise distinct if and only if the cells' are. */
  lemma {:induction false} LocationsApartIff(rows0: seq<seq<byte>>, rows1: seq<seq<byte>>)
    ensures Apart(Requests(FrameAdditions(rows0, rows1, 0))) <==> CellsApart(rows0, rows1)
  {
    var adds := FrameAdditions(rows0, rows1, 0);
    var reqs := Requests(adds);
    if Apart(reqs) {
      forall r: nat, c: nat, r': nat, c': nat
        | Marked(rows0, rows1, r, c) && Marked(rows0, rows1, r', c') && Distance(r, c, r', c') % U16 == 0
        ensures r == r' && c == c'
      {
        SameLocationIff(r, c, r', c');
        var i := RequestAt(rows0, rows1, r, c);
        var j := RequestAt(rows0, rows1, r', c');
        assert reqs[i].location == reqs[j].location;
      }
    }
    if CellsApart(rows0, rows1) {
      AdditionsInOrder(rows0, rows1, 0);
      forall i, j | 0 <= i < j < |reqs| ensures reqs[i].location != reqs[j].location {
        CellOf(rows0, rows1, i);
        CellOf(rows0, rows1, j);
        assert Before(adds[i], adds[j]);
        SameLocationIff(adds[i].row, adds[i].col, adds[j].row, adds[j].col);
      }
    }
  }

  /** Frames of at most 80 columns and 65536 cells have a location for each cell. */
  lemma {:induction false} NarrowFramesApart(rows0: seq<seq<byte>>, rows1: seq<seq<byte>>)
    requires forall r: nat, c: nat :: Marked(rows0, rows1, r, c) ==> c < COLUMNS && r * COLUMNS + c < U16
    ensures CellsApart(rows0, rows1)
  {
    forall r: nat, c: nat, r': nat, c': nat
      | Marked(rows0, rows1, r, c) && Marked(rows0, rows1, r', c') && Distance(r, c, r', c') % U16 == 0
      ensures r == r' && c == c'
    {
      SameLocationIff(r, c, r', c');
      NarrowCell(r, c, r', c');
    }
  }

  lemma {:induction false} SameIn16Bits(v: nat, w: nat)
    requires OFFSET <= v < U16 + OFFSET && OFFSET <= w < U16 + OFFSET && v % U16 == w % U16
    ensures v == w
  {
    assert v % U16 == if v < U16 then v else v - U16;
    assert w % U16 == if w < U16 then w else w - U16;
  }

  lemma {:induction false} NarrowCell(r: nat, c: nat, r': nat, c': nat)
    requires c < COLUMNS && c' < COLUMNS && r * COLUMNS + c < U16 && r' * COLUMNS + c' < U16
    requires Location(r, c) == Location(r', c')
    ensures r == r' && c == c'
  {
    SameIn16Bits(r * COLUMNS + c + OFFSET, r' * COLUMNS + c' + OFFSET);
  }

  lemma {:induction false} FirstLineIs(l: seq<byte>, rest: seq<byte>)
    requires NEWLINE !in l && (rest == [] || rest[0] == NEWLINE)
    ensures FirstLine(l + rest) == l
  {
    if l == [] {
      assert l + rest == rest;
    } else {
      assert (l + rest)[1..] == l[1..] + rest;
      FirstLineIs(l[1..], rest);
    }
  }

  /** A file of two lines. */
  lemma {:induction false} TwoRows(l: seq<byte>, m: seq<byte>)
    requires NEWLINE !in l && NEWLINE !in m
    ensures Rows(l + [NEWLINE] + m) == [l, m]
  {
    var file, rest := l + [NEWLINE] + m, [NEWLINE] + m;
    assert file == l + rest && file[|l| + 1..] == m && m + [] == m;
    FirstLineIs(l, rest);
    FirstLineIs(m, []);
    assert Rows(m) == [m];
  }

  lemma {:induction false} TwoAdditions(l: seq<byte>, m: seq<byte>)
    requires |l| == COLUMNS + 1 && |m| == 1 && l[COLUMNS] != SPACE && m[0] != SPACE
    requires forall i :: 0 <= i < COLUMNS ==> l[i] == SPACE
    ensures FrameAdditions([l, m], [[]], 0) == [Addition(0, COLUMNS, l[COLUMNS], SPACE), Addition(1, 0, m[0], SPACE)]
  {
    var rows0, rows1: seq<seq<byte>> := [l, m], [[]];
    OnlyLast(0, l, [], 0);
    OnlyLast(1, m, [], 0);
    assert FrameAdditions(rows0, rows1, 2) == [];
    assert FrameAdditions(rows0, rows1, 1) == [Addition(1, 0, m[0], SPACE)];
  }

  /** The last cell of a first row of 81 columns and the first cell of the second row get the same location. */
  lemma {:induction false} TwoInOneCell(l: seq<byte>, m: seq<byte>)
    requires l == seq(COLUMNS, _ => SPACE) + ['x' as int] && m == ['y' as int]
    ensures Requests(FrameAdditions(Rows(l + [NEWLINE] + m), Rows([]), 0))
      == [Request(120, 'x' as int, SPACE), Request(120, 'y' as int, SPACE)]
  {
    TwoRows(l, m);
    TwoAdditions(l, m);
    assert Rows([]) == [[]];
  }

  /** A row of spaces with one character at its end. */
  lemma {:induction false} OnlyLast(r: nat, l: seq<byte>, l1: seq<byte>, c: nat)
    requires l != [] && l1 == [] && c < |l| && l[|l| - 1] != SPACE && forall i :: 0 <= i < |l| - 1 ==> l[i] == SPACE
    ensures RowAdditions(r, l, l1, c) == [Addition(r, |l| - 1, l[|l| - 1], SPACE)]
    decreases |l| - c
  {
    if c == |l| - 1 {
      assert RowAdditions(r, l, l1, c + 1) == [];
    } else {
      OnlyLast(r, l, l1, c + 1);
    }
  }

  // ---------------------------------------------------------------- the program

  /** One frame file: the file, how far it is read, the last byte read, and whether its end was met. */
  datatype Reader = Reader(file: seq<byte>, pos: nat, c: byte, eof: bool) {

    /** The byte that the source sets between two rows. */
    function NextRow(): Reader { this.(c := if eof then NEWLINE else '0' as int) }

    /** The rows still to be read. */
    function Left(): seq<seq<byte>>
      requires pos <= |file|
    {
      if eof then [] else Rows(file[pos..])
    }
  }

  /** Where a reader stands in its row l, that began at start, before it looks at column col. */
  ghost predicate InRow(f: Reader, began: Reader, l: seq<byte>, col: nat) {
    && f.file == began.file && began.pos <= |f.file| && f.pos <= |f.file|
    && (if began.eof then f == began.(c := NEWLINE) && l == []
        else
          && l == FirstLine(f.file[began.pos..])
          && (if f.c != NEWLINE then col <= |l| && f.pos == began.pos + col && !f.eof
              else
                && |l| < col
                && f.eof == (began.pos + |l| == |f.file|)
                && f.pos == began.pos + |l| + (if f.eof then 0 else 1)))
  }

  /** The read of one byte, if the row is not over. */
  method ReadByte(f: Reader, ghost began: Reader, ghost l: seq<byte>, ghost col: nat) returns (f': Reader)
    requires InRow(f, began, l, col)
    ensures InRow(f', began, l, col + 1)
    ensures f'.c == if col < |l| then l[col] else NEWLINE
  {
    f' := f;
    if f.c != NEWLINE {
      ghost var t := f.file[began.pos..];
      if f.pos < |f.file| {
        assert f.file[f.pos] == t[col];
        f' := f.(c := f.file[f.pos], pos := f.pos + 1);
      } else {
        f' := f.(c := NEWLINE, eof := true);
      }
    }
  }

  /** A row that is over leaves the rows behind it. */
  lemma {:induction false} RowIsOver(f: Reader, began: Reader, l: seq<byte>, col: nat)
    requires InRow(f, began, l, col) && f.c == NEWLINE
    ensures began.Left() == if began.eof then [] else [l] + f.NextRow().Left()
    ensures began.eof ==> f.eof
    ensures !f.eof ==> f.pos > began.pos
  {
    if !began.eof && !f.eof {
      assert f.file[began.pos..][|l| + 1..] == f.file[f.pos..];
    }
  }

  function Drop(rows: seq<seq<byte>>, k: nat): seq<seq<byte>> { if k <= |rows| then rows[k..] else [] }

  /** A reader that has read k rows and stands before the next. */
  ghost predicate AtRow(f: Reader, rows: seq<seq<byte>>, k: nat) {
    f.pos <= |f.file| && f.Left() == Drop(rows, k) && f == f.NextRow()
  }

  lemma {:induction false} BeginRow(f: Reader, rows: seq<seq<byte>>, k: nat)
    requires AtRow(f, rows, k)
    ensures InRow(f, f, Row(rows, k), 0) && (f.eof <==> k >= |rows|)
  {
    if !f.eof {
      assert f.Left()[0] == FirstLine(f.file[f.pos..]);
    }
  }

  lemma {:induction false} EndRow(f: Reader, began: Reader, rows: seq<seq<byte>>, k: nat, col: nat)
    requires InRow(f, began, Row(rows, k), col) && f.c == NEWLINE && AtRow(began, rows, k)
    ensures AtRow(f.NextRow(), rows, k + 1)
  {
    RowIsOver(f, began, Row(rows, k), col);
    if !began.eof {
      assert f.NextRow().Left() == began.Left()[1..];
    }
  }

  /** The cell of two bytes just read: a newline stands for the end of its row. */
  method AddCell(c0: byte, c1: byte, row: nat, col: nat, ghost l0: seq<byte>, ghost l1: seq<byte>)
    returns (reqs: seq<Request>)
    requires c0 == (if col < |l0| then l0[col] else NEWLINE) && c1 == (if col < |l1| then l1[col] else NEWLINE)
    requires NEWLINE !in l0 && NEWLINE !in l1
    ensures reqs == Requests(CellAdditions(row, l0, l1, col))
  {
    reqs := [];
    if (c0 != SPACE && c0 != NEWLINE) || (c1 != SPACE && c1 != NEWLINE) {
      var onChar := if c0 == NEWLINE then SPACE else c0;
      var offChar := if c1 == NEWLINE then SPACE else c1;
      reqs := [Request((row * COLUMNS + col + OFFSET) % U16, onChar, offChar)];
    }
  }

  lemma {:induction false} Append(a: seq<Request>, b: seq<Addition>, c: seq<Addition>, all: seq<Request>)
    requires a + Requests(b + c) == all
    ensures a + Requests(b) + Requests(c) == all
  {
    RequestsAppend(b, c);
  }

  /** So much is asked for, and with the additions from column col on it makes up all of the row. */
  ghost predicate RowProgress(row: nat, l0: seq<byte>, l1: seq<byte>, col: nat, reqs: seq<Request>, all: seq<Request>) {
    reqs + Requests(RowAdditions(row, l0, l1, col)) == all
  }

  lemma {:induction false} RowBegin(row: nat, l0: seq<byte>, l1: seq<byte>)
    ensures RowProgress(row, l0, l1, 0, [], Requests(RowAdditions(row, l0, l1, 0)))
  {
    var all := Requests(RowAdditions(row, l0, l1, 0));
    assert [] + all == all;
  }

  lemma {:induction false} RowStep(row: nat, l0: seq<byte>, l1: seq<byte>, col: nat, reqs: seq<Request>,
                                   all: seq<Request>)
    requires col < Max(|l0|, |l1|) && RowProgress(row, l0, l1, col, reqs, all)
    ensures RowProgress(row, l0, l1, col + 1, reqs + Requests(CellAdditions(row, l0, l1, col)), all)
  {
    Append(reqs, CellAdditions(row, l0, l1, col), RowAdditions(row, l0, l1, col + 1), all);
  }

  lemma {:induction false} RowEnd(row: nat, l0: seq<byte>, l1: seq<byte>, col: nat, reqs: seq<Request>,
                                  all: seq<Request>)
    requires col >= Max(|l0|, |l1|) && RowProgress(row, l0, l1, col, reqs, all)
    ensures reqs == all
  {
  }

  /** The inner loop: one row of both frames. */
  method AddRow(f0: Reader, f1: Reader, row: nat, ghost l0: seq<byte>, ghost l1: seq<byte>)
    returns (g0: Reader, g1: Reader, reqs: seq<Request>, ghost col': nat)
    requires InRow(f0, f0, l0, 0) && InRow(f1, f1, l1, 0)
    ensures InRow(g0, f0, l0, col') && InRow(g1, f1, l1, col') && g0.c == NEWLINE && g1.c == NEWLINE
    ensures reqs == Requests(RowAdditions(row, l0, l1, 0))
  {
    g0, g1, reqs := f0, f1, [];
    ghost var all := Requests(RowAdditions(row, l0, l1, 0));
    RowBegin(row, l0, l1);
    var col := 0;
    while true
      invariant 0 <= col <= Max(|l0|, |l1|) && InRow(g0, f0, l0, col) && InRow(g1, f1, l1, col)
      invariant RowProgress(row, l0, l1, col, reqs, all)
      decreases Max(|l0|, |l1|) - col
    {
      g0 := ReadByte(g0, f0, l0, col);
      g1 := ReadByte(g1, f1, l1, col);
      LineHasNoNewline(g0, f0, l0, col + 1);
      LineHasNoNewline(g1, f1, l1, col + 1);
      if g0.c == NEWLINE && g1.c == NEWLINE {
        RowEnd(row, l0, l1, col, reqs, all);
        col' := col + 1;
        return;
      }
      var more := AddCell(g0.c, g1.c, row, col, l0, l1);
      RowStep(row, l0, l1, col, reqs, all);
      reqs := reqs + more;
      col := col + 1;
    }
  }

  lemma {:induction false} LineHasNoNewline(f: Reader, began: Reader, l: seq<byte>, col: nat)
    requires InRow(f, began, l, col)
    ensures NEWLINE !in l
  {
  }

  /**
   * add_frames, after both files were opened: it ends, and asks for exactly the additions of
   * the two frames, each at its location.
   */
  method AddFrames(file0: seq<byte>, file1: seq<byte>) returns (reqs: seq<Request>)
    ensures reqs == Requests(FrameAdditions(Rows(file0), Rows(file1), 0))
  {
    reqs := [];
    var f0, f1 := Reader(file0, 0, '0' as int, false), Reader(file1, 0, '0' as int, false);
    var row := 0;
    ghost var r0, r1 := Rows(file0), Rows(file1);
    ghost var all := Requests(FrameAdditions(r0, r1, 0));
    FirstRow(f0);
    FirstRow(f1);
    FramesBegin(r0, r1);
    while !f0.eof || !f1.eof
      invariant AtRow(f0, r0, row) && AtRow(f1, r1, row) && 0 <= row <= Max(|r0|, |r1|)
      invariant FrameProgress(r0, r1, row, reqs, all)
      decreases Max(|r0|, |r1|) - row
    {
      var more;
      RowsLeft(f0, f1, r0, r1, row);
      FramesStep(r0, r1, row, reqs, all);
      f0, f1, more := NextRow(f0, f1, row, r0, r1);
      reqs := reqs + more;
      row := row + 1;
    }
    RowsLeft(f0, f1, r0, r1, row);
    FramesEnd(r0, r1, row, reqs, all);
  }

  lemma {:induction false} FirstRow(f: Reader)
    requires f.pos == 0 && f.c == '0' as int && !f.eof
    ensures AtRow(f, Rows(f.file), 0)
  {
    assert f.file[0..] == f.file && Rows(f.file)[0..] == Rows(f.file);
  }

  /** So much is asked for, and with the additions from this row on it makes up all of them. */
  ghost predicate FrameProgress(r0: seq<seq<byte>>, r1: seq<seq<byte>>, row: nat, reqs: seq<Request>,
                                all: seq<Request>) {
    reqs + Requests(FrameAdditions(r0, r1, row)) == all
  }

  lemma {:induction false} FramesBegin(r0: seq<seq<byte>>, r1: seq<seq<byte>>)
    ensures FrameProgress(r0, r1, 0, [], Requests(FrameAdditions(r0, r1, 0)))
  {
    var all := Requests(FrameAdditions(r0, r1, 0));
    assert [] + all == all;
  }

  lemma {:induction false} FramesStep(r0: seq<seq<byte>>, r1: seq<seq<byte>>, row: nat, reqs: seq<Request>,
                                      all: seq<Request>)
    requires row < Max(|r0|, |r1|) && FrameProgress(r0, r1, row, reqs, all)
    ensures FrameProgress(r0, r1, row + 1, reqs + Requests(RowAdditions(row, Row(r0, row), Row(r1, row), 0)), all)
  {
    Append(reqs, RowAdditions(row, Row(r0, row), Row(r1, row), 0), FrameAdditions(r0, r1, row + 1), all);
  }

  lemma {:induction false} FramesEnd(r0: seq<seq<byte>>, r1: seq<seq<byte>>, row: nat, reqs: seq<Request>,
                                     all: seq<Request>)
    requires row >= Max(|r0|, |r1|) && FrameProgress(r0, r1, row, reqs, all)
    ensures reqs == all
  {
  }

  lemma {:induction false} RowsLeft(f0: Reader, f1: Reader, r0: seq<seq<byte>>, r1: seq<seq<byte>>, row: nat)
    requires AtRow(f0, r0, row) && AtRow(f1, r1, row)
    ensures f0.eof && f1.eof <==> row >= Max(|r0|, |r1|)
  {
    BeginRow(f0, r0, row);
    BeginRow(f1, r1, row);
  }

  /** A row of both frames, and both readers before the next. */
  method NextRow(f0: Reader, f1: Reader, row: nat, ghost r0: seq<seq<byte>>, ghost r1: seq<seq<byte>>)
    returns (f0': Reader, f1': Reader, reqs: seq<Request>)
    requires AtRow(f0, r0, row) && AtRow(f1, r1, row)
    ensures AtRow(f0', r0, row + 1) && AtRow(f1', r1, row + 1)
    ensures reqs == Requests(RowAdditions(row, Row(r0, row), Row(r1, row), 0))
  {
    BeginRow(f0, r0, row);
    BeginRow(f1, r1, row);
    ghost var col;
    f0', f1', reqs, col := AddRow(f0, f1, row, Row(r0, row), Row(r1, row));
    EndRow(f0', f0, r0, row, col);
    EndRow(f1', f1, r1, row, col);
    f0', f1' := f0'.NextRow(), f1'.NextRow();
  }
}
