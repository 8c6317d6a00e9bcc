/**
 * The command splitter and the argument joiner of the emulation layer:
 * ece391_execute up to the fork, and ece391_getargs, of syscalls/ece391emulate.c.
 */
module Args {
  import opened Bytes

  const MAX_COMMAND := 1023
  const BUF_SIZE := 1026
  const MAX_ARGS := 1024
  /** The null pointer that ends the argument array. */
  const NULL_POINTER := -1

  predicate IsSeparator(b: byte) { b == SPACE || b == NEWLINE }

  // ---------------------------------------------------------------- reference

  /** The characters from start up to, not including, end. */
  datatype Span = Span(start: int, end: int)

  /** The first place at or after i that is not a space. */
  function AfterSpaces(s: seq<byte>, i: nat): (j: nat)
    requires i <= |s|
    ensures i <= j <= |s| && (j < |s| ==> s[j] != SPACE)
    decreases |s| - i
  {
    if i < |s| && s[i] == SPACE then AfterSpaces(s, i + 1) else i
  }

  lemma {:induction false} SpacesLaw(s: seq<byte>, i: nat)
    requires i <= |s|
    ensures forall k :: i <= k < AfterSpaces(s, i) ==> s[k] == SPACE
    decreases |s| - i
  {
    if i == |s| || s[i] != SPACE {
    } else {
      SpacesLaw(s, i + 1);
    }
  }

  /** The first separator at or after i. */
  function WordEnd(s: seq<byte>, i: nat): (j: nat)
    requires i <= |s|
    ensures i <= j <= |s|
    ensures i < |s| && !IsSeparator(s[i]) ==> i < j
    decreases |s| - i
  {
    if i < |s| && !IsSeparator(s[i]) then WordEnd(s, i + 1) else i
  }

  lemma {:induction false} WordLaw(s: seq<byte>, i: nat)
    requires i <= |s|
    ensures var j := WordEnd(s, i);
      (forall k :: i <= k < j ==> !IsSeparator(s[k])) && (j < |s| ==> IsSeparator(s[j]))
    decreases |s| - i
  {
    if i == |s| || IsSeparator(s[i]) {
    } else {
      WordLaw(s, i + 1);
    }
  }

  /** The places of the arguments that the splitter finds from i on. */
  function ArgsFrom(s: seq<byte>, i: nat): (a: seq<Span>)
    requires i <= |s|
    ensures 2 * |a| <= |s| - i + 1
    decreases |s| - i
  {
    var j := AfterSpaces(s, i);
    if j == |s| || s[j] == NEWLINE then []
    else
      var e := WordEnd(s, j);
      if e < |s| then [Span(j, e)] + ArgsFrom(s, e + 1) else [Span(j, e)]
  }

  /** The arguments of a command: what comes after the program name and one separator. */
  function ArgPlaces(s: seq<byte>): (a: seq<Span>)
    ensures 2 * |a| <= |s| + 1
  {
    var e := WordEnd(s, 0);
    if e < |s| then ArgsFrom(s, e + 1) else []
  }

  /** A newline at q ends the search: it stands at the start, or behind another separator. */
  predicate IsStop(s: seq<byte>, from: nat, q: nat)
    requires from <= q < |s|
  {
    s[q] == NEWLINE && (q == from || IsSeparator(s[q - 1]))
  }

  /** s[i..j] is a maximal run without separators in s[from..], and nothing ends the search before it. */
  ghost predicate IsWord(s: seq<byte>, from: nat, i: nat, j: nat) {
    && from <= i < j <= |s|
    && (forall k :: i <= k < j ==> !IsSeparator(s[k]))
    && (i == from || IsSeparator(s[i - 1]))
    && (j == |s| || IsSeparator(s[j]))
    && (forall q :: from <= q < i ==> !IsStop(s, from, q))
  }

  /** The arguments from i on are the first one, if there is one, and those behind it. */
  lemma {:induction false} ArgsUnfold(s: seq<byte>, from: nat)
    requires from <= |s|
    ensures var b := AfterSpaces(s, from);
      if b == |s| || s[b] == NEWLINE then ArgsFrom(s, from) == []
      else
        var e := WordEnd(s, b);
        ArgsFrom(s, from) == if e < |s| then [Span(b, e)] + ArgsFrom(s, e + 1) else [Span(b, e)]
  {
  }

  /** Some argument from i on is s[i..j]. */
  predicate Finds(s: seq<byte>, from: nat, i: nat, j: nat)
    requires from <= |s|
    decreases |s| - from
  {
    var b := AfterSpaces(s, from);
    && b < |s| && s[b] != NEWLINE
    && (var e := WordEnd(s, b); (i == b && j == e) || (e < |s| && Finds(s, e + 1, i, j)))
  }

  lemma {:induction false} FindsIsMember(s: seq<byte>, from: nat, i: nat, j: nat)
    requires from <= |s|
    ensures Span(i, j) in ArgsFrom(s, from) <==> Finds(s, from, i, j)
    decreases |s| - from
  {
    var b, a := AfterSpaces(s, from), ArgsFrom(s, from);
    if b == |s| || s[b] == NEWLINE {
    } else {
      var e := WordEnd(s, b);
      if e < |s| {
        FindsIsMember(s, e + 1, i, j);
        assert a[1..] == ArgsFrom(s, e + 1);
      } else {
        assert a[1..] == [];
      }
      assert Span(i, j) in a <==> Span(i, j) == a[0] || Span(i, j) in a[1..];
    }
  }

  lemma {:induction false} FindsWords(s: seq<byte>, from: nat, i: nat, j: nat)
    requires from <= |s|
    ensures Finds(s, from, i, j) <==> IsWord(s, from, i, j)
    decreases |s| - from
  {
    var b := AfterSpaces(s, from);
    if IsWord(s, from, i, j) {
      FirstWord(s, from, i, j);
    }
    if b == |s| || s[b] == NEWLINE {
    } else {
      var e := WordEnd(s, b);
      FirstIsWord(s, from);
      if e < |s| {
        FindsWords(s, e + 1, i, j);
        if IsWord(s, e + 1, i, j) {
          LaterWord(s, from, b, e, i, j);
        }
      }
    }
  }

  /** The splitter finds exactly the maximal runs without separators, up to a newline that ends no word. */
  lemma {:induction false} ArgsAreWords(s: seq<byte>, from: nat, i: nat, j: nat)
    requires from <= |s|
    ensures Span(i, j) in ArgsFrom(s, from) <==> IsWord(s, from, i, j)
  {
    FindsIsMember(s, from, i, j);
    FindsWords(s, from, i, j);
  }

  /** The same with the separators, space and newline, written out. */
  lemma {:induction false} ArgsAre(s: seq<byte>, from: nat, i: nat, j: nat)
    requires from <= |s|
    ensures Span(i, j) in ArgsFrom(s, from) <==>
      && from <= i < j <= |s|
      && (forall k :: i <= k < j ==> s[k] != 32 && s[k] != 10)
      && (i == from || s[i - 1] == 32 || s[i - 1] == 10)
      && (j == |s| || s[j] == 32 || s[j] == 10)
      && (forall q :: from < q < i && s[q] == 10 ==> s[q - 1] != 32 && s[q - 1] != 10)
      && (from < i ==> s[from] != 10)
  {
    ArgsAreWords(s, from, i, j);
    if from <= i <= |s| {
      forall q | from <= q < i
        ensures IsStop(s, from, q) <==> s[q] == 10 && (q == from || s[q - 1] == 32 || s[q - 1] == 10)
      {
      }
    }
  }

  lemma {:induction false} FirstIsWord(s: seq<byte>, from: nat)
    requires from <= |s| && AfterSpaces(s, from) < |s| && s[AfterSpaces(s, from)] != NEWLINE
    ensures var b := AfterSpaces(s, from);
      var e := WordEnd(s, b); IsWord(s, from, b, e) && (e < |s| ==> IsSeparator(s[e]))
  {
    SpacesLaw(s, from);
    WordLaw(s, AfterSpaces(s, from));
  }

  lemma {:induction false} LaterWord(s: seq<byte>, from: nat, b: nat, e: nat, i: nat, j: nat)
    requires IsWord(s, from, b, e) && e < |s| && IsWord(s, e + 1, i, j)
    ensures IsWord(s, from, i, j)
  {
    forall q | from <= q < i ensures !IsStop(s, from, q) {
      if q > e {
        assert !IsStop(s, e + 1, q);
      }
    }
  }

  /** The places are in order from lo on, nonempty, inside s, with a separator between two of them. */
  ghost predicate InOrder(a: seq<Span>, lo: nat, n: nat) {
    a == [] || (lo <= a[0].start < a[0].end <= n && InOrder(a[1..], a[0].end + 1, n))
  }

  /** The arguments are found in order and each once. */
  lemma {:induction false} ArgsInOrder(s: seq<byte>, from: nat)
    requires from <= |s|
    ensures InOrder(ArgsFrom(s, from), from, |s|)
    decreases |s| - from
  {
    var b, a := AfterSpaces(s, from), ArgsFrom(s, from);
    if b == |s| || s[b] == NEWLINE {
    } else {
      var e := WordEnd(s, b);
      if e < |s| {
        ArgsInOrder(s, e + 1);
        assert a[1..] == ArgsFrom(s, e + 1);
      } else {
        assert a[1..] == [];
      }
    }
  }

  /** A word of s[from..] is the first one or lies behind it. */
  lemma {:induction false} FirstWord(s: seq<byte>, from: nat, i: nat, j: nat)
    requires from <= |s| && IsWord(s, from, i, j)
    ensures var b := AfterSpaces(s, from); b < |s| && s[b] != NEWLINE
    ensures var b := AfterSpaces(s, from);
      var e := WordEnd(s, b); (i == b && j == e) || (e < |s| && IsWord(s, e + 1, i, j))
  {
    var b := AfterSpaces(s, from);
    var e := WordEnd(s, b);
    SpacesLaw(s, from);
    WordLaw(s, b);
    assert !IsSeparator(s[i]);
    assert i >= b;
    if i == b {
      WordEndIs(s, b, j);
    } else {
      var f := e + 1;
      assert !IsStop(s, from, b);
      assert IsSeparator(s[i - 1]);
      assert i >= f;
      forall q | f <= q < i ensures !IsStop(s, f, q) {
        assert !IsStop(s, from, q);
      }
      assert IsWord(s, f, i, j);
    }
  }

  // ---------------------------------------------------------------- the splitter

  /** The memory holds, at p, the terminated string w. */
  ghost predicate StringAt(m: seq<byte>, p: int, w: seq<byte>) {
    0 <= p && p + |w| < |m| && m[p..p + |w|] == w && m[p + |w|] == NUL
  }

  /** From character i on, the buffer still holds the command, behind the two bytes "./". */
  ghost predicate Intact(m: seq<byte>, c: seq<byte>, i: nat) {
    && |m| == BUF_SIZE && |c| <= MAX_COMMAND && NUL !in c && i <= |c|
    && forall p {:trigger m[p]} :: 2 + i <= p <= 2 + |c| ==> m[p] == if p - 2 < |c| then c[p - 2] else NUL
  }

  method SkipSpaces(buf: array<byte>, scan: nat, ghost c: seq<byte>) returns (scan': nat)
    requires scan >= 2 && Intact(buf[..], c, scan - 2)
    ensures scan' == 2 + AfterSpaces(c, scan - 2) && Intact(buf[..], c, scan' - 2)
    ensures buf[scan'] == (if scan' - 2 < |c| then c[scan' - 2] else NUL) && buf[scan'] != SPACE
  {
    SpacesLaw(c, scan - 2);
    scan' := scan;
    while buf[scan'] == SPACE
      invariant scan <= scan' <= 2 + AfterSpaces(c, scan - 2)
      decreases 2 + |c| - scan'
    {
      assert buf[..][scan'] == SPACE;
      scan' := scan' + 1;
    }
    assert buf[..][scan'] != SPACE;
  }

  method SkipWord(buf: array<byte>, scan: nat, ghost c: seq<byte>) returns (scan': nat)
    requires scan >= 2 && Intact(buf[..], c, scan - 2)
    ensures scan' == 2 + WordEnd(c, scan - 2)
  {
    WordLaw(c, scan - 2);
    scan' := scan;
    while buf[scan'] != NUL && buf[scan'] != SPACE && buf[scan'] != NEWLINE
      invariant scan <= scan' <= 2 + WordEnd(c, scan - 2)
      decreases 2 + |c| - scan'
    {
      assert buf[..][scan'] != NUL;
      scan' := scan' + 1;
    }
    assert buf[..][scan'] == NUL || IsSeparator(buf[..][scan']);
  }

  /** "./" and the command, copied into the buffer. */
  method CopyCommand(command: seq<byte>, buf: array<byte>)
    requires NUL !in command && |command| <= MAX_COMMAND && buf.Length == BUF_SIZE
    modifies buf
    ensures buf[0] == '.' as int && buf[1] == '/' as int && Intact(buf[..], command, 0)
  {
    buf[0] := '.' as int;
    buf[1] := '/' as int;
    var i := 0;
    while i < |command|
      invariant 0 <= i <= |command| && buf[0] == '.' as int && buf[1] == '/' as int
      invariant forall p :: 2 <= p < 2 + i ==> buf[p] == command[p - 2]
    {
      buf[2 + i] := command[i];
      i := i + 1;
    }
    buf[2 + i] := NUL;
  }

  /** The arguments at the places a are entered in args and stand in the buffer as terminated strings. */
  ghost predicate Entered(args: seq<int>, m: seq<byte>, c: seq<byte>, a: seq<Span>) {
    && |a| < |args|
    && forall k :: 0 <= k < |a| ==>
      && 0 <= a[k].start < a[k].end <= |c|
      && args[k + 1] == 2 + a[k].start
      && StringAt(m, 2 + a[k].start, c[a[k].start..a[k].end])
  }

  /** Strings that end before p, or at the terminator at p, survive a terminator at p. */
  lemma {:induction false} TerminateKeeps(args: seq<int>, m: seq<byte>, c: seq<byte>, a: seq<Span>, p: nat)
    requires Entered(args, m, c, a) && p < |m|
    requires forall k :: 0 <= k < |a| ==> 2 + a[k].end <= p
    ensures Entered(args, m[p := NUL], c, a)
  {
    forall k | 0 <= k < |a| ensures StringAt(m[p := NUL], 2 + a[k].start, c[a[k].start..a[k].end]) {
      assert StringAt(m, 2 + a[k].start, c[a[k].start..a[k].end]);
      assert m[p := NUL][2 + a[k].start..2 + a[k].end] == m[2 + a[k].start..2 + a[k].end];
    }
  }

  /** A terminator behind an intact word, whose address is entered, makes it one more argument. */
  lemma {:induction false} OneEntered(args: seq<int>, m: seq<byte>, c: seq<byte>, a: seq<Span>, b: nat, e: nat)
    requires Entered(args, m, c, a) && Intact(m, c, b) && b < e <= |c|
    requires forall k :: 0 <= k < |a| ==> a[k].end <= b
    requires |a| + 1 < |args| && args[|a| + 1] == 2 + b
    ensures Entered(args, m[2 + e := NUL], c, a + [Span(b, e)])
  {
    var m' := m[2 + e := NUL];
    TerminateKeeps(args, m, c, a, 2 + e);
    assert m'[2 + b..2 + e] == c[b..e];
  }

  /** One argument: enter its address, find its end, terminate it. */
  method TakeArg(c: seq<byte>, scan: nat, buf: array<byte>, args: array<int>, nArg: nat, ghost done: seq<Span>)
    returns (scan': nat)
    requires 2 <= scan < 2 + |c| && Intact(buf[..], c, scan - 2) && !IsSeparator(c[scan - 2])
    requires 1 <= nArg == 1 + |done| < args.Length && Entered(args[..], buf[..], c, done)
    requires forall k :: 0 <= k < |done| ==> done[k].end <= scan - 2
    modifies buf, args
    ensures var e := WordEnd(c, scan - 2);
      && scan - 2 < e && scan' == 2 + (if e < |c| then e + 1 else e)
      && Intact(buf[..], c, scan' - 2)
      && Entered(args[..], buf[..], c, done + [Span(scan - 2, e)])
    ensures forall p :: 0 <= p < scan ==> buf[p] == old(buf[p])
    ensures args[0] == old(args[0])
  {
    args[nArg] := scan;
    scan' := SkipWord(buf, scan, c);
    ghost var e := scan' - 2;
    ghost var m := buf[..];
    OneEntered(args[..], m, c, done, scan - 2, e);
    if buf[scan'] != NUL {
      buf[scan'] := NUL;
      scan' := scan' + 1;
    }
    assert buf[..] == m[2 + e := NUL];
  }

  /** One more argument is done: those behind it are left. */
  lemma {:induction false} OneMore(c: seq<byte>, from: nat, b: nat, e: nat, done: seq<Span>)
    requires from <= |c|
    requires b == AfterSpaces(c, from) < |c| && c[b] != NEWLINE && e == WordEnd(c, b)
    ensures e < |c| ==> done + ArgsFrom(c, from) == done + [Span(b, e)] + ArgsFrom(c, e + 1)
    ensures e == |c| ==> done + ArgsFrom(c, from) == done + [Span(b, e)] + ArgsFrom(c, e)
  {
    ArgsUnfold(c, from);
    if e < |c| {
      Associative(done, Span(b, e), ArgsFrom(c, e + 1));
    } else {
      ArgsUnfold(c, e);
      Associative(done, Span(b, e), []);
    }
  }

  lemma {:induction false} Associative(done: seq<Span>, p: Span, rest: seq<Span>)
    ensures done + ([p] + rest) == done + [p] + rest && done + [p] == done + [p] + []
  {
  }

  lemma {:induction false} NoneLeft(c: seq<byte>, from: nat, done: seq<Span>)
    requires from <= |c|
    requires var b := AfterSpaces(c, from); b == |c| || c[b] == NEWLINE
    ensures done + ArgsFrom(c, from) == done
  {
    ArgsUnfold(c, from);
    assert done + [] == done;
  }

  method Terminate(c: seq<byte>, scan: nat, buf: array<byte>, args: array<int>, ghost done: seq<Span>)
    requires scan < buf.Length && Entered(args[..], buf[..], c, done)
    requires forall k :: 0 <= k < |done| ==> done[k].end <= scan - 2
    modifies buf
    ensures Entered(args[..], buf[..], c, done)
    ensures forall p :: 0 <= p < scan ==> buf[p] == old(buf[p])
  {
    TerminateKeeps(args[..], buf[..], c, done, scan);
    ghost var m := buf[..];
    buf[scan] := NUL;
    assert buf[..] == m[scan := NUL];
  }

  method NextArg(c: seq<byte>, scan: nat, buf: array<byte>, args: array<int>, nArg: nat,
                 ghost from: nat, ghost done: seq<Span>, ghost all: seq<Span>)
    returns (scan': nat, ghost done': seq<Span>)
    requires from <= |c| && scan == 2 + AfterSpaces(c, from) < 2 + |c| && Intact(buf[..], c, scan - 2)
    requires !IsSeparator(c[scan - 2])
    requires 1 <= nArg == 1 + |done| < args.Length && Entered(args[..], buf[..], c, done)
    requires forall k :: 0 <= k < |done| ==> done[k].end <= scan - 2
    requires all == done + ArgsFrom(c, from)
    modifies buf, args
    ensures scan < scan' <= 2 + |c| && Intact(buf[..], c, scan' - 2)
    ensures |done'| == |done| + 1 && Entered(args[..], buf[..], c, done')
    ensures forall k :: 0 <= k < |done'| ==> done'[k].end <= scan' - 2
    ensures all == done' + ArgsFrom(c, scan' - 2)
    ensures forall p :: 0 <= p < scan ==> buf[p] == old(buf[p])
    ensures args[0] == old(args[0])
  {
    ghost var e := WordEnd(c, scan - 2);
    scan' := TakeArg(c, scan, buf, args, nArg, done);
    done' := done + [Span(scan - 2, e)];
    OneMore(c, from, scan - 2, e, done);
  }

  /** The argument loop has found the arguments done of all, and goes on at scan. */
  ghost predicate Parsing(args: seq<int>, m: seq<byte>, c: seq<byte>, scan: nat, done: seq<Span>, all: seq<Span>) {
    && 2 <= scan && Intact(m, c, scan - 2) && |args| == MAX_ARGS && Entered(args, m, c, done)
    && (forall k :: 0 <= k < |done| ==> done[k].end <= scan - 2)
    && all == done + ArgsFrom(c, scan - 2) && |all| <= 512
  }

  /** One round of the argument loop. */
  method ParseOne(c: seq<byte>, scan: nat, buf: array<byte>, args: array<int>, nArg: nat, ghost done: seq<Span>,
                  ghost all: seq<Span>)
    returns (more: bool, scan': nat, ghost done': seq<Span>)
    requires Parsing(args[..], buf[..], c, scan, done, all) && nArg == 1 + |done|
    modifies buf, args
    ensures more ==> scan < scan' && |done'| == |done| + 1 && Parsing(args[..], buf[..], c, scan', done', all)
    ensures !more ==> done' == done == all && Entered(args[..], buf[..], c, all)
    ensures forall p :: 0 <= p < scan ==> buf[p] == old(buf[p])
    ensures args[0] == old(args[0])
  {
    done' := done;
    ghost var from, a, m := scan - 2, args[..], buf[..];
    scan' := SkipSpaces(buf, scan, c);
    assert args[..] == a && buf[..] == m;
    more := buf[scan'] != NUL && buf[scan'] != NEWLINE;
    if more {
      scan', done' := NextArg(c, scan', buf, args, nArg, from, done, all);
    } else {
      NoneLeft(c, from, done);
      Terminate(c, scan', buf, args, done);
    }
  }

  /** The argument loop: from character i of the command on. */
  method ParseArgs(c: seq<byte>, i: nat, buf: array<byte>, args: array<int>) returns (nArg: nat)
    requires Intact(buf[..], c, i) && args.Length == MAX_ARGS
    modifies buf, args
    ensures nArg == 1 + |ArgsFrom(c, i)| && Entered(args[..], buf[..], c, ArgsFrom(c, i))
    ensures forall p :: 0 <= p < 2 + i ==> buf[p] == old(buf[p])
    ensures args[0] == old(args[0])
  {
    ghost var all := ArgsFrom(c, i);
    ghost var done: seq<Span> := [];
    var scan: nat, more := 2 + i, true;
    nArg := 1;
    while more
      invariant (more ==> 2 + i <= scan) && nArg == 1 + |done|
      invariant if more then Parsing(args[..], buf[..], c, scan, done, all)
        else done == all && Entered(args[..], buf[..], c, all)
      invariant forall p :: 0 <= p < 2 + i ==> buf[p] == old(buf[p])
      invariant args[0] == old(args[0])
      decreases more, |all| - |done|
    {
      more, scan, done := ParseOne(c, scan, buf, args, nArg, done, all);
      if more {
        nArg := nArg + 1;
      }
    }
  }

  /** The program path: "./" and the first word. */
  function Program(command: seq<byte>): seq<byte> {
    ['.' as int, '/' as int] + command[..WordEnd(command, 0)]
  }

  /**
   * ece391_execute up to the fork. A command of more than 1023 bytes is refused. Any
   * other is split in place: args[0] is the program, args[1..] are the arguments, each
   * a terminated string in buf, and a null pointer ends the array, inside its bounds.
   */
  method SplitCommand(command: seq<byte>, buf: array<byte>, args: array<int>) returns (ret: int, nArg: nat)
    requires NUL !in command && buf.Length == BUF_SIZE && args.Length == MAX_ARGS
    modifies buf, args
    ensures ret == -1 <==> |command| > 1023
    ensures ret != -1 ==>
      && nArg == 1 + |ArgPlaces(command)| <= 513
      && args[0] == 0 && StringAt(buf[..], 0, Program(command))
      && Entered(args[..], buf[..], command, ArgPlaces(command))
      && args[nArg] == NULL_POINTER
      && forall k :: 0 <= k < |ArgPlaces(command)| ==>
        StringAt(buf[..], args[k + 1], Texts(command, ArgPlaces(command))[k])
  {
    if MAX_COMMAND < |command| {
      return -1, 0;
    }
    CopyCommand(command, buf);
    args[0] := 0;
    nArg := SplitWords(command, buf, args);
    EndArgs(args, nArg, buf[..], command, ArgPlaces(command));
    EnteredTexts(args[..], buf[..], command, ArgPlaces(command));
    ret := 0;
  }

  lemma {:induction false} EnteredTexts(args: seq<int>, m: seq<byte>, c: seq<byte>, a: seq<Span>)
    requires Entered(args, m, c, a)
    ensures forall k :: 0 <= k < |a| ==> StringAt(m, args[k + 1], Texts(c, a)[k])
  {
  }

  /**
   * The program is what comes before the first space or newline, behind "./", and the
   * arguments are searched for behind that.
   */
  lemma {:induction false} SplitIs(command: seq<byte>, e: nat)
    requires e <= |command| && (forall k :: 0 <= k < e ==> command[k] != 32 && command[k] != 10)
    requires e < |command| ==> command[e] == 32 || command[e] == 10
    ensures Program(command) == Ascii("./") + command[..e]
    ensures ArgPlaces(command) == if e < |command| then ArgsFrom(command, e + 1) else []
  {
    WordEndIs(command, 0, e);
    assert Ascii("./") == ['.' as int, '/' as int];
  }

  /** The program name, terminated, and the arguments. */
  method SplitWords(command: seq<byte>, buf: array<byte>, args: array<int>) returns (nArg: nat)
    requires Intact(buf[..], command, 0) && buf[0] == '.' as int && buf[1] == '/' as int && args.Length == MAX_ARGS
    modifies buf, args
    ensures nArg == 1 + |ArgPlaces(command)| && Entered(args[..], buf[..], command, ArgPlaces(command))
    ensures StringAt(buf[..], 0, Program(command)) && args[0] == old(args[0])
  {
    var scan := SkipWord(buf, 2, command);
    ProgramAt(buf[..], command);
    nArg := 1;
    if buf[scan] != NUL {
      buf[scan] := NUL;
      ghost var m := buf[..];
      nArg := ParseArgs(command, scan - 1, buf, args);
      SameStart(m, buf[..], Program(command));
    }
  }

  lemma {:induction false} ProgramAt(m: seq<byte>, c: seq<byte>)
    requires Intact(m, c, 0) && m[0] == '.' as int && m[1] == '/' as int
    ensures var e := WordEnd(c, 0); m[..2 + e] == Program(c) && m[2 + e] == if e < |c| then c[e] else NUL
  {
  }

  lemma {:induction false} SameStart(m: seq<byte>, m': seq<byte>, w: seq<byte>)
    requires StringAt(m, 0, w) && |m'| == |m| && forall p :: 0 <= p <= |w| ==> m'[p] == m[p]
    ensures StringAt(m', 0, w)
  {
    assert m'[0..|w|] == m[0..|w|];
  }

  /** The null pointer behind the last argument. */
  method EndArgs(args: array<int>, nArg: nat, ghost m: seq<byte>, ghost c: seq<byte>, ghost a: seq<Span>)
    requires Entered(args[..], m, c, a) && nArg == 1 + |a| < args.Length
    modifies args
    ensures Entered(args[..], m, c, a) && args[nArg] == NULL_POINTER && args[0] == old(args[0])
  {
    ghost var before := args[..];
    args[nArg] := NULL_POINTER;
    assert args[..] == before[nArg := NULL_POINTER];
    EnteredBelow(before, nArg, m, c, a);
  }

  lemma {:induction false} EnteredBelow(args: seq<int>, n: nat, m: seq<byte>, c: seq<byte>, a: seq<Span>)
    requires Entered(args, m, c, a) && n == 1 + |a| < |args|
    ensures Entered(args[n := NULL_POINTER], m, c, a)
  {
  }

  // ---------------------------------------------------------------- the joiner

  /** The arguments with one space between two of them. */
  function Joined(args: seq<seq<byte>>): seq<byte> {
    if args == [] then []
    else if |args| == 1 then args[0]
    else args[0] + [SPACE] + Joined(args[1..])
  }

  /** Joined, from the other end: all but the last, a space, the last. */
  lemma {:induction false} JoinedAppend(args: seq<seq<byte>>, w: seq<byte>)
    ensures Joined(args + [w]) == if args == [] then w else Joined(args) + [32] + w
    decreases |args|
  {
    if args == [] {
    } else {
      var rest := args[1..];
      JoinedAppend(rest, w);
      assert (args + [w])[1..] == rest + [w];
      if rest == [] {
        assert args == [args[0]];
        assert Joined(args + [w]) == args[0] + [SPACE] + w;
      } else {
        assert args[0] + [SPACE] + (Joined(rest) + [SPACE] + w) == args[0] + [SPACE] + Joined(rest) + [SPACE] + w;
      }
    }
  }

  lemma {:induction false} JoinedGrows(args: seq<seq<byte>>, k: nat)
    requires k <= |args|
    ensures |Joined(args[..k])| + (if 0 < k < |args| then 1 else 0) <= |Joined(args)|
    decreases |args| - k
  {
    if k == |args| {
      assert args[..k] == args;
    } else {
      JoinedGrows(args, k + 1);
      assert args[..k + 1] == args[..k] + [args[k]];
      JoinedAppend(args[..k], args[k]);
    }
  }

  /** Some argument ends exactly where nbytes end, so that strcpy writes its terminator behind them. */
  ghost predicate Fills(args: seq<seq<byte>>, nbytes: int) {
    exists k :: 0 <= k < |args| && EndOf(args, k) == nbytes
  }

  /** Where argument k ends in the joined text. */
  function EndOf(args: seq<seq<byte>>, k: nat): nat
    requires k < |args|
  {
    |Before(args, k)| + |args[k]|
  }

  /** No byte from index n on has changed. */
  ghost predicate Stays(m: seq<byte>, was: seq<byte>, n: int) {
    |m| == |was| && forall k :: 0 <= k < |m| && n <= k ==> m[k] == was[k]
  }

  /** The arguments do not fit: no byte from nbytes on has changed but for the terminator of one that fills them. */
  ghost predicate Refused(m: seq<byte>, was: seq<byte>, args: seq<seq<byte>>, nbytes: int) {
    && nbytes < |Joined(args)| + 1
    && if Fills(args, nbytes) then 0 <= nbytes < |m| && m[nbytes] == NUL && Stays(m, was, nbytes + 1)
       else Stays(m, was, nbytes)
  }

  /** The buffer holds what stands before argument k, and the arguments before it end before nbytes. */
  ghost predicate Written(m: seq<byte>, was: seq<byte>, args: seq<seq<byte>>, k: nat, out: nat, nbytes: int)
    requires k < |args|
  {
    && (out == 0 || out <= nbytes) && out <= |m| && m[..out] == Before(args, k) && Stays(m, was, nbytes)
    && forall i :: 0 <= i < k ==> EndOf(args, i) < nbytes
  }

  lemma {:induction false} NextWritten(m: seq<byte>, m': seq<byte>, was: seq<byte>, args: seq<seq<byte>>, k: nat,
                                       out: nat, nbytes: int)
    requires k + 1 < |args| && out == |Before(args, k)| && Written(m, was, args, k, out, nbytes)
    requires var end := EndOf(args, k);
      end < nbytes <= |m'| && m'[..end + 1] == Before(args, k) + args[k] + [SPACE] && Stays(m', was, nbytes)
    ensures Written(m', was, args, k + 1, EndOf(args, k) + 1, nbytes)
  {
    BeforeStep(args, k);
  }

  /** One round: argument k, and the separator behind it unless it is the last. */
  method PutArg(buf: array<byte>, out: nat, w: seq<byte>, left: int, isLast: bool, ghost args: seq<seq<byte>>,
                ghost k: nat, ghost nbytes: int, ghost was: seq<byte>)
    returns (ok: bool, out': nat)
    requires k < |args| && w == args[k] && left == nbytes - out && (isLast <==> k + 1 == |args|)
    requires nbytes <= buf.Length && (Fills(args, nbytes) ==> nbytes < buf.Length)
    requires Written(buf[..], was, args, k, out, nbytes)
    modifies buf
    ensures !ok ==> Refused(buf[..], was, args, nbytes)
    ensures ok && !isLast ==> Written(buf[..], was, args, k + 1, out', nbytes) && out' == out + |w| + 1
    ensures ok && isLast ==> out' == out + |w| <= buf.Length && buf[..out'] == Joined(args)
    ensures ok && isLast ==> if out' < nbytes then Stays(buf[..], was, nbytes) else Refused(buf[..], was, args, nbytes)
  {
    BeforeStep(args, k);
    assert out == |Before(args, k)|;
    if |w| > left {
      TooLong(buf[..], was, args, k, out, nbytes);
      return false, out;
    }
    assert EndOf(args, k) == nbytes ==> Fills(args, nbytes);
    ghost var m := buf[..];
    out' := StrCpyTo(buf, out, w);
    if out' == nbytes {
      ExactlyFull(buf[..], was, args, k, nbytes);
    }
    ok := isLast || left - |w| >= 1;
    if ok && !isLast {
      PutByte(buf, out', SPACE, nbytes, was);
      NextWritten(m, buf[..], was, args, k, out, nbytes);
      out' := out' + 1;
    }
  }

  lemma {:induction false} TooLong(m: seq<byte>, was: seq<byte>, args: seq<seq<byte>>, k: nat, out: nat, nbytes: int)
    requires k < |args| && Written(m, was, args, k, out, nbytes) && EndOf(args, k) > nbytes
    ensures Refused(m, was, args, nbytes)
  {
    EndsInJoined(args, k);
    LaterEnds(args, k, nbytes);
  }

  lemma {:induction false} ExactlyFull(m: seq<byte>, was: seq<byte>, args: seq<seq<byte>>, k: nat, nbytes: int)
    requires k < |args| && EndOf(args, k) == nbytes < |m| && m[nbytes] == NUL && Stays(m, was, nbytes + 1)
    ensures Refused(m, was, args, nbytes)
  {
    EndsInJoined(args, k);
  }

  lemma {:induction false} EndsInJoined(args: seq<seq<byte>>, k: nat)
    requires k < |args|
    ensures EndOf(args, k) <= |Joined(args)|
  {
    BeforeStep(args, k);
  }

  /**
   * ece391_getargs: succeeds if and only if the joined arguments and a terminator fit
   * nbytes, and then leaves exactly them. It writes at most nbytes bytes, and one more,
   * a terminator, if and only if some argument ends exactly there; only then the
   * destination needs that byte.
   */
  method GetArgs(argv: seq<seq<byte>>, buf: array<byte>, nbytes: int) returns (ret: int)
    requires forall k :: 0 <= k < |argv| ==> NUL !in argv[k]
    requires nbytes <= buf.Length && (Fills(argv[if argv == [] then 0 else 1..], nbytes) ==> nbytes < buf.Length)
    modifies buf
    ensures var args := argv[if argv == [] then 0 else 1..];
      if |Joined(args)| + 1 <= nbytes
      then ret == 0 && StringAt(buf[..], 0, Joined(args)) && Stays(buf[..], old(buf[..]), nbytes)
      else ret == -1 && Refused(buf[..], old(buf[..]), args, nbytes)
  {
    ghost var args, was := argv[if argv == [] then 0 else 1..], buf[..];
    var idx: nat, out: nat, left := 1, 0, nbytes;
    while idx < |argv|
      invariant 1 <= idx && left == nbytes - out && (args == [] ==> out == 0 && buf[..] == was)
      invariant args != [] ==> idx < |argv| && Written(buf[..], was, args, idx - 1, out, nbytes)
      decreases |argv| - idx
    {
      var ok;
      ok, out := PutArg(buf, out, argv[idx], left, idx + 1 >= |argv|, args, idx - 1, nbytes, was);
      left := nbytes - out;
      idx := idx + 1;
      if !ok {
        return -1;
      }
      if idx >= |argv| {
        break;
      }
    }
    assert out <= buf.Length && buf[..out] == Joined(args);
    if left < 1 {
      return -1;
    }
    PutByte(buf, out, NUL, nbytes, was);
    assert buf[..out] == buf[..out + 1][..out];
    ret := 0;
  }

  /** The separator behind an argument, or the last terminator. */
  method PutByte(buf: array<byte>, out: nat, c: byte, ghost nbytes: int, ghost was: seq<byte>)
    requires out < buf.Length && out < nbytes && Stays(buf[..], was, nbytes)
    modifies buf
    ensures buf[..out + 1] == old(buf[..out]) + [c] && Stays(buf[..], was, nbytes)
  {
    buf[out] := c;
  }

  /** The one argument "abc" and three bytes: it is copied, and its terminator goes behind them. */
  lemma {:induction false} WritesBehind(w: seq<byte>)
    requires w == ['a' as int, 'b' as int, 'c' as int]
    ensures Fills([w], 3) && |Joined([w])| + 1 > 3
  {
    assert EndOf([w], 0) == 3;
  }

  /** What stands before argument k in the joined text. */
  function Before(args: seq<seq<byte>>, k: int): seq<byte> {
    if k <= 0 || |args| < k then [] else Joined(args[..k]) + [SPACE]
  }

  lemma {:induction false} BeforeStep(args: seq<seq<byte>>, k: nat)
    requires k < |args|
    ensures k + 1 == |args| ==> Before(args, k) + args[k] == Joined(args)
    ensures k + 1 < |args| ==>
      Before(args, k) + args[k] + [SPACE] == Before(args, k + 1) && |Before(args, k + 1)| <= |Joined(args)|
  {
    JoinedAppend(args[..k], args[k]);
    assert args[..k + 1] == args[..k] + [args[k]];
    assert k + 1 == |args| ==> args[..k + 1] == args;
    if k + 1 < |args| {
      JoinedGrows(args, k + 1);
    }
  }

  lemma {:induction false} LaterEnds(args: seq<seq<byte>>, k: nat, nbytes: int)
    requires k < |args| && EndOf(args, k) > nbytes
    ensures forall m :: k <= m < |args| ==> EndOf(args, m) > nbytes
    decreases |args| - k
  {
    if k == |args| - 1 {
    } else {
      BeforeStep(args, k);
      LaterEnds(args, k + 1, nbytes);
    }
  }

  /** strcpy of w and its terminator. */
  method StrCpyTo(buf: array<byte>, at: nat, w: seq<byte>) returns (end: nat)
    requires at + |w| < buf.Length
    modifies buf
    ensures end == at + |w| && buf[..end] == old(buf[..at]) + w && buf[end] == NUL
    ensures forall k :: end < k < buf.Length ==> buf[k] == old(buf[k])
  {
    end := at;
    while end < at + |w|
      invariant at <= end <= at + |w|
      invariant forall k :: 0 <= k < buf.Length && !(at <= k < end) ==> buf[k] == old(buf[k])
      invariant forall k :: at <= k < end ==> buf[k] == w[k - at]
    {
      buf[end] := w[end - at];
      end := end + 1;
    }
    buf[end] := NUL;
  }

  // ---------------------------------------------------------------- round trip

  /** The text at a place. */
  function Text(s: seq<byte>, p: Span): seq<byte> {
    if 0 <= p.start <= p.end <= |s| then s[p.start..p.end] else []
  }

  function Texts(s: seq<byte>, a: seq<Span>): (w: seq<seq<byte>>)
    ensures |w| == |a| && forall k :: 0 <= k < |a| ==> w[k] == Text(s, a[k])
  {
    seq(|a|, k requires 0 <= k < |a| => Text(s, a[k]))
  }

  /** The arguments themselves, at the places that ArgsFrom gives. */
  function Arguments(s: seq<byte>, from: nat): (w: seq<seq<byte>>)
    requires from <= |s|
  {
    Texts(s, ArgsFrom(s, from))
  }

  /** A possible argument: not empty, without separators. */
  ghost predicate IsArgument(w: seq<byte>) {
    w != [] && forall k :: 0 <= k < |w| ==> !IsSeparator(w[k])
  }

  lemma {:induction false} FoundIsArgument(s: seq<byte>, from: nat, i: nat, j: nat)
    requires from <= |s| && Finds(s, from, i, j)
    ensures i < j <= |s| && IsArgument(s[i..j])
    decreases |s| - from
  {
    var b := AfterSpaces(s, from);
    var e := WordEnd(s, b);
    if i == b && j == e {
      WordLaw(s, b);
    } else {
      FoundIsArgument(s, e + 1, i, j);
    }
  }

  /** Whatever the splitter finds is not empty and has no separators. */
  lemma {:induction false} FoundAreArguments(s: seq<byte>, from: nat, k: nat)
    requires from <= |s| && k < |Arguments(s, from)|
    ensures IsArgument(Arguments(s, from)[k])
  {
    var a := ArgsFrom(s, from);
    ArgsInOrder(s, from);
    PlaceInOrder(a, from, |s|, k);
    assert a[k] in a;
    FindsIsMember(s, from, a[k].start, a[k].end);
    FoundIsArgument(s, from, a[k].start, a[k].end);
  }

  lemma {:induction false} PlaceInOrder(a: seq<Span>, lo: nat, n: nat, k: nat)
    requires InOrder(a, lo, n) && k < |a|
    ensures lo <= a[k].start < a[k].end <= n
  {
    if k == 0 {
    } else {
      PlaceInOrder(a[1..], a[0].end + 1, n, k - 1);
    }
  }

  lemma {:induction false} WordEndIs(s: seq<byte>, i: nat, j: nat)
    requires i <= j <= |s| && (forall k :: i <= k < j ==> !IsSeparator(s[k])) && (j < |s| ==> IsSeparator(s[j]))
    ensures WordEnd(s, i) == j
    decreases j - i
  {
    if i == j {
    } else {
      WordEndIs(s, i + 1, j);
    }
  }

  /** From from on, s holds these arguments, one space between two of them. */
  ghost predicate Spelled(s: seq<byte>, from: nat, args: seq<seq<byte>>)
    decreases |args|
  {
    if args == [] then from == |s|
    else
      var e := from + |args[0]|;
      && e <= |s| && s[from..e] == args[0]
      && if |args| == 1 then e == |s| else e < |s| && s[e] == SPACE && Spelled(s, e + 1, args[1..])
  }

  lemma {:induction false} JoinedIsSpelled(s: seq<byte>, from: nat, args: seq<seq<byte>>)
    requires from <= |s| && s[from..] == Joined(args)
    ensures Spelled(s, from, args)
    decreases |args|
  {
    var tail := s[from..];
    if |args| == 1 {
      assert s[from..|s|] == tail;
    } else if |args| > 1 {
      var w, e := args[0], from + |args[0]|;
      assert tail == w + [SPACE] + Joined(args[1..]);
      assert s[from..e] == tail[..|w|];
      assert s[e] == tail[|w|];
      assert s[e + 1..] == tail[|w| + 1..];
      JoinedIsSpelled(s, e + 1, args[1..]);
    }
  }

  /** The first word of s[from..] is known: it is the first argument. */
  lemma {:induction false} FirstArgument(s: seq<byte>, from: nat, e: nat)
    requires from < e <= |s| && IsArgument(s[from..e]) && (e < |s| ==> s[e] == SPACE)
    ensures AfterSpaces(s, from) == from && WordEnd(s, from) == e && !IsSeparator(s[from])
  {
    var w := s[from..e];
    assert forall k :: from <= k < e ==> s[k] == w[k - from];
    WordEndIs(s, from, e);
  }

  /** The k-th place that the splitter finds from here on holds the k-th of these arguments. */
  ghost predicate SplitsAt(s: seq<byte>, from: nat, args: seq<seq<byte>>, k: nat)
    requires from <= |s|
  {
    |ArgsFrom(s, from)| == |args| && (k < |args| ==> Text(s, ArgsFrom(s, from)[k]) == args[k])
  }

  lemma {:induction false} SplitsNone(s: seq<byte>, k: nat)
    ensures SplitsAt(s, |s|, [], k)
  {
    ArgsUnfold(s, |s|);
  }

  lemma {:induction false} SplitsOne(s: seq<byte>, from: nat, w: seq<byte>, k: nat)
    requires from <= |s| && s[from..] == w && IsArgument(w)
    ensures SplitsAt(s, from, [w], k)
  {
    assert s[from..|s|] == w;
    FirstArgument(s, from, |s|);
    ArgsUnfold(s, from);
  }

  lemma {:induction false} SplitsMore(s: seq<byte>, from: nat, e: nat, args: seq<seq<byte>>, k: nat)
    requires from < e < |s| && |args| > 1 && s[from..e] == args[0] && IsArgument(args[0]) && s[e] == SPACE
    requires SplitsAt(s, e + 1, args[1..], if k > 0 then k - 1 else 0)
    ensures SplitsAt(s, from, args, k)
  {
    FirstArgument(s, from, e);
    ArgsUnfold(s, from);
    var a, b := ArgsFrom(s, from), ArgsFrom(s, e + 1);
    assert a == [Span(from, e)] + b;
    assert 0 < k < |args| ==> a[k] == b[k - 1] && args[k] == args[1..][k - 1];
  }

  /** The k-th place the splitter finds holds the k-th argument. */
  lemma {:induction false} SplitAt(s: seq<byte>, from: nat, args: seq<seq<byte>>, k: nat)
    requires from <= |s| && Spelled(s, from, args)
    requires forall i :: 0 <= i < |args| ==> IsArgument(args[i])
    ensures SplitsAt(s, from, args, k)
    decreases |args|
  {
    if args == [] {
      SplitsNone(s, k);
    } else if |args| == 1 {
      assert args == [args[0]] && s[from..|s|] == s[from..];
      SplitsOne(s, from, args[0], k);
    } else {
      var e, rest := from + |args[0]|, args[1..];
      assert IsArgument(args[0]) && forall i :: 0 <= i < |rest| ==> rest[i] == args[i + 1];
      SplitAt(s, e + 1, rest, if k > 0 then k - 1 else 0);
      SplitsMore(s, from, e, args, k);
    }
  }

  /** Splitting a text that ends in joined arguments gives these arguments back. */
  lemma {:induction false} SplitOfJoin(s: seq<byte>, from: nat, args: seq<seq<byte>>)
    requires from <= |s| && s[from..] == Joined(args)
    requires forall k :: 0 <= k < |args| ==> IsArgument(args[k])
    ensures Arguments(s, from) == args
  {
    JoinedIsSpelled(s, from, args);
    SplitAt(s, from, args, 0);
    forall k | 0 <= k < |args| ensures Arguments(s, from)[k] == args[k] {
      SplitAt(s, from, args, k);
    }
  }

  /**
   * What the joiner makes of the arguments of any command, split again behind any
   * program name, gives the same arguments.
   */
  lemma {:induction false} GetArgsRoundTrip(command: seq<byte>, from: nat, program: seq<byte>)
    requires from <= |command| && IsArgument(program)
    ensures var args := Arguments(command, from);
      var again := program + [SPACE] + Joined(args);
      WordEnd(again, 0) == |program| && Arguments(again, |program| + 1) == args
  {
    var args := Arguments(command, from);
    var again := program + [SPACE] + Joined(args);
    forall k | 0 <= k < |args| ensures IsArgument(args[k]) {
      FoundAreArguments(command, from, k);
    }
    assert forall k :: 0 <= k < |program| ==> again[k] == program[k];
    WordEndIs(again, 0, |program|);
    assert again[|program| + 1..] == Joined(args);
    SplitOfJoin(again, |program| + 1, args);
  }
}
