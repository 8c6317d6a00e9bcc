/**
 * Number printing: itoa and strrev (student-distrib/lib.c and syscalls/ece391support.c)
 * and the number cases of printf.
 */
module Numbers {
  import opened Bytes
  import opened Arith

  type radix = r: int | 2 <= r <= 36 witness 2

  // ---------------------------------------------------------------- reference

  /** The lookup table. */
  function Digit(i: nat): (b: byte)
    requires i < 36
  {
    if i < 10 then '0' as int + i else 'A' as int + (i - 10)
  }

  /** The digits are 0 to 9 and A to Z, and each has its place as its value. */
  lemma {:induction false} DigitsAre(i: nat)
    requires i < 36
    ensures DigitValue(Digit(i)) == i
    ensures Digit(i) == if i < 10 then "0123456789"[i] as int else "ABCDEFGHIJKLMNOPQRSTUVWXYZ"[i - 10] as int
  {
    if i < 10 {
      LowDigits(i);
    } else {
      HighDigits(i - 10);
    }
  }

  lemma {:induction false} LowDigits(i: nat)
    requires i < 10
    ensures Digit(i) == "0123456789"[i] as int
  {
  }

  lemma {:induction false} HighDigits(i: nat)
    requires i < 26
    ensures Digit(10 + i) == "ABCDEFGHIJKLMNOPQRSTUVWXYZ"[i] as int
  {
  }

  /** The value of a digit character; 36 for any other. */
  function DigitValue(b: byte): nat {
    if '0' as int <= b <= '9' as int then b - '0' as int
    else if 'A' as int <= b <= 'Z' as int then b - 'A' as int + 10
    else 36
  }

  /** The number that a string of digits stands for, most significant digit first. */
  function Value(s: seq<byte>, r: radix): nat {
    if s == [] then 0 else Value(s[..|s| - 1], r) * r + DigitValue(s[|s| - 1])
  }

  /** A nonempty string of digits below r, without a leading zero unless it is the number zero. */
  ghost predicate IsNumeral(s: seq<byte>, r: radix) {
    && s != []
    && (forall k :: 0 <= k < |s| ==> DigitValue(s[k]) < r)
    && (|s| > 1 ==> DigitValue(s[0]) != 0)
  }

  /** The numeral of a number. */
  function Numeral(v: nat, r: radix): (s: seq<byte>)
    ensures s != []
  {
    if v < r then [Digit(v)]
    else
      DivLess(v, r);
      Numeral(v / r, r) + [Digit(v % r)]
  }

  lemma {:induction false} DivLess(v: nat, r: radix)
    requires v > 0
    ensures 0 <= v / r < v && 0 <= v % r < r && v == v / r * r + v % r
  {
    var q := v / r;
    assert v == q * r + v % r;
    MulMono(2, r, q);
  }

  /** What itoa prints reads back as the number. */
  lemma {:induction false} NumeralReadsBack(v: nat, r: radix)
    ensures Value(Numeral(v, r), r) == v && IsNumeral(Numeral(v, r), r)
    ensures v > 0 ==> DigitValue(Numeral(v, r)[0]) != 0
    decreases v
  {
    var s := Numeral(v, r);
    if v < r {
      assert s[..0] == [];
    } else {
      DivLess(v, r);
      NumeralReadsBack(v / r, r);
      assert s[..|s| - 1] == Numeral(v / r, r);
      assert v / r > 0;
    }
  }

  /** And nothing else does: a numeral is what itoa prints for its value. */
  lemma {:induction false} NumeralIsUnique(s: seq<byte>, r: radix)
    requires IsNumeral(s, r)
    ensures Numeral(Value(s, r), r) == s
    decreases |s|
  {
    var d := DigitValue(s[|s| - 1]);
    if |s| == 1 {
      assert s[..0] == [];
      assert Value(s, r) == d;
    } else {
      var t := s[..|s| - 1];
      var u := Value(t, r);
      NumeralIsUnique(t, r);
      Positive(t, r);
      assert Value(s, r) == u * r + d;
      DivMod(u, d, r);
      MulMono(1, u, r);
      assert u * r + d >= r;
      assert s == t + [s[|s| - 1]];
    }
  }

  lemma {:induction false} Positive(s: seq<byte>, r: radix)
    requires IsNumeral(s, r) && DigitValue(s[0]) != 0
    ensures Value(s, r) > 0
    decreases |s|
  {
    var t := s[..|s| - 1];
    if |s| > 1 {
      Positive(t, r);
      MulMono(1, Value(t, r), r);
    } else {
      assert Value(t, r) == 0;
    }
  }

  // ---------------------------------------------------------------- itoa

  /** The digits as the loop of itoa finds them, least significant first. */
  function LowFirst(v: nat, r: radix): seq<byte> {
    if v == 0 then []
    else
      DivLess(v, r);
      [Digit(v % r)] + LowFirst(v / r, r)
  }

  function Reversed(s: seq<byte>): (t: seq<byte>)
    ensures |t| == |s| && forall k :: 0 <= k < |s| ==> t[k] == s[|s| - 1 - k]
  {
    seq<byte>(|s|, k requires 0 <= k < |s| => s[|s| - 1 - k])
  }

  lemma {:induction false} ReversedDigits(v: nat, r: radix)
    requires v > 0
    ensures Reversed(LowFirst(v, r)) == Numeral(v, r)
    decreases v
  {
    DivLess(v, r);
    var low := LowFirst(v / r, r);
    if v < r {
      assert v / r == 0 && v % r == v by { DivMod(0, v, r); }
    } else {
      assert v / r > 0;
      ReversedDigits(v / r, r);
    }
    assert Reversed([Digit(v % r)] + low) == Reversed(low) + [Digit(v % r)];
  }

  function Pow(b: nat, k: nat): nat {
    if k == 0 then 1 else b * Pow(b, k - 1)
  }

  lemma {:induction false} QuotientBelow(v: nat, q: nat, r: nat, b: nat, p: nat)
    requires q * r <= v < b * p && b <= r
    ensures q < p
  {
    if q >= p {
      MulMono(p, q, r);
      MulMono(b, r, p);
    }
  }

  /** A number below b^k has at most k digits in base r, b at most r. */
  lemma {:induction false} DigitCount(v: nat, r: radix, b: nat, k: nat)
    requires 2 <= b <= r && v < Pow(b, k)
    ensures |LowFirst(v, r)| <= k
    decreases k
  {
    if v == 0 {
    } else {
      DivLess(v, r);
      QuotientBelow(v, v / r, r, b, Pow(b, k - 1));
      DigitCount(v / r, r, b, k - 1);
    }
  }

  /** strrev: the string at p, reversed in place. */
  method StrRev(s: array<byte>, p: nat, ghost q: nat)
    requires EndsAt(s[..], p, q)
    modifies s
    ensures s[p..q] == Reversed(old(s[p..q]))
    ensures forall k :: 0 <= k < s.Length && !(p <= k < q) ==> s[k] == old(s[k])
  {
    ghost var was := s[..];
    var len := StrLen(s, p, q);
    var beg, end: int := p, p + len - 1;
    while beg < end
      invariant p <= beg <= end + 1 <= q && beg + end == p + q - 1
      invariant forall k :: p <= k < beg || end < k < q ==> s[k] == was[p + q - 1 - k]
      invariant forall k :: 0 <= k < s.Length && !(p <= k < beg || end < k < q) ==> s[k] == was[k]
    {
      var tmp := s[end];
      s[end] := s[beg];
      s[beg] := tmp;
      beg, end := beg + 1, end - 1;
    }
    assert forall k :: p <= k < q ==> s[k] == was[p + q - 1 - k];
    forall k | 0 <= k < len ensures s[p..q][k] == Reversed(was[p..q])[k] {
      assert s[p + k] == was[p + q - 1 - (p + k)];
    }
  }

  /** The digit loop of itoa. */
  method WriteDigits(value: nat, buf: array<byte>, p: nat, r: radix) returns (end: nat)
    requires p + |LowFirst(value, r)| <= buf.Length
    modifies buf
    ensures end == p + |LowFirst(value, r)| && buf[p..end] == LowFirst(value, r)
    ensures forall k :: 0 <= k < buf.Length && !(p <= k < end) ==> buf[k] == old(buf[k])
  {
    end := p;
    var newval: nat := value;
    ghost var digits := LowFirst(value, r);
    while newval > 0
      invariant p <= end && end - p <= |digits| && digits[end - p..] == LowFirst(newval, r)
      invariant buf[p..end] == digits[..end - p]
      invariant forall k :: 0 <= k < buf.Length && !(p <= k < end) ==> buf[k] == old(buf[k])
    {
      DivLess(newval, r);
      ghost var rest := digits[end - p..];
      assert rest[0] == digits[end - p] == Digit(newval % r);
      assert rest[1..] == digits[end - p + 1..];
      ghost var done := buf[p..end];
      buf[end] := Digit(newval % r);
      assert buf[p..end + 1] == done + [buf[end]];
      end, newval := end + 1, newval / r;
    }
  }

  /** itoa: the numeral of value, terminated, at index p of the buffer. */
  method Itoa(value: nat, buf: array<byte>, p: nat, r: radix)
    requires value < U32 && p + |Numeral(value, r)| < buf.Length
    modifies buf
    ensures var q := p + |Numeral(value, r)|;
      && buf[p..q] == Numeral(value, r)
      && EndsAt(buf[..], p, q)
      && forall k :: 0 <= k < buf.Length && !(p <= k <= q) ==> buf[k] == old(buf[k])
  {
    if value == 0 {
      buf[p] := Digit(0);
      buf[p + 1] := NUL;
      return;
    }
    ReversedDigits(value, r);
    var end := WriteDigits(value, buf, p, r);
    buf[end] := NUL;
    ghost var digits := LowFirst(value, r);
    LowFirstDigits(value, r);
    assert buf[p..end] == digits;
    assert forall k :: p <= k < end ==> buf[k] == digits[k - p];
    StrRev(buf, p, end);
    NumeralHasNoNul(value, r);
    assert forall k :: p <= k < end ==> buf[k] == Numeral(value, r)[k - p];
  }

  lemma {:induction false} NumeralHasNoNul(v: nat, r: radix)
    ensures NUL !in Numeral(v, r)
  {
    NumeralReadsBack(v, r);
  }

  lemma {:induction false} LowFirstDigits(v: nat, r: radix)
    ensures NUL !in LowFirst(v, r)
    decreases v
  {
    if v == 0 {
    } else {
      DivLess(v, r);
      LowFirstDigits(v / r, r);
    }
  }

  // ---------------------------------------------------------------- printf

  lemma {:induction false} PowersOfTwo()
    ensures Pow(2, 32) == U32 && Pow(16, 8) == U32
  {
    assert Pow(2, 8) == 256;
    PowAdd(2, 8, 8);
    PowAdd(2, 16, 16);
    assert Pow(16, 4) == 0x1_0000;
    PowAdd(16, 4, 4);
  }

  lemma {:induction false} PowAdd(b: nat, i: nat, j: nat)
    ensures Pow(b, i + j) == Pow(b, i) * Pow(b, j)
    decreases i
  {
    if i == 0 {
    } else {
      PowAdd(b, i - 1, j);
      assert b * (Pow(b, i - 1) * Pow(b, j)) == b * Pow(b, i - 1) * Pow(b, j);
    }
  }

  /** A 32-bit number has at most 32 digits, and at most 8 in base 16. */
  lemma {:induction false} NumeralLength(v: nat, r: radix)
    requires v < U32
    ensures |Numeral(v, r)| <= 32 && (r == 16 ==> |Numeral(v, r)| <= 8)
  {
    if v > 0 {
      PowersOfTwo();
      ReversedDigits(v, r);
      DigitCount(v, r, 2, 32);
      if r == 16 {
        DigitCount(v, 16, 16, 8);
      }
    }
  }

  lemma {:induction false} LeadingZeros(n: nat, s: seq<byte>, r: radix)
    ensures Value(seq(n, _ => '0' as int) + s, r) == Value(s, r)
    decreases |s|, n
  {
    var zeros: seq<byte> := seq(n, _ => '0' as int);
    var t := zeros + s;
    if s == [] {
      if n > 0 {
        assert t[..|t| - 1] == seq(n - 1, _ => '0' as int) + [];
        LeadingZeros(n - 1, [], r);
      }
    } else {
      assert t[..|t| - 1] == zeros + s[..|s| - 1];
      LeadingZeros(n, s[..|s| - 1], r);
    }
  }

  /** printf "%#x": always eight hexadecimal digits, and they read back as the number. */
  method PrintHex8(value: nat) returns (out: seq<byte>)
    requires value < U32
    ensures |out| == 8 && Value(out, 16) == value
    ensures forall k :: 0 <= k < 8 ==> DigitValue(out[k]) < 16
  {
    var buf := new byte[64];
    ghost var text := Numeral(value, 16);
    NumeralLength(value, 16);
    Itoa(value, buf, 8, 16);
    var start := StrLen(buf, 8, 8 + |text|);
    var i := start;
    while i < 8
      invariant start <= i <= 8
      invariant forall k :: start <= k < i ==> buf[k] == '0' as int
      invariant forall k :: 8 <= k < 8 + |text| ==> buf[k] == text[k - 8]
      invariant EndsAt(buf[..], 8, 8 + |text|)
    {
      buf[i] := '0' as int;
      i := i + 1;
    }
    var len := StrLen(buf, start, 8 + start);
    out := buf[start..start + len];
    assert forall k :: 0 <= k < 8 ==> out[k] == buf[start + k];
    EightDigits(value, out, 8 - start);
  }

  lemma {:induction false} EightDigits(value: nat, out: seq<byte>, zeros: nat)
    requires value < U32 && |out| == 8 && zeros + |Numeral(value, 16)| == 8
    requires forall k :: 0 <= k < zeros ==> out[k] == '0' as int
    requires forall k :: zeros <= k < 8 ==> out[k] == Numeral(value, 16)[k - zeros]
    ensures Value(out, 16) == value
    ensures forall k :: 0 <= k < 8 ==> DigitValue(out[k]) < 16
  {
    var text := Numeral(value, 16);
    LeadingZeros(zeros, text, 16);
    assert out == seq(zeros, _ => '0' as int) + text;
    NumeralReadsBack(value, 16);
  }

  /** The signed number that a decimal string stands for. */
  function SignedValue(s: seq<byte>): int {
    if s != [] && s[0] == '-' as int then -(Value(s[1..], 10) as int) else Value(s, 10)
  }

  /** printf "%d": the decimal numeral, with a sign if need be; -value is computed in 32 bits. */
  method PrintSigned(value: int) returns (out: seq<byte>)
    requires -0x8000_0000 <= value < 0x8000_0000
    ensures SignedValue(out) == value
    ensures IsNumeral(out, 10) || (out != [] && out[0] == '-' as int && IsNumeral(out[1..], 10))
  {
    var buf := new byte[36];
    if value < 0 {
      buf[0] := '-' as int;
      var negated := (U32 - value) % U32;
      NumeralLength(negated, 10);
      NumeralReadsBack(negated, 10);
      Itoa(negated, buf, 1, 10);
      var len := StrLen(buf, 0, 1 + |Numeral(negated, 10)|);
      out := buf[..len];
      assert out[1..] == buf[1..len];
    } else {
      NumeralLength(value, 10);
      NumeralReadsBack(value, 10);
      Itoa(value, buf, 0, 10);
      var len := StrLen(buf, 0, |Numeral(value, 10)|);
      out := buf[..len];
      assert DigitValue(out[0]) < 10;
    }
  }
}
