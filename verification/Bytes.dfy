/** Bytes, constants and the C strings that the kernel and the user programs share. */
module Bytes {

  type byte = b: int | 0 <= b < 256

  const NUL: byte := 0
  const NEWLINE: byte := 10
  const SPACE: byte := 32

  /** How many values 16 and 32 bits have. */
  const U16 := 0x1_0000
  const U32 := 0x1_0000_0000

  /** How many terminals there are. */
  const TERMINALS := 3

  /** The text screen. */
  const COLUMNS := 80
  const CELLS := 2000

  /** A message of a program. */
  function Ascii(s: string): seq<byte> {
    seq(|s|, i requires 0 <= i < |s| => s[i] as int % 256)
  }

  const READ_FAILED := Ascii("file read failed\n")

  /** The C string that starts at index p of the memory s ends at index q. */
  ghost predicate EndsAt(s: seq<byte>, p: int, q: int) {
    && 0 <= p <= q < |s|
    && s[q] == NUL
    && forall k :: p <= k < q ==> s[k] != NUL
  }

  /** At most the first n elements. */
  function Clip<T>(s: seq<T>, n: nat): seq<T> {
    if n <= |s| then s[..n] else s
  }

  /** The lines with newlines between them. */
  function Unlines(lines: seq<seq<byte>>): seq<byte> {
    if lines == [] then []
    else if |lines| == 1 then lines[0]
    else lines[0] + [10] + Unlines(lines[1..])
  }

  lemma {:induction false} UnlinesFirst(first: seq<byte>, rest: seq<seq<byte>>)
    ensures Unlines([first] + rest) == if rest == [] then first else first + [10] + Unlines(rest)
  {
    assert ([first] + rest)[1..] == rest;
  }

  lemma {:induction false} ClipAgrees(c: seq<byte>, d: seq<byte>, n: nat, m: nat)
    requires m <= |c| && m <= |d| && (m == n || m == |c| == |d| <= n) && forall k :: 0 <= k < m ==> c[k] == d[k]
    ensures Clip(c, n) == Clip(d, n)
  {
    assert Clip(c, n) == c[..m] && Clip(d, n) == d[..m];
  }

  lemma {:induction false} ClipDiffers(c: seq<byte>, d: seq<byte>, n: nat, i: nat)
    requires i < n && i <= |c| && i <= |d| && (i < |c| || i < |d|)
    requires i < |c| && i < |d| ==> c[i] != d[i]
    ensures Clip(c, n) != Clip(d, n)
  {
    if i < |c| && i < |d| {
      assert Clip(c, n)[i] != Clip(d, n)[i];
    }
  }

  /** ece391_strlen on the string that starts at p. */
  method StrLen(a: array<byte>, p: nat, ghost q: nat) returns (len: nat)
    requires EndsAt(a[..], p, q)
    ensures p + len == q
  {
    len := 0;
    while a[p + len] != NUL
      invariant p + len <= q
      decreases q - len
    {
      len := len + 1;
    }
  }

  /**
   * ece391_strcpy inside one memory, to an address at or below the source: the
   * string and its terminator arrive intact although the two areas may overlap.
   */
  method StrCpyDown(a: array<byte>, dst: nat, src: nat, ghost q: nat)
    requires dst <= src && EndsAt(a[..], src, q)
    modifies a
    ensures forall k :: dst <= k <= dst + (q - src) ==> a[k] == old(a[k + (src - dst)])
    ensures forall k :: 0 <= k < a.Length && !(dst <= k <= dst + (q - src)) ==> a[k] == old(a[k])
  {
    var i := 0;
    assert a[..][q] == NUL;
    while a[src + i] != NUL
      invariant 0 <= i <= q - src
      invariant forall k :: 0 <= k < a.Length && !(dst <= k < dst + i) ==> a[k] == old(a[k])
      invariant forall k :: dst <= k < dst + i ==> a[k] == old(a[k + (src - dst)])
      decreases q - src - i
    {
      assert old(a[..])[src + i] != NUL;
      a[dst + i] := a[src + i];
      i := i + 1;
    }
    assert i == q - src by {
      assert old(a[..])[src + i] == NUL;
    }
    a[dst + i] := a[src + i];
  }

  /**
   * ece391_strncmp of the string at a[p..q] with the terminated string t[..e]:
   * the result is 0 exactly when the two agree on their first n characters.
   */
  method StrNCmp(a: array<byte>, p: nat, ghost q: nat, t: seq<byte>, ghost e: nat, n: nat) returns (r: int)
    requires EndsAt(a[..], p, q) && EndsAt(t, 0, e)
    ensures r == 0 <==> Clip(a[p..q], n) == Clip(t[..e], n)
  {
    if n == 0 {
      return 0;
    }
    var i := 0;
    while a[p + i] == t[i]
      invariant 0 <= i < n && p + i <= q && i <= e
      invariant forall k :: 0 <= k < i ==> a[p + k] == t[k]
      decreases q - p - i
    {
      if a[p + i] == NUL || i + 1 == n {
        assert a[..][p + i] == t[i];
        assert if a[p + i] == NUL then p + i == q && i == e else p + n <= q && n <= e;
        ClipAgrees(a[p..q], t[..e], n, if a[p + i] == NUL then i else n);
        return 0;
      }
      assert a[..][p + i] != NUL && i != e;
      i := i + 1;
    }
    assert a[..][p + i] != t[i];
    r := a[p + i] as int - t[i] as int;
    ClipDiffers(a[p..q], t[..e], n, i);
  }
}
