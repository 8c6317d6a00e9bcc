/** memcpy, memmove and memset of student-distrib/lib.c, on one byte-addressed memory. */
module Memory {
  import opened Bytes

  /** Memory m after the n bytes at src have been put at dest, all read before any is written. */
  function Moved(m: seq<byte>, dest: nat, src: nat, n: nat): (r: seq<byte>)
    requires dest + n <= |m| && src + n <= |m|
    ensures |r| == |m|
  {
    seq(|m|, k requires 0 <= k < |m| => if dest <= k < dest + n then m[src + (k - dest)] else m[k])
  }

  /** How many bytes memcpy moves next: a word when dest is aligned and a word is left. */
  function Stride(dest: nat, n: nat): (k: nat)
    ensures n > 0 ==> 1 <= k <= n
  {
    if dest % 4 == 0 && n >= 4 then 4 else 1
  }

  /** What memcpy leaves: one stride after the other, upwards. */
  function Copied(m: seq<byte>, dest: nat, src: nat, n: nat): (r: seq<byte>)
    requires dest + n <= |m| && src + n <= |m|
    ensures |r| == |m|
    decreases n
  {
    if n == 0 then m
    else
      var k := Stride(dest, n);
      Copied(Moved(m, dest, src, k), dest + k, src + k, n - k)
  }

  /** A single movb or movsl: the bytes are read before they are written. */
  method MoveBytes(mem: array<byte>, dest: nat, src: nat, k: nat)
    requires 1 <= k <= 4 && dest + k <= mem.Length && src + k <= mem.Length
    modifies mem
    ensures mem[..] == Moved(old(mem[..]), dest, src, k)
  {
    var b0 := mem[src];
    var b1 := if k > 1 then mem[src + 1] else 0;
    var b2 := if k > 2 then mem[src + 2] else 0;
    var b3 := if k > 3 then mem[src + 3] else 0;
    mem[dest] := b0;
    if k > 1 { mem[dest + 1] := b1; }
    if k > 2 { mem[dest + 2] := b2; }
    if k > 3 { mem[dest + 3] := b3; }
  }

  /** memcpy with n bytes to go from here will leave goal. */
  ghost predicate Towards(m: seq<byte>, dest: nat, src: nat, n: nat, goal: seq<byte>) {
    dest + n <= |m| && src + n <= |m| && Copied(m, dest, src, n) == goal
  }

  /** One stride of memcpy with n bytes to go. */
  method CopyStep(mem: array<byte>, dest: nat, src: nat, ghost n: nat, k: nat, ghost goal: seq<byte>)
    requires n > 0 && k == Stride(dest, n) && Towards(mem[..], dest, src, n, goal)
    modifies mem
    ensures Towards(mem[..], dest + k, src + k, n - k, goal)
  {
    CopyUnfolds(mem[..], dest, src, n, k);
    MoveBytes(mem, dest, src, k);
  }

  lemma {:induction false} CopyUnfolds(m: seq<byte>, dest: nat, src: nat, n: nat, k: nat)
    requires dest + n <= |m| && src + n <= |m| && n > 0 && k == Stride(dest, n)
    ensures Copied(m, dest, src, n) == Copied(Moved(m, dest, src, k), dest + k, src + k, n - k)
  {
  }

  /** rep movsl: words words, left bytes to go. */
  method CopyWords(mem: array<byte>, dest: nat, src: nat, words: nat, ghost left: nat, ghost goal: seq<byte>)
    requires 4 * words <= left && (words > 0 ==> dest % 4 == 0) && Towards(mem[..], dest, src, left, goal)
    modifies mem
    ensures Towards(mem[..], dest + 4 * words, src + 4 * words, left - 4 * words, goal)
  {
    var edi, esi, ecx: nat := dest, src, words;
    ghost var togo: nat := left;
    while ecx != 0
      invariant ecx <= words && edi == dest + 4 * (words - ecx) && esi == src + 4 * (words - ecx)
      invariant togo == left - 4 * (words - ecx) && (words > 0 ==> edi % 4 == 0)
      invariant Towards(mem[..], edi, esi, togo, goal)
      decreases ecx
    {
      CopyStep(mem, edi, esi, togo, 4, goal);
      edi, esi, ecx, togo := edi + 4, esi + 4, ecx - 1, togo - 4;
    }
  }

  /** The bytes behind the last word. */
  method CopyTail(mem: array<byte>, dest: nat, src: nat, n: nat, ghost goal: seq<byte>)
    requires n < 4 && Towards(mem[..], dest, src, n, goal)
    modifies mem
    ensures mem[..] == goal
  {
    var edi, esi, edx: nat := dest, src, n;
    while edx != 0
      invariant edx <= n && Towards(mem[..], edi, esi, edx, goal)
      decreases edx
    {
      CopyStep(mem, edi, esi, edx, 1, goal);
      edi, esi, edx := edi + 1, esi + 1, edx - 1;
    }
  }

  /** The bytes until dest is aligned. */
  method CopyHead(mem: array<byte>, dest: nat, src: nat, n: nat, ghost goal: seq<byte>)
    returns (edi: nat, esi: nat, ecx: nat)
    requires Towards(mem[..], dest, src, n, goal)
    modifies mem
    ensures Towards(mem[..], edi, esi, ecx, goal) && (ecx == 0 || edi % 4 == 0)
  {
    edi, esi, ecx := dest, src, n;
    while ecx != 0 && edi % 4 != 0
      invariant Towards(mem[..], edi, esi, ecx, goal)
      decreases ecx
    {
      CopyStep(mem, edi, esi, ecx, 1, goal);
      edi, esi, ecx := edi + 1, esi + 1, ecx - 1;
    }
  }

  /** memcpy: bytes until dest is aligned, then words, then the bytes that are left. */
  method MemCpy(mem: array<byte>, dest: nat, src: nat, n: nat)
    requires dest + n <= mem.Length && src + n <= mem.Length
    modifies mem
    ensures mem[..] == Copied(old(mem[..]), dest, src, n)
  {
    ghost var goal := Copied(mem[..], dest, src, n);
    var edi, esi, ecx := CopyHead(mem, dest, src, n, goal);
    var edx := ecx % 4;
    CopyWords(mem, edi, esi, ecx / 4, ecx, goal);
    CopyTail(mem, edi + (ecx - edx), esi + (ecx - edx), edx, goal);
  }

  /** The areas do not overlap, or dest is not above src, or the copy is a single aligned word. */
  predicate CopySafe(dest: nat, src: nat, n: nat) {
    dest <= src || src + n <= dest || (dest % 4 == 0 && n == 4)
  }

  /**
   * A move of k bytes and one of the others make one move of n, if the first overwrites
   * nothing that the second reads.
   */
  lemma {:induction false} MovedTwice(m: seq<byte>, dest: nat, src: nat, n: nat, k: nat)
    requires dest + n <= |m| && src + n <= |m| && k <= n && (k == n || dest <= src || src + n <= dest)
    ensures Moved(Moved(m, dest, src, k), dest + k, src + k, n - k) == Moved(m, dest, src, n)
  {
  }

  lemma {:induction false} CopyIsMove(m: seq<byte>, dest: nat, src: nat, n: nat)
    requires dest + n <= |m| && src + n <= |m| && CopySafe(dest, src, n)
    ensures Copied(m, dest, src, n) == Moved(m, dest, src, n)
    decreases n
  {
    if n == 0 {
      assert Moved(m, dest, src, 0) == m;
    } else {
      var k := Stride(dest, n);
      CopyUnfolds(m, dest, src, n, k);
      CopyIsMove(Moved(m, dest, src, k), dest + k, src + k, n - k);
      MovedTwice(m, dest, src, n, k);
    }
  }

  lemma {:induction false} CopyKeeps(m: seq<byte>, dest: nat, src: nat, n: nat, x: nat)
    requires dest + n <= |m| && src + n <= |m| && x < |m| && !(dest <= x < dest + n)
    ensures Copied(m, dest, src, n)[x] == m[x]
    decreases n
  {
    if n == 0 {
    } else {
      var k := Stride(dest, n);
      CopyKeeps(Moved(m, dest, src, k), dest + k, src + k, n - k, x);
    }
  }

  /** A source byte below the destination area arrives as it is. */
  lemma {:induction false} CopyReads(m: seq<byte>, dest: nat, src: nat, n: nat, t: nat)
    requires dest + n <= |m| && src + n <= |m| && t < n && src + t < dest
    ensures Copied(m, dest, src, n)[dest + t] == m[src + t]
    decreases n
  {
    var k := Stride(dest, n);
    var m1 := Moved(m, dest, src, k);
    if t < k {
      CopyKeeps(m1, dest + k, src + k, n - k, dest + t);
    } else {
      CopyReads(m1, dest + k, src + k, n - k, t - k);
    }
  }

  /** Where the copy is not safe, one byte that the first stride overwrites is read by a later one. */
  lemma {:induction false} UnsafeCopy(size: nat, dest: nat, src: nat, n: nat) returns (m: seq<byte>)
    requires dest + n <= size && src + n <= size && !CopySafe(dest, src, n)
    ensures |m| == size && Copied(m, dest, src, n) != Moved(m, dest, src, n)
  {
    var d, k := dest - src, Stride(dest, n);
    var i := if d >= k then 0 else k - d;
    m := seq(size, x => if x == src + i then 1 else 0);
    var m1 := Moved(m, dest, src, k);
    CopyReads(m1, dest + k, src + k, n - k, i + d - k);
    assert Copied(m, dest, src, n)[dest + i + d] == 1;
    assert Moved(m, dest, src, n)[dest + i + d] == 0;
  }

  /** memcpy moves every contents of the memory faithfully if and only if the areas are CopySafe. */
  lemma {:induction false} MemCpyIff(size: nat, dest: nat, src: nat, n: nat)
    requires dest + n <= size && src + n <= size
    ensures (forall m: seq<byte> :: |m| == size ==> Copied(m, dest, src, n) == Moved(m, dest, src, n))
      <==> CopySafe(dest, src, n)
  {
    if CopySafe(dest, src, n) {
      forall m: seq<byte> | |m| == size ensures Copied(m, dest, src, n) == Moved(m, dest, src, n) {
        CopyIsMove(m, dest, src, n);
      }
    } else {
      var m := UnsafeCopy(size, dest, src, n);
    }
  }

  /** What memcpy leaves in each byte, if dest is not above src, the areas are apart or it is one aligned word. */
  lemma {:induction false} CopiedBytes(m: seq<byte>, dest: nat, src: nat, n: nat, k: nat)
    requires dest + n <= |m| && src + n <= |m| && k < |m|
    requires dest <= src || src + n <= dest || (dest % 4 == 0 && n == 4)
    ensures Copied(m, dest, src, n)[k] == if dest <= k < dest + n then m[src + (k - dest)] else m[k]
  {
    CopyIsMove(m, dest, src, n);
  }

  /** memmove: upwards when src is not below dest, else downwards; right for every overlap. */
  method MemMove(mem: array<byte>, dest: nat, src: nat, n: nat)
    requires dest + n <= mem.Length && src + n <= mem.Length
    modifies mem
    ensures mem[..] == Moved(old(mem[..]), dest, src, n)
    ensures forall k :: 0 <= k < mem.Length ==>
      mem[k] == if dest <= k < dest + n then old(mem[src + (k - dest)]) else old(mem[k])
  {
    if src >= dest {
      for i := 0 to n
        invariant forall k :: 0 <= k < mem.Length ==>
          mem[k] == if dest <= k < dest + i then old(mem[src + (k - dest)]) else old(mem[k])
      {
        mem[dest + i] := mem[src + i];
      }
    } else {
      for i := n downto 0
        invariant forall k :: 0 <= k < mem.Length ==>
          mem[k] == if dest + i <= k < dest + n then old(mem[src + (k - dest)]) else old(mem[k])
      {
        mem[dest + i] := mem[src + i];
      }
    }
  }

  /** Memory m with n bytes from s on set to b. */
  function Filled(m: seq<byte>, s: nat, b: byte, n: nat): (r: seq<byte>)
    requires s + n <= |m|
    ensures |r| == |m|
  {
    seq(|m|, k requires 0 <= k < |m| => if s <= k < s + n then b else m[k])
  }

  /** memset: the low byte of c, in bytes until s is aligned, then in words, then in bytes. */
  method MemSet(mem: array<byte>, s: nat, c: int, n: nat)
    requires s + n <= mem.Length
    modifies mem
    ensures mem[..] == Filled(old(mem[..]), s, c % 256, n)
    ensures forall k :: 0 <= k < mem.Length ==> mem[k] == if s <= k < s + n then c % 256 else old(mem[k])
  {
    var al: byte := c % 256;
    var edi, ecx: nat := s, n;
    while ecx != 0 && edi % 4 != 0
      invariant edi + ecx == s + n && s <= edi
      invariant forall k :: 0 <= k < mem.Length ==> mem[k] == if s <= k < edi then al else old(mem[k])
      decreases ecx
    {
      mem[edi] := al;
      edi, ecx := edi + 1, ecx - 1;
    }
    var edx: nat := ecx % 4;
    ecx := ecx / 4;
    while ecx != 0
      invariant edi + 4 * ecx + edx == s + n && s <= edi
      invariant forall k :: 0 <= k < mem.Length ==> mem[k] == if s <= k < edi then al else old(mem[k])
      decreases ecx
    {
      mem[edi], mem[edi + 1], mem[edi + 2], mem[edi + 3] := al, al, al, al;
      edi, ecx := edi + 4, ecx - 1;
    }
    while edx != 0
      invariant edi + edx == s + n && s <= edi
      invariant forall k :: 0 <= k < mem.Length ==> mem[k] == if s <= k < edi then al else old(mem[k])
      decreases edx
    {
      mem[edi] := al;
      edi, edx := edi + 1, edx - 1;
    }
  }
}
