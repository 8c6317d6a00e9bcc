/**
 * The read-only block file system of student-distrib/filesystem.c: read_data walks
 * the data blocks of an inode, read_fs reads on through a descriptor.
 */
module FileSystem {
  import opened Bytes

  const BLOCK := 4096
  const ENTRIES := 1023

  type word = w: int | 0 <= w < U32

  const REG_FILE := 2

  datatype Dentry = Dentry(filetype: int, inode: int)

  /**
   * An image in memory. words is the memory from inode_start_addr on, read as 32-bit
   * words: an inode is 1024 words, its length and 1023 block numbers, and the word
   * after the last inode belongs to the first data block.
   */
  datatype Image = Image(dentries: seq<Dentry>, numInode: nat, words: seq<word>, blocks: seq<seq<byte>>) {

    ghost predicate WellFormed() {
      && |words| > numInode * (ENTRIES + 1)
      && (forall b :: 0 <= b < |blocks| ==> |blocks[b]| == BLOCK)
      && (forall i :: 0 <= i < numInode ==> Size(i) <= ENTRIES * BLOCK)
    }

    function Size(inode: nat): nat
      requires inode < numInode && |words| > numInode * (ENTRIES + 1)
    {
      words[inode * (ENTRIES + 1)]
    }

    /** dblocks[k] of an inode, stored into a 16-bit variable. */
    function Entry(inode: nat, k: nat): (r: nat)
      requires inode < numInode && k <= ENTRIES && |words| > numInode * (ENTRIES + 1)
    {
      words[inode * (ENTRIES + 1) + 1 + k] % U16
    }

    predicate Usable(inode: nat, k: nat)
      requires inode < numInode && k <= ENTRIES && |words| > numInode * (ENTRIES + 1)
    {
      Entry(inode, k) < |blocks|
    }

    /** Byte i of the blocks of an inode, as the source addresses it. */
    function ByteAt(inode: nat, i: nat): byte
      requires WellFormed() && inode < numInode && i < ENTRIES * BLOCK
    {
      if Usable(inode, i / BLOCK) then blocks[Entry(inode, i / BLOCK)][i % BLOCK] else 0
    }

    /** The n bytes from byte i on. */
    function Bytes(inode: nat, i: nat, n: nat): (s: seq<byte>)
      requires WellFormed() && inode < numInode && i + n <= ENTRIES * BLOCK
      ensures |s| == n
    {
      seq<byte>(n, j requires 0 <= j < n => ByteAt(inode, i + j))
    }

    // -------------------------------------------------------------- reference

    /** The first n data blocks of an inode, one after the other. */
    function Blocks(inode: nat, n: nat): (s: seq<byte>)
      requires WellFormed() && inode < numInode && n <= ENTRIES
      ensures |s| == n * BLOCK
    {
      if n == 0 then []
      else Blocks(inode, n - 1) + (if Usable(inode, n - 1) then blocks[Entry(inode, n - 1)] else seq(BLOCK, _ => 0))
    }

    /** The file: its blocks, cut to its size. */
    function File(inode: nat): (s: seq<byte>)
      requires WellFormed() && inode < numInode
      ensures |s| == Size(inode)
    {
      Blocks(inode, ENTRIES)[..Size(inode)]
    }

    /** The first unusable entry from k up to and including last, or last + 1. */
    function FirstBad(inode: nat, k: nat, last: nat): (r: nat)
      requires inode < numInode && k <= last + 1 && last <= ENTRIES && |words| > numInode * (ENTRIES + 1)
      ensures k <= r <= last + 1
      decreases last + 1 - k
    {
      if k > last || !Usable(inode, k) then k else FirstBad(inode, k + 1, last)
    }
  }

  lemma {:induction false} BlocksByte(img: Image, inode: nat, n: nat, i: nat)
    requires img.WellFormed() && inode < img.numInode && n <= ENTRIES && i < n * BLOCK
    ensures img.Blocks(inode, n)[i] == img.ByteAt(inode, i)
    decreases n
  {
    if i < (n - 1) * BLOCK {
      BlocksByte(img, inode, n - 1, i);
    } else {
      assert i / BLOCK == n - 1 && i % BLOCK == i - (n - 1) * BLOCK;
    }
  }

  /** The block walk addresses the bytes of the file: a slice by division and remainder is a slice of the file. */
  lemma {:induction false} BytesAreFile(img: Image, inode: nat, i: nat, n: nat)
    requires img.WellFormed() && inode < img.numInode && i + n <= img.Size(inode)
    ensures img.Bytes(inode, i, n) == img.File(inode)[i..i + n]
  {
    forall j | 0 <= j < n ensures img.Bytes(inode, i, n)[j] == img.File(inode)[i..i + n][j] {
      BlocksByte(img, inode, ENTRIES, i + j);
    }
  }

  // ---------------------------------------------------------------- read_data

  /** offset + length does not fit 32 bits. */
  predicate Overflows(offset: word, length: word) { offset as int + length as int >= U32 }

  /** How many bytes a read moves when all its blocks are usable. */
  function Moved(size: nat, offset: word, length: word): (n: nat) {
    if offset >= size then 0
    else if Overflows(offset, length) then BLOCK - offset % BLOCK
    else if offset as int + length as int >= size then size - offset
    else length
  }

  /** The last table entry that a read looks at. */
  function LastLooked(size: nat, offset: word, length: word): nat {
    if Overflows(offset, length) then offset / BLOCK else (offset as int + Moved(size, offset, length)) / BLOCK
  }

  lemma {:induction false} MovedFits(size: nat, offset: word, length: word)
    requires offset < size <= ENTRIES * BLOCK
    ensures offset as int + Moved(size, offset, length) <= ENTRIES * BLOCK
    ensures offset / BLOCK <= LastLooked(size, offset, length) <= ENTRIES
  {
    assert offset as int == BLOCK * (offset / BLOCK) + offset % BLOCK;
    assert offset / BLOCK < ENTRIES;
  }

  datatype ReadResult = ReadResult(ret: int, data: seq<byte>)

  /** What read_data returns and which bytes it stores: up to the first unusable block, all of them if there is none. */
  function ReadData(img: Image, inode: nat, offset: word, length: word): ReadResult
    requires img.WellFormed()
  {
    if inode >= img.numInode then ReadResult(-1, [])
    else if offset >= img.Size(inode) then ReadResult(0, [])
    else
      var size := img.Size(inode);
      MovedFits(size, offset, length);
      var n, last := Moved(size, offset, length), LastLooked(size, offset, length);
      var bad := img.FirstBad(inode, offset / BLOCK, last);
      if bad > last then ReadResult(n % U16, img.Bytes(inode, offset, n))
      else if bad == offset / BLOCK then ReadResult(-1, [])
      else ReadResult(-1, img.Bytes(inode, offset, bad * BLOCK - offset))
  }

  /** s is the memory was with n bytes of the file's blocks, from offset on, stored at index at. */
  ghost predicate Holds(img: Image, inode: nat, offset: nat, s: seq<byte>, was: seq<byte>, at: nat, n: nat)
    requires img.WellFormed() && inode < img.numInode && offset + n <= ENTRIES * BLOCK
  {
    && |s| == |was| && at + n <= |s|
    && (forall k :: at <= k < at + n ==> s[k] == img.ByteAt(inode, offset + (k - at)))
    && (forall k :: 0 <= k < |s| && !(at <= k < at + n) ==> s[k] == was[k])
  }

  /** memcpy of n bytes of data block idx, the one that holds byte offset + stored, behind those already stored. */
  method CopyBlock(img: Image, inode: nat, offset: nat, buf: array<byte>, at: nat, stored: nat, idx: nat, n: nat,
                   ghost was: seq<byte>)
    requires img.WellFormed() && inode < img.numInode && offset + stored + n <= ENTRIES * BLOCK
    requires n == 0 || (offset + stored) / BLOCK < ENTRIES
    requires n > 0 ==> idx == img.Entry(inode, (offset + stored) / BLOCK)
    requires idx < |img.blocks| && (offset + stored) % BLOCK + n <= BLOCK
    requires at + stored + n <= buf.Length && Holds(img, inode, offset, buf[..], was, at, stored)
    modifies buf
    ensures Holds(img, inode, offset, buf[..], was, at, stored + n)
  {
    var from := (offset + stored) % BLOCK;
    for i := 0 to n
      invariant Holds(img, inode, offset, buf[..], was, at, stored + i)
    {
      StepInBlock(offset + stored, i);
      buf[at + stored + i] := img.blocks[idx][from + i];
      assert buf[..][at + stored + i] == img.ByteAt(inode, offset + (stored + i));
    }
  }

  lemma {:induction false} StepInBlock(pos: nat, i: nat)
    requires pos % BLOCK + i < BLOCK
    ensures (pos + i) / BLOCK == pos / BLOCK && (pos + i) % BLOCK == pos % BLOCK + i
  {
  }

  lemma {:induction false} EndOfBlock(pos: nat)
    ensures pos + (BLOCK - pos % BLOCK) == (pos / BLOCK + 1) * BLOCK
  {
  }

  /** len bytes from pos on reach into the next block exactly when they fill this one. */
  lemma {:induction false} FillsBlock(pos: nat, len: nat)
    ensures len >= BLOCK - pos % BLOCK <==> (pos + len) / BLOCK > pos / BLOCK
  {
  }

  lemma {:induction false} CountOn(stored: nat, n: nat)
    ensures (stored % U16 + n) % U16 == (stored + n) % U16
  {
  }

  lemma {:induction false} FirstBadLaw(img: Image, inode: nat, k: nat, last: nat)
    requires inode < img.numInode && k <= last + 1 && last <= ENTRIES && |img.words| > img.numInode * (ENTRIES + 1)
    ensures var r := img.FirstBad(inode, k, last);
      (forall j :: k <= j < r ==> img.Usable(inode, j)) && (r <= last ==> !img.Usable(inode, r))
    decreases last + 1 - k
  {
    if k > last || !img.Usable(inode, k) {
    } else {
      FirstBadLaw(img, inode, k + 1, last);
    }
  }

  lemma {:induction false} FirstBadIs(img: Image, inode: nat, first: nat, last: nat, r: nat)
    requires inode < img.numInode && last <= ENTRIES && |img.words| > img.numInode * (ENTRIES + 1)
    requires first <= r <= last + 1 && AllUsable(img, inode, first, r)
    requires r <= last ==> !img.Usable(inode, r)
    ensures img.FirstBad(inode, first, last) == r
  {
    FirstBadLaw(img, inode, first, last);
  }

  /** What a read asks for: moved bytes from offset on, of which the loop looks at the entries up to last. */
  datatype Walk = Walk(offset: nat, length: nat, total: nat, moved: nat, last: nat) {
    predicate Sound() {
      && offset + moved <= ENTRIES * BLOCK && offset / BLOCK <= last <= ENTRIES
      && ((length == moved && total == last == (offset + length) / BLOCK)
          || (length >= BLOCK && moved == BLOCK - offset % BLOCK && total <= last == offset / BLOCK))
    }

    /** Before the round for entry current, with stored bytes stored and len bytes to go. */
    predicate At(current: nat, len: nat, stored: nat) {
      && offset / BLOCK <= current <= last && stored <= moved && (offset + stored) / BLOCK == current
      && (current == offset / BLOCK ==> stored == 0 && len == length)
      && (current > offset / BLOCK ==> offset + stored == current * BLOCK && total == last && len == moved - stored)
    }

    /** The share of the current block. */
    function Share(len: nat, stored: nat): nat {
      var room := BLOCK - (offset + stored) % BLOCK;
      if len >= room then room else len
    }
  }

  /** One round stays inside the block and inside what was asked for, and ends the loop with all of it or goes on. */
  lemma {:induction false} WalkStep(w: Walk, current: nat, len: nat, stored: nat, n: nat)
    requires w.Sound() && w.At(current, len, stored) && n == w.Share(len, stored)
    ensures (w.offset + stored) % BLOCK + n <= BLOCK && stored + n <= w.moved
    ensures n <= len && (n == 0 || current < ENTRIES)
    ensures if current + 1 > w.total then stored + n == w.moved && current == w.last
            else w.At(current + 1, len - n, stored + n)
  {
    EndOfBlock(w.offset + stored);
    FillsBlock(w.offset + stored, len);
  }

  /** The do-while loop of read_data. */
  method ReadBlocks(img: Image, inode: nat, offset: nat, buf: array<byte>, at: nat, length: nat, total: nat,
                    ghost w: Walk)
    returns (ret: int, stored: nat)
    requires img.WellFormed() && inode < img.numInode
    requires w.Sound() && w.offset == offset && w.length == length && w.total == total && at + w.moved <= buf.Length
    modifies buf
    ensures Outcome(img, inode, w, ret, stored)
    ensures stored <= w.moved && Holds(img, inode, offset, buf[..], old(buf[..]), at, stored)
  {
    ghost var was := buf[..];
    var current: nat, len: nat, written: nat := offset / BLOCK, length, 0;
    stored := 0;
    while true
      invariant Midway(img, inode, w, current, len, stored, written)
      invariant Holds(img, inode, offset, buf[..], was, at, stored)
      decreases w.last - current
    {
      var ok, n := CopyShare(img, inode, offset, buf, at, current, len, stored, w, was);
      if !ok {
        Stopped(img, inode, w, current, len, stored);
        return -1, stored;
      }
      OneRound(img, inode, w, current, len, stored, written, n);
      stored, len, written := stored + n, len - n, (written + n) % U16;
      current := current + 1;
      if current > total {
        break;
      }
    }
    ret := written;
  }

  /** Before the round for entry current. */
  ghost predicate Midway(img: Image, inode: nat, w: Walk, current: nat, len: nat, stored: nat, written: nat)
    requires img.WellFormed() && inode < img.numInode && w.Sound()
  {
    w.At(current, len, stored) && written == stored % U16 && AllUsable(img, inode, w.offset / BLOCK, current)
  }

  lemma {:induction false} OneRound(img: Image, inode: nat, w: Walk, current: nat, len: nat, stored: nat,
                                    written: nat, n: nat)
    requires img.WellFormed() && inode < img.numInode && w.Sound()
    requires Midway(img, inode, w, current, len, stored, written)
    requires img.Usable(inode, current) && n == w.Share(len, stored)
    ensures n <= len && stored + n <= w.moved
    ensures if current + 1 > w.total then Outcome(img, inode, w, (written + n) % U16, stored + n)
            else Midway(img, inode, w, current + 1, len - n, stored + n, (written + n) % U16)
  {
    WalkStep(w, current, len, stored, n);
    CountOn(stored, n);
    if current + 1 > w.total {
      FirstBadIs(img, inode, w.offset / BLOCK, w.last, w.last + 1);
    }
  }

  /** What the loop returns and how many bytes it stores, by the first entry that is not usable. */
  predicate Outcome(img: Image, inode: nat, w: Walk, ret: int, stored: nat)
    requires img.WellFormed() && inode < img.numInode && w.Sound()
  {
    var first, bad := w.offset / BLOCK, img.FirstBad(inode, w.offset / BLOCK, w.last);
    && stored == (if bad > w.last then w.moved else if bad == first then 0 else bad * BLOCK - w.offset)
    && ret == (if bad > w.last then w.moved % U16 else -1)
  }

  lemma {:induction false} Stopped(img: Image, inode: nat, w: Walk, current: nat, len: nat, stored: nat)
    requires img.WellFormed() && inode < img.numInode && w.Sound() && w.At(current, len, stored)
    requires AllUsable(img, inode, w.offset / BLOCK, current) && !img.Usable(inode, current)
    ensures Outcome(img, inode, w, -1, stored)
  {
    FirstBadIs(img, inode, w.offset / BLOCK, w.last, current);
  }

  ghost predicate AllUsable(img: Image, inode: nat, first: nat, current: nat)
    requires inode < img.numInode && |img.words| > img.numInode * (ENTRIES + 1)
  {
    forall j :: first <= j < current ==> j <= ENTRIES && img.Usable(inode, j)
  }

  /** One round of the loop: the share of one block, unless its entry is not usable. */
  method CopyShare(img: Image, inode: nat, offset: nat, buf: array<byte>, at: nat, current: nat, len: nat, stored: nat,
                   ghost w: Walk, ghost was: seq<byte>)
    returns (ok: bool, n: nat)
    requires img.WellFormed() && inode < img.numInode
    requires w.Sound() && w.offset == offset && w.At(current, len, stored) && at + w.moved <= buf.Length
    requires Holds(img, inode, offset, buf[..], was, at, stored)
    modifies buf
    ensures ok == img.Usable(inode, current) && n == w.Share(len, stored)
    ensures ok ==> stored + n <= w.moved && Holds(img, inode, offset, buf[..], was, at, stored + n)
    ensures !ok ==> Holds(img, inode, offset, buf[..], was, at, stored)
  {
    var inBlock := (offset + stored) % BLOCK;
    var idx := img.Entry(inode, current);
    n := if len >= BLOCK - inBlock then BLOCK - inBlock else len;
    ok := idx < |img.blocks|;
    if ok {
      WalkStep(w, current, len, stored, n);
      CopyBlock(img, inode, offset, buf, at, stored, idx, n, was);
    }
  }

  /** What the 16- and 32-bit arithmetic of read_data comes to. */
  lemma {:induction false} Widths(size: nat, offset: word, length: word)
    requires offset < size <= ENTRIES * BLOCK
    ensures var len: nat := if (offset as int + length as int) % U32 >= size then size - offset else length;
      var total := (offset as int + len) % U32 / BLOCK % U16;
      var moved, last := Moved(size, offset, length), LastLooked(size, offset, length);
      || (len == moved && total == last == (offset as int + len) / BLOCK)
      || (len >= BLOCK && moved == BLOCK - offset % BLOCK && total <= last == offset / BLOCK)
  {
    var x := offset as int + length as int;
    if Overflows(offset, length) {
      assert x % U32 == x - U32 < offset;
      Narrow(x - U32);
    } else {
      assert x % U32 == x;
      Narrow(offset as int + if x >= size then size - offset else length);
    }
  }

  /** A place in a file fits 32 bits, and its block number 16. */
  lemma {:induction false} Narrow(x: nat)
    requires x <= ENTRIES * BLOCK
    ensures x % U32 == x && x / BLOCK % U16 == x / BLOCK
  {
  }

  /**
   * read_data, with the source's 16- and 32-bit variables. The caller's buffer, from
   * index at on, has room for the bytes the read can move.
   */
  method Read(img: Image, inode: word, offset: word, buf: array<byte>, at: nat, length: word) returns (ret: int)
    requires img.WellFormed()
    requires inode < img.numInode ==> at + Moved(img.Size(inode), offset, length) <= buf.Length
    modifies buf
    ensures ret == ReadData(img, inode, offset, length).ret
    ensures var data := ReadData(img, inode, offset, length).data;
      && (forall k :: 0 <= k < |data| ==> at + k < buf.Length && buf[at + k] == data[k])
      && (forall k :: 0 <= k < buf.Length && !(at <= k < at + |data|) ==> buf[k] == old(buf[k]))
  {
    if inode >= img.numInode {
      return -1;
    }
    var size := img.Size(inode);
    if offset >= size {
      return 0;
    }
    MovedFits(size, offset, length);
    Widths(size, offset, length);
    var len: nat := if (offset as int + length as int) % U32 >= size then size - offset else length;
    var total := (offset as int + len) % U32 / BLOCK % U16;
    var stored;
    ret, stored := ReadBlocks(img, inode, offset, buf, at, len, total,
                              Walk(offset, len, total, Moved(size, offset, length), LastLooked(size, offset, length)));
    StoredIsData(img, inode, offset, length, len, total, ret, stored);
  }

  lemma {:induction false} StoredIsData(img: Image, inode: nat, offset: word, length: word, len: nat, total: nat,
                                        ret: int, stored: nat)
    requires img.WellFormed() && inode < img.numInode && offset < img.Size(inode)
    requires var size := img.Size(inode);
      var w := Walk(offset, len, total, Moved(size, offset, length), LastLooked(size, offset, length));
      w.Sound() && Outcome(img, inode, w, ret, stored) && stored <= w.moved
    ensures ReadData(img, inode, offset, length) == ReadResult(ret, img.Bytes(inode, offset, stored))
  {
    if stored == 0 {
      assert img.Bytes(inode, offset, 0) == [];
    }
  }

  /** The number of bytes that a read of length bytes should give. */
  function Available(size: nat, offset: nat, length: nat): (m: nat)
    requires offset <= size
    ensures m <= length && offset + m <= size
  {
    if length <= size - offset then length else size - offset
  }

  /** Every table entry that a read inside the file looks at is usable. */
  predicate EntriesUsable(img: Image, inode: nat, first: nat, last: nat)
    requires img.WellFormed() && inode < img.numInode && last <= ENTRIES
  {
    forall k :: first <= k <= last ==> img.Usable(inode, k)
  }

  /**
   * read_data stores exactly the bytes [offset, offset + m) of the file and returns m
   * modulo 65536 if and only if all the table entries it looks at are usable, the one
   * behind a block-aligned end included, and offset + length fits 32 bits (or the
   * file ends with the block in which the read starts).
   */
  lemma {:induction false} ReadIsSlice(img: Image, inode: nat, offset: word, length: word)
    requires img.WellFormed() && inode < img.numInode && offset < img.Size(inode)
    ensures var size := img.Size(inode);
      var m := Available(size, offset, length);
      && LastLooked(size, offset, length) <= ENTRIES
      && (ReadData(img, inode, offset, length) == ReadResult(m % U16, img.File(inode)[offset..offset as int + m])
          <==>
          && EntriesUsable(img, inode, offset / BLOCK, LastLooked(size, offset, length))
          && (Overflows(offset, length) ==> size - offset == BLOCK - offset % BLOCK))
  {
    var size := img.Size(inode);
    var m, n, last := Available(size, offset, length), Moved(size, offset, length), LastLooked(size, offset, length);
    MovedFits(size, offset, length);
    var bad := img.FirstBad(inode, offset / BLOCK, last);
    FirstBadLaw(img, inode, offset / BLOCK, last);
    assert bad > last <==> EntriesUsable(img, inode, offset / BLOCK, last);
    assert Overflows(offset, length) ==> m == size - offset;
    assert m == n <==> (Overflows(offset, length) ==> size - offset == BLOCK - offset % BLOCK);
    BytesAreFile(img, inode, offset, m);
  }

  /** A file of one block: the whole of it is stored, and the read fails on the entry behind it. */
  lemma {:induction false} AlignedEndFails(img: Image)
    requires img == Image([Dentry(REG_FILE, 0)], 1, seq(ENTRIES + 2, i => if i == 0 then BLOCK else i - 1),
                          [seq(BLOCK, _ => 'x' as int)])
    ensures img.WellFormed() && ReadData(img, 0, 0, BLOCK) == ReadResult(-1, img.File(0))
  {
    assert img.words[0] == BLOCK && img.words[1] == 0 && img.words[2] == 1;
    MovedFits(BLOCK, 0, BLOCK);
    assert img.Usable(0, 0) && !img.Usable(0, 1);
    FirstBadIs(img, 0, 0, 1, 1);
    BytesAreFile(img, 0, 0, BLOCK);
    assert img.File(0)[0..BLOCK] == img.File(0);
  }

  // ---------------------------------------------------------------- read_fs

  /** An entry of the descriptor table for a regular file. */
  class Descriptor {
    const inode: nat
    var position: int

    constructor (inode: nat)
      ensures this.inode == inode && position == 0
    {
      this.inode := inode;
      position := 0;
    }
  }

  function ToWord(x: int): word { x % U32 }

  /** The search loop of read_fs comes to an entry of this inode, and that entry is a regular file. */
  ghost predicate Listed(dentries: seq<Dentry>, inode: nat) {
    exists i :: 0 <= i < |dentries| && dentries[i] == Dentry(REG_FILE, inode)
      && forall j :: 0 <= j < i ==> dentries[j].inode != inode
  }

  /**
   * read_fs on a regular file. Its search loop has no bound but the entry it looks for.
   */
  method ReadFs(img: Image, fd: Descriptor, buf: array<byte>, nbytes: int) returns (ret: int)
    requires img.WellFormed() && fd.inode < U32
    requires img.dentries != [] ==> Listed(img.dentries, fd.inode)
    requires fd.inode < img.numInode ==>
      Moved(img.Size(fd.inode), ToWord(fd.position), ToWord(nbytes)) <= buf.Length
    modifies fd, buf
    ensures img.dentries == [] ==> ret == -1 && fd.position == old(fd.position) && buf[..] == old(buf[..])
    ensures img.dentries != [] ==>
      var r := ReadData(img, fd.inode, ToWord(old(fd.position)), ToWord(nbytes));
      && ret == r.ret && fd.position == old(fd.position) + ret
      && |r.data| <= buf.Length && buf[..|r.data|] == r.data
      && forall k :: |r.data| <= k < buf.Length ==> buf[k] == old(buf[k])
  {
    if img.dentries == [] {
      return -1;
    }
    var i := 0;
    while img.dentries[i].inode != fd.inode
      invariant 0 <= i < |img.dentries|
      invariant forall j :: 0 <= j < i ==> img.dentries[j].inode != fd.inode
      decreases |img.dentries| - i
    {
      i := i + 1;
    }
    ret := Read(img, fd.inode, ToWord(fd.position), buf, 0, ToWord(nbytes));
    fd.position := fd.position + ret;
  }

  /**
   * The bytes that a sequence of reads hands to the caller, from position pos on, and the
   * position after it; read says what one read at a position gives.
   */
  function ReadOn(read: (int, word) -> ReadResult, pos: int, chunks: seq<word>): (r: (seq<byte>, int))
    decreases |chunks|
  {
    if chunks == [] then ([], pos)
    else
      var got := read(pos, chunks[0]);
      var rest := ReadOn(read, pos + got.ret, chunks[1..]);
      ((if 0 <= got.ret <= |got.data| then got.data[..got.ret] else []) + rest.0, rest.1)
  }

  /** read_fs on a regular file. */
  function Reader(img: Image, inode: nat): (int, word) -> ReadResult
    requires img.WellFormed()
  {
    (pos: int, c: word) => ReadData(img, inode, ToWord(pos), c)
  }

  function Total(chunks: seq<word>): nat {
    if chunks == [] then 0 else chunks[0] + Total(chunks[1..])
  }

  /** A read of at most 65535 bytes that starts inside the file: all or an error. */
  lemma {:induction false} PlainRead(img: Image, inode: nat, pos: word, c: word)
    requires img.WellFormed() && inode < img.numInode && pos < img.Size(inode) && c < U16
    ensures var r, m := ReadData(img, inode, pos, c), Available(img.Size(inode), pos, c);
      && (pos as int + m) / BLOCK <= ENTRIES
      && (if EntriesUsable(img, inode, pos / BLOCK, (pos as int + m) / BLOCK)
          then r == ReadResult(m, img.File(inode)[pos..pos as int + m]) else r.ret == -1)
  {
    MovedFits(img.Size(inode), pos, c);
    FirstBadLaw(img, inode, pos / BLOCK, LastLooked(img.Size(inode), pos, c));
    assert LastLooked(img.Size(inode), pos, c) == (pos as int + Available(img.Size(inode), pos, c)) / BLOCK;
    ReadIsSlice(img, inode, pos, c);
  }

  /** One read of at most 65535 bytes gives the bytes that are there and moves the position by them. */
  lemma {:induction false} OneRead(img: Image, inode: nat, pos: nat, c: word)
    requires img.WellFormed() && inode < img.numInode && pos <= img.Size(inode) && c < U16
    requires EntriesUsable(img, inode, 0, img.Size(inode) / BLOCK)
    ensures var m := Available(img.Size(inode), pos, c);
      ReadData(img, inode, ToWord(pos), c) == ReadResult(m, img.File(inode)[pos..pos + m])
  {
    assert ToWord(pos) == pos;
    if pos < img.Size(inode) {
      PlainRead(img, inode, pos, c);
    }
  }

  lemma {:induction false} SlicesJoin(s: seq<byte>, i: nat, j: nat, k: nat)
    requires i <= j <= k <= |s|
    ensures s[i..j] + s[j..k] == s[i..k]
  {
  }

  /** Every read of at most 65535 bytes inside this file gives the bytes that are there. */
  ghost predicate ReadsFile(read: (int, word) -> ReadResult, file: seq<byte>) {
    forall p: nat, c: word :: p <= |file| && c < U16 ==>
      read(p, c) == ReadResult(Available(|file|, p, c), file[p..p + Available(|file|, p, c)])
  }

  /** The reads give the m bytes from pos on and move the position behind them. */
  ghost predicate ReadsTo(read: (int, word) -> ReadResult, file: seq<byte>, pos: nat, chunks: seq<word>, m: nat)
    requires pos + m <= |file|
  {
    ReadOn(read, pos, chunks) == (file[pos..pos + m], pos + m)
  }

  lemma {:induction false} NoReads(read: (int, word) -> ReadResult, file: seq<byte>, pos: nat)
    requires pos <= |file|
    ensures ReadsTo(read, file, pos, [], 0)
  {
    assert file[pos..pos] == [];
  }

  lemma {:induction false} OneReadMore(read: (int, word) -> ReadResult, file: seq<byte>, pos: nat, chunks: seq<word>,
                                       a: nat, m: nat)
    requires chunks != [] && a <= m && pos + m <= |file| && read(pos, chunks[0]) == ReadResult(a, file[pos..pos + a])
    requires ReadsTo(read, file, pos + a, chunks[1..], m - a)
    ensures ReadsTo(read, file, pos, chunks, m)
  {
    var here := file[pos..pos + a];
    assert here[..a] == here;
    SlicesJoin(file, pos, pos + a, pos + m);
  }

  lemma {:induction false} ReadsOn(read: (int, word) -> ReadResult, file: seq<byte>, pos: nat, chunks: seq<word>,
                                   m: nat)
    requires ReadsFile(read, file) && pos <= |file| && m == Available(|file|, pos, Total(chunks))
    requires forall k :: 0 <= k < |chunks| ==> chunks[k] < U16
    ensures ReadsTo(read, file, pos, chunks, m)
    decreases |chunks|
  {
    if chunks == [] {
      NoReads(read, file, pos);
    } else {
      var a, rest := Available(|file|, pos, chunks[0]), chunks[1..];
      assert forall k :: 0 <= k < |rest| ==> rest[k] == chunks[k + 1];
      ReadsOn(read, file, pos + a, rest, m - a);
      OneReadMore(read, file, pos, chunks, a, m);
    }
  }

  /**
   * Reads of 1 to 65535 bytes through one descriptor give, one after the other, the
   * file from the position on, and at its end nothing more, however many follow.
   */
  lemma {:induction false} ReadOnIsFile(img: Image, inode: nat, pos: nat, chunks: seq<word>)
    requires img.WellFormed() && inode < img.numInode && pos <= img.Size(inode)
    requires EntriesUsable(img, inode, 0, img.Size(inode) / BLOCK)
    requires forall k :: 0 <= k < |chunks| ==> chunks[k] < U16
    ensures ReadsTo(Reader(img, inode), img.File(inode), pos, chunks, Available(img.Size(inode), pos, Total(chunks)))
  {
    FileIsRead(img, inode);
    ReadsOn(Reader(img, inode), img.File(inode), pos, chunks, Available(img.Size(inode), pos, Total(chunks)));
  }

  lemma {:induction false} FileIsRead(img: Image, inode: nat)
    requires img.WellFormed() && inode < img.numInode && EntriesUsable(img, inode, 0, img.Size(inode) / BLOCK)
    ensures ReadsFile(Reader(img, inode), img.File(inode))
  {
    var read, file := Reader(img, inode), img.File(inode);
    forall p: nat, c: word | p <= |file| && c < U16
      ensures read(p, c) == ReadResult(Available(|file|, p, c), file[p..p + Available(|file|, p, c)])
    {
      OneRead(img, inode, p, c);
    }
  }

  /** A read that finds 65536 bytes or more moves the position by fewer bytes than it stores. */
  lemma {:induction false} AdvanceIff(img: Image, inode: nat, pos: nat, c: word)
    requires img.WellFormed() && inode < img.numInode && pos < img.Size(inode) && !Overflows(pos, c)
    requires EntriesUsable(img, inode, 0, img.Size(inode) / BLOCK)
    ensures var r := ReadData(img, inode, pos, c);
      r.ret == |r.data| <==> Available(img.Size(inode), pos, c) < U16
  {
    ReadIsSlice(img, inode, pos, c);
  }

  /** A file of 65536 bytes, all its blocks being the same one: a read of all of it stores it and returns 0. */
  lemma {:induction false} LongReadReturnsZero(img: Image)
    requires img == Image([Dentry(REG_FILE, 0)], 1, seq(ENTRIES + 2, i => if i == 0 then U16 else 0),
                          [seq(BLOCK, _ => 'x' as int)])
    ensures img.WellFormed() && |img.File(0)| == U16 && ReadData(img, 0, 0, U16) == ReadResult(0, img.File(0))
  {
    assert img.words[0] == U16;
    forall k | 0 <= k <= U16 / BLOCK ensures img.Usable(0, k) {
      assert img.words[1 + k] == 0;
    }
    ReadIsSlice(img, 0, 0, U16);
    assert img.File(0)[0..U16] == img.File(0);
  }

  // ---------------------------------------------------------------- cat

  const CAT_BUFFER := 1024

  /** Descriptor 1: what has been written, and whether a write has failed. */
  class Sink {
    var text: seq<byte>
    var failed: bool

    constructor ()
      ensures text == [] && !failed
    {
      text, failed := [], false;
    }

    method Write(data: seq<byte>) returns (ret: int)
      modifies this
      ensures failed == (old(failed) || ret == -1)
      ensures text == if ret == -1 then old(text) else old(text) + data
    {
      if * {
        failed := true;
        return -1;
      }
      text := text + data;
      ret := |data|;
    }
  }

  const NOT_FOUND := Ascii("file not found\n")

  /**
   * syscalls/ece391cat.c, once the arguments are read; fd is null if the file could not
   * be opened. As long as no write fails, cat writes the file, exactly, if and only if
   * every table entry up to the one of the file's end is usable; else it writes a part of
   * it and stops with a read error.
   */
  method Cat(img: Image, fd: Descriptor?, buf: array<byte>, out: Sink) returns (status: int, ghost done: nat)
    requires img.WellFormed() && buf.Length == CAT_BUFFER && !out.failed
    requires fd != null ==> fd.position == 0 && fd.inode < img.numInode && fd.inode < U32
    requires fd != null ==> Listed(img.dentries, fd.inode)
    modifies fd, buf, out
    ensures fd == null ==> status == 2 && (!out.failed ==> out.text == old(out.text) + Ascii("file not found\n"))
    ensures fd != null ==> var file := img.File(fd.inode);
      var usable := img.Size(fd.inode) == 0 || EntriesUsable(img, fd.inode, 0, img.Size(fd.inode) / BLOCK);
      && (status == 0 || status == 3) && done <= |file|
      && (status == 0 ==> usable && !out.failed && out.text == old(out.text) + file)
      && (status == 3 && !out.failed ==>
        !usable && out.text == old(out.text) + file[..done] + Ascii("file read failed\n"))
      && (out.failed ==> status == 3 && old(out.text) + file[..done] == out.text)
  {
    done := 0;
    if fd == null {
      var ret := out.Write(NOT_FOUND);
      return 2, done;
    }
    ghost var size, before := img.Size(fd.inode), out.text;
    status := -1;
    while status == -1
      invariant CatHolds(img, fd.inode, done, before, out.text, out.failed, status)
      invariant status == -1 ==> fd.position == done
      decreases status == -1, size - done
    {
      status, done := CatRound(img, fd, buf, out, done, before);
    }
  }

  /** What cat has written after done bytes of the file; status -1 means that it goes on. */
  ghost predicate CatHolds(img: Image, inode: nat, done: nat, before: seq<byte>, text: seq<byte>, failed: bool,
                           status: int)
    requires img.WellFormed() && inode < img.numInode
  {
    var file, size := img.File(inode), img.Size(inode);
    var usable := size == 0 || EntriesUsable(img, inode, 0, size / BLOCK);
    && done <= size && (status == -1 || status == 0 || status == 3)
    && (status == -1 ==> done > 0 ==> EntriesUsable(img, inode, 0, done / BLOCK))
    && (status == -1 ==> !failed && text == before + file[..done])
    && (status == 0 ==> usable && !failed && text == before + file)
    && (status == 3 && !failed ==> !usable && text == before + file[..done] + READ_FAILED)
    && (failed ==> status == 3 && text == before + file[..done])
  }

  /** One round of the loop. */
  method CatRound(img: Image, fd: Descriptor, buf: array<byte>, out: Sink, ghost done: nat, ghost before: seq<byte>)
    returns (status: int, ghost done': nat)
    requires img.WellFormed() && buf.Length == CAT_BUFFER && fd.position == done
    requires fd.inode < img.numInode && fd.inode < U32 && Listed(img.dentries, fd.inode)
    requires CatHolds(img, fd.inode, done, before, out.text, out.failed, -1)
    modifies fd, buf, out
    ensures CatHolds(img, fd.inode, done', before, out.text, out.failed, status)
    ensures status == -1 ==> fd.position == done' > done
  {
    ghost var text := out.text;
    var cnt := ReadFs(img, fd, buf, CAT_BUFFER);
    CatStep(img, fd.inode, done, before, text, cnt);
    if cnt == 0 {
      return 0, done;
    }
    var failed := cnt == -1;
    var ret := out.Write(if failed then READ_FAILED else buf[..cnt]);
    if failed || ret == -1 {
      return 3, done;
    }
    return -1, done + cnt;
  }

  /** A read of a small buffer inside the file: all or nothing. */
  lemma {:induction false} CatRead(img: Image, inode: nat, pos: nat)
    requires img.WellFormed() && inode < img.numInode && pos <= img.Size(inode)
    ensures var r, size := ReadData(img, inode, ToWord(pos), CAT_BUFFER), img.Size(inode);
      var m := Available(size, pos, CAT_BUFFER);
      && (r.ret == 0 <==> pos == size)
      && (r.ret == -1 <==> pos < size && !EntriesUsable(img, inode, pos / BLOCK, (pos + m) / BLOCK))
      && (r.ret >= 0 ==> r == ReadResult(m, img.File(inode)[pos..pos + m]))
  {
    assert ToWord(pos) == pos;
    if pos < img.Size(inode) {
      PlainRead(img, inode, pos, CAT_BUFFER);
    }
  }

  /** What cat has written after one more read and, unless that was the end, one more write. */
  lemma {:induction false} CatStep(img: Image, inode: nat, pos: nat, before: seq<byte>, text: seq<byte>, ret: int)
    requires img.WellFormed() && inode < img.numInode && CatHolds(img, inode, pos, before, text, false, -1)
    requires ret == ReadData(img, inode, ToWord(pos), CAT_BUFFER).ret
    ensures CatHolds(img, inode, pos, before, text, true, 3)
    ensures ret == 0 ==> CatHolds(img, inode, pos, before, text, false, 0)
    ensures ret == -1 ==> CatHolds(img, inode, pos, before, text + READ_FAILED, false, 3)
    ensures ret != 0 && ret != -1 ==>
      var data := ReadData(img, inode, ToWord(pos), CAT_BUFFER).data;
      0 < ret == |data| && CatHolds(img, inode, pos + ret, before, text + data, false, -1)
  {
    CatRead(img, inode, pos);
    TextGrows(img.File(inode), before, text, pos, if ret >= 0 then ret else 0);
  }

  lemma {:induction false} TextGrows(file: seq<byte>, before: seq<byte>, text: seq<byte>, pos: nat, n: nat)
    requires pos + n <= |file| && text == before + file[..pos]
    ensures text + file[pos..pos + n] == before + file[..pos + n]
    ensures pos == |file| ==> text == before + file
  {
    assert file[..pos] + file[pos..pos + n] == file[..pos + n];
    assert pos == |file| ==> file[..pos] == file;
  }
}
