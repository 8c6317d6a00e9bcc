/**
 * The layout of the file system image: what the reads of student-distrib/filesystem.c give
 * for an image that holds given inode records, each of a length and 1023 block numbers.
 */
module Disk {
  import opened Bytes
  import opened FileSystem

  datatype Inode = Inode(length: nat, dblocks: seq<nat>)

  /** The image holds these records: inode i in the 1024 words from word 1024 * i on. */
  ghost predicate Stores(img: Image, inodes: seq<Inode>) {
    && img.numInode == |inodes| && |img.words| > 1024 * |inodes|
    && (forall b :: 0 <= b < |img.blocks| ==> |img.blocks[b]| == 4096)
    && forall i :: 0 <= i < |inodes| ==> StoresAt(img.words, 1024 * i, inodes[i])
  }

  ghost predicate StoresAt(words: seq<word>, at: nat, inode: Inode) {
    && at + 1024 <= |words| && |inode.dblocks| == 1023 && inode.length <= 1023 * 4096
    && words[at] == inode.length
    && forall k :: 0 <= k < 1023 ==> words[at + 1 + k] == inode.dblocks[k]
  }

  /** Block number k of the record, which the source keeps in 16 bits, is one of n blocks. */
  predicate InRange(inode: Inode, k: nat, n: nat) {
    k < |inode.dblocks| && inode.dblocks[k] % 65536 < n
  }

  /** The file of a record: byte j is byte j % 4096 of the block that entry j / 4096 names. */
  function Content(inode: Inode, blocks: seq<seq<byte>>): (s: seq<byte>)
    requires forall b :: 0 <= b < |blocks| ==> |blocks[b]| == 4096
    ensures |s| == inode.length
  {
    seq<byte>(inode.length, j requires 0 <= j < inode.length =>
      if InRange(inode, j / 4096, |blocks|) then blocks[inode.dblocks[j / 4096] % 65536][j % 4096] else 0)
  }

  lemma {:induction false} StoredIsFormed(img: Image, inodes: seq<Inode>)
    requires Stores(img, inodes)
    ensures img.WellFormed()
  {
    forall i | 0 <= i < img.numInode ensures img.Size(i) <= ENTRIES * BLOCK {
      assert StoresAt(img.words, 1024 * i, inodes[i]);
    }
  }

  /** The file of inode i is that of record i, and no other. */
  lemma {:induction false} FileIsContent(img: Image, inodes: seq<Inode>, i: nat)
    requires Stores(img, inodes) && i < |inodes|
    ensures img.WellFormed() && img.Size(i) == inodes[i].length && img.File(i) == Content(inodes[i], img.blocks)
  {
    StoredIsFormed(img, inodes);
    assert StoresAt(img.words, 1024 * i, inodes[i]);
    var file, content := img.File(i), Content(inodes[i], img.blocks);
    forall j | 0 <= j < |content| ensures file[j] == content[j] {
      BlocksByte(img, i, ENTRIES, j);
      EntryIs(img, inodes, i, j / 4096);
    }
  }

  lemma {:induction false} EntryIs(img: Image, inodes: seq<Inode>, i: nat, k: nat)
    requires Stores(img, inodes) && i < |inodes| && k < 1023
    ensures |inodes[i].dblocks| == 1023 && img.Entry(i, k) == inodes[i].dblocks[k] % 65536
    ensures img.Usable(i, k) <==> InRange(inodes[i], k, |img.blocks|)
  {
    assert StoresAt(img.words, 1024 * i, inodes[i]);
    assert img.words[1024 * i + 1 + k] == inodes[i].dblocks[k];
  }

  /**
   * The block numbers that a read of m bytes from offset on looks at, in the words from the
   * one after the length on, are in range. The one behind a full table is the next word.
   */
  ghost predicate NumbersInRange(words: seq<word>, at: nat, offset: nat, m: nat, n: nat) {
    forall k :: offset / 4096 <= k <= (offset + m) / 4096 ==> NumberInRange(words, at, k, n)
  }

  predicate NumberInRange(words: seq<word>, at: nat, k: nat, n: nat) {
    at + 1 + k < |words| && words[at + 1 + k] % 65536 < n
  }

  /**
   * read_data on inode i, with offset + length in 32 bits: nothing behind the end, and
   * before it the next min(length, size - offset) bytes of record i's file, counted in 16
   * bits, if and only if the block numbers up to the one of the read's end are in range.
   */
  lemma {:induction false} ReadsRecord(img: Image, inodes: seq<Inode>, i: nat, offset: word, length: word)
    requires Stores(img, inodes) && offset as int + length as int < 0x1_0000_0000
    ensures img.WellFormed()
    ensures i >= |inodes| ==> ReadData(img, i, offset, length) == ReadResult(-1, [])
    ensures i < |inodes| && offset >= inodes[i].length ==> ReadData(img, i, offset, length) == ReadResult(0, [])
    ensures i < |inodes| && offset < inodes[i].length ==>
      var left := inodes[i].length - offset;
      var m := if length <= left then length else left;
      if NumbersInRange(img.words, 1024 * i, offset, m, |img.blocks|)
      then ReadData(img, i, offset, length)
        == ReadResult(m % 65536, Content(inodes[i], img.blocks)[offset..offset as int + m])
      else ReadData(img, i, offset, length).ret == -1
  {
    StoredIsFormed(img, inodes);
    if i < |inodes| && offset < inodes[i].length {
      FileIsContent(img, inodes, i);
      LooksAt(inodes[i].length, offset, length);
      UsableIff(img, inodes, i, offset, length);
      ReadIsSlice(img, i, offset, length);
      AllOrError(img, i, offset, length);
    }
  }

  lemma {:induction false} LooksAt(size: nat, offset: word, length: word)
    requires offset < size <= 1023 * 4096 && !Overflows(offset, length)
    ensures LastLooked(size, offset, length) == (offset as int + Available(size, offset, length)) / 4096 <= 1023
  {
  }

  lemma {:induction false} UsableIff(img: Image, inodes: seq<Inode>, i: nat, offset: word, length: word)
    requires Stores(img, inodes) && img.WellFormed() && i < |inodes| && offset < img.Size(i) <= 1023 * 4096
    requires !Overflows(offset, length)
    ensures var last := LastLooked(img.Size(i), offset, length);
      last <= ENTRIES && (EntriesUsable(img, i, offset / BLOCK, last) <==>
        NumbersInRange(img.words, 1024 * i, offset, Available(img.Size(i), offset, length), |img.blocks|))
  {
    var last := LastLooked(img.Size(i), offset, length);
    LooksAt(img.Size(i), offset, length);
    forall k | 0 <= k <= 1023 ensures img.Usable(i, k) <==> NumberInRange(img.words, 1024 * i, k, |img.blocks|) {
    }
  }

  lemma {:induction false} AllOrError(img: Image, inode: nat, offset: word, length: word)
    requires img.WellFormed() && inode < img.numInode && offset < img.Size(inode)
    ensures LastLooked(img.Size(inode), offset, length) <= ENTRIES
    ensures !EntriesUsable(img, inode, offset / BLOCK, LastLooked(img.Size(inode), offset, length)) ==>
      ReadData(img, inode, offset, length).ret == -1
  {
    MovedFits(img.Size(inode), offset, length);
    FirstBadLaw(img, inode, offset / BLOCK, LastLooked(img.Size(inode), offset, length));
  }

  /** What an out-of-range number costs: what comes before its block is stored, and the result is -1. */
  lemma {:induction false} ReadsUpToBad(img: Image, inodes: seq<Inode>, i: nat, offset: word, length: word, bad: nat)
    requires Stores(img, inodes) && i < |inodes| && offset < inodes[i].length
    requires offset as int + length as int < 0x1_0000_0000
    requires var left := inodes[i].length - offset;
      offset / 4096 <= bad <= (offset as int + if length <= left then length else left) / 4096
    requires forall k :: offset / 4096 <= k < bad ==> NumberInRange(img.words, 1024 * i, k, |img.blocks|)
    requires !NumberInRange(img.words, 1024 * i, bad, |img.blocks|)
    ensures img.WellFormed()
    ensures var end := if bad * 4096 > offset then bad * 4096 else offset;
      end <= inodes[i].length &&
      ReadData(img, i, offset, length) == ReadResult(-1, Content(inodes[i], img.blocks)[offset..end])
  {
    StoredIsFormed(img, inodes);
    FileIsContent(img, inodes, i);
    LooksAt(inodes[i].length, offset, length);
    var last := LastLooked(img.Size(i), offset, length);
    forall k | 0 <= k <= 1023 ensures img.Usable(i, k) <==> NumberInRange(img.words, 1024 * i, k, |img.blocks|) {
    }
    FirstBadIs(img, i, offset / BLOCK, last, bad);
    if bad > offset / 4096 {
      BytesAreFile(img, i, offset, bad * 4096 - offset);
    }
  }
}
