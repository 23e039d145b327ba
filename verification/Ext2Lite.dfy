/** The boot loader's ext2 reader: raw byte ranges by sector, and file bytes through
    direct, single, double and triple indirect blocks, with one shared block buffer.
    Blocks are 1 KiB, the only size the directory walk accepts. */
module Ext2Lite {
  import opened Arithmetic
  import opened Bytes
  import opened Machine

  const BLOCK: int := 1024
  /** Block numbers in one block. */
  const PER: int := 256

  type Disk = nat -> byte

  //////////////////////////////////////////////////////////////////////////////
  // Raw reads
  //////////////////////////////////////////////////////////////////////////////

  /** The bytes a caller of _ext2_lite_read wants. */
  function Span(disk: Disk, start: nat, len: nat): (r: seq<byte>)
    ensures |r| == len
  {
    seq(len, i requires 0 <= i < len => disk(start + i))
  }

  /** How much of a request the sector at start can serve. */
  function Chunk(start: nat, len: nat): (n: nat)
    ensures n <= len && (len > 0 ==> n > 0) && n <= 512
  {
    Min(512 - start % 512, len)
  }

  /** Where the next sector read is made: start moves by as much of what is LEFT as this
      sector could serve, not by what was read. */
  function NextStart(start: uint32, left: nat): uint32 {
    (start + Chunk(start, left)) % 0x1_0000_0000
  }

  /** The bytes the caller gets. */
  function RawRead(disk: Disk, start: uint32, len: nat): (r: seq<byte>)
    ensures |r| == len
    decreases len
  {
    if len == 0 then []
    else
      var n := Chunk(start, len);
      Span(disk, start, n) + RawRead(disk, NextStart(start, len - n), len - n)
  }

  /** The requests that come out right: within one sector, or up to a sector boundary
      with at least as much beyond it, and from there at most a sector or whole sectors. */
  predicate GoodSpan(start: nat, len: nat) {
    var n := 512 - start % 512;
    len <= n || (len - n >= n && (len - n <= 512 || (len - n) % 512 == 0))
  }

  lemma SpanSplit(disk: Disk, start: nat, n: nat, len: nat)
    requires n <= len
    ensures Span(disk, start, len) == Span(disk, start, n) + Span(disk, start + n, len - n)
  {
  }

  lemma NextSector(start: uint32, left: nat, n: nat)
    requires n == 512 - start % 512 && left >= n && start + n + left <= 0x1_0000_0000
    ensures start + n < 0x1_0000_0000 && NextStart(start, left) == start + n
  {
  }

  /** A step that moves to the next sector, because at least that much is left. */
  lemma FullStep(disk: Disk, start: uint32, len: nat, n: nat)
    requires start + len <= 0x1_0000_0000 && n == 512 - start % 512 && len >= 2 * n
    ensures start + n < 0x1_0000_0000
    ensures RawRead(disk, start, len) == Span(disk, start, n) + RawRead(disk, start + n, len - n)
  {
    hide Span, NextStart;
    NextSector(start, len - n, n);
  }

  /** What remains after such a step starts a sector, and is as good as the whole. */
  lemma GoodStep(start: nat, len: nat, n: nat)
    requires n == 512 - start % 512 && len >= 2 * n
    ensures GoodSpan(start, len) <==> GoodSpan(start + n, len - n)
  {
    assert (start + n) % 512 == 0;
    if len - n > 512 && (len - n) % 512 == 0 {
      assert len - n >= 1024;
    }
  }

  lemma {:induction false} GoodSpanReads(disk: Disk, start: uint32, len: nat)
    requires start + len <= 0x1_0000_0000 && GoodSpan(start, len)
    ensures RawRead(disk, start, len) == Span(disk, start, len)
    decreases len
  {
    hide Span;
    var n := 512 - start % 512;
    if len > n {
      FullStep(disk, start, len, n);
      GoodStep(start, len, n);
      GoodSpanReads(disk, start + n, len - n);
      SpanSplit(disk, start, n, len);
    } else if len > 0 {
      OneStep(disk, start, len);
    }
  }

  /** Whole blocks are good requests. */
  lemma BlockIsGood(start: nat)
    requires start % BLOCK == 0
    ensures GoodSpan(start, BLOCK)
  {
    DivUnique(start, 512, 2 * (start / BLOCK), 0);
  }

  lemma OneStep(disk: Disk, start: uint32, len: nat)
    requires 0 < len <= 512 - start % 512
    ensures RawRead(disk, start, len) == Span(disk, start, len)
  {
    assert RawRead(disk, NextStart(start, 0), 0) == [];
  }

  /** A step that falls short of the next sector reads the byte at start + (len - n) where
      the one at start + n is wanted. */
  lemma ShortStep(start: uint32, len: nat, n: nat) returns (disk: Disk)
    requires start + len <= 0x1_0000_0000 && n == 512 - start % 512 && n < len < 2 * n
    ensures RawRead(disk, start, len) != Span(disk, start, len)
  {
    disk := (x: nat) => if x == start + n then 1 else 0;
    var next := NextStart(start, len - n);
    assert next == start + (len - n);
    assert Span(disk, start, len)[n] == disk(start + n) == 1;
    FirstByte(disk, next, len - n);
    SecondChunk(disk, start, len, n);
  }

  lemma FirstByte(disk: Disk, start: uint32, len: nat)
    requires len > 0
    ensures RawRead(disk, start, len)[0] == disk(start)
  {
  }

  lemma SecondChunk(disk: Disk, start: uint32, len: nat, n: nat)
    requires n == 512 - start % 512 && len > n
    ensures RawRead(disk, start, len)[n] == RawRead(disk, NextStart(start, len - n), len - n)[0]
  {
    hide NextStart;
    assert Chunk(start, len) == n;
  }

  /** A disk on which a bad request goes wrong. */
  lemma {:induction false} BadSpanFails(start: uint32, len: nat) returns (disk: Disk)
    requires start + len <= 0x1_0000_0000 && !GoodSpan(start, len)
    ensures RawRead(disk, start, len) != Span(disk, start, len)
    decreases len
  {
    hide Span;
    var n := 512 - start % 512;
    if len < 2 * n {
      disk := ShortStep(start, len, n);
    } else {
      GoodStep(start, len, n);
      disk := BadSpanFails(start + n, len - n);
      FullStep(disk, start, len, n);
      SpanSplit(disk, start, n, len);
      SamePrefix(Span(disk, start, n), RawRead(disk, start + n, len - n), Span(disk, start + n, len - n));
    }
  }

  lemma SamePrefix<T>(p: seq<T>, s: seq<T>, t: seq<T>)
    requires s != t
    ensures p + s != p + t
  {
    assert (p + s)[|p|..] == s && (p + t)[|p|..] == t;
  }

  /** Positions wrap around at 2^32: nothing behind that is ever read. */
  lemma {:induction false} RawReadLow(disk: Disk, start: uint32, len: nat)
    requires forall x: nat :: x < 0x1_0000_0000 ==> disk(x) == 0
    ensures forall i :: 0 <= i < len ==> RawRead(disk, start, len)[i] == 0
    decreases len
  {
    hide NextStart;
    if len > 0 {
      var n := Chunk(start, len);
      RawReadLow(disk, NextStart(start, len - n), len - n);
      ChunkInSector(start, len);
      assert start + n <= 0x1_0000_0000;
    }
  }

  /** A disk on which a request that ends behind 2^32 goes wrong. */
  lemma FarSpanFails(start: uint32, len: nat) returns (disk: Disk)
    requires start + len > 0x1_0000_0000
    ensures RawRead(disk, start, len) != Span(disk, start, len)
  {
    disk := (x: nat) => if x == 0x1_0000_0000 then 1 else 0;
    var i := 0x1_0000_0000 - start;
    RawReadLow(disk, start, len);
    assert Span(disk, start, len)[i] == 1 && RawRead(disk, start, len)[i] == 0;
  }

  /** A raw read is right on every disk exactly for the good requests that end within 2^32
      bytes. */
  lemma RawReadRightIff(start: uint32, len: nat)
    ensures (forall disk: Disk :: RawRead(disk, start, len) == Span(disk, start, len))
            <==> GoodSpan(start, len) && start + len <= 0x1_0000_0000
  {
    if start + len > 0x1_0000_0000 {
      var disk := FarSpanFails(start, len);
    } else if GoodSpan(start, len) {
      forall disk: Disk
        ensures RawRead(disk, start, len) == Span(disk, start, len)
      {
        GoodSpanReads(disk, start, len);
      }
    } else {
      var disk := BadSpanFails(start, len);
    }
  }

  //////////////////////////////////////////////////////////////////////////////
  // What a file is
  //////////////////////////////////////////////////////////////////////////////

  /** Byte offset of a block, in 32-bit arithmetic. */
  function Offset(block: uint32): (o: uint32)
    ensures o % BLOCK == 0 && o + BLOCK <= 0x1_0000_0000
  {
    (block * BLOCK) % 0x1_0000_0000
  }

  /** The 32-bit little-endian number at a disk position. */
  function Word(disk: Disk, at: nat): uint32 {
    disk(at) + 0x100 * (disk(at + 1) as int) + 0x1_0000 * (disk(at + 2) as int) + 0x100_0000 * (disk(at + 3) as int)
  }

  /** Entry k of an indirect block. */
  function Entry(disk: Disk, block: uint32, k: nat): uint32 {
    Word(disk, Offset(block) + 4 * k)
  }

  datatype Inode = Inode(block: seq<uint32>) {
    predicate Valid() { |block| == 15 }
  }

  /** The block that holds block k of a file: twelve direct ones, then 256 through one
      indirect block, 256^2 through two levels and the rest through three. */
  function BlockOf(disk: Disk, inode: Inode, k: nat): uint32
    requires inode.Valid() && k < 0x40_0000
  {
    if k < 12 then inode.block[k]
    else if k < 12 + PER then Entry(disk, inode.block[12], k - 12)
    else if k < 12 + PER + PER * PER then
      var j := k - 12 - PER;
      Entry(disk, Entry(disk, inode.block[13], j / PER), j % PER)
    else
      var j := k - 12 - PER - PER * PER;
      Entry(disk, Entry(disk, Entry(disk, inode.block[14], j / (PER * PER)), (j / PER) % PER), j % PER)
  }

  lemma WordIsLe(disk: Disk, at: nat)
    ensures Word(disk, at) == LeValue(Span(disk, at, 4))
  {
    var s := Span(disk, at, 4);
    assert s[1..][1..] == s[2..] && s[2..][1..] == s[3..] && s[3..][1..] == [];
    assert LeValue(s[3..]) == s[3];
    assert LeValue(s[2..]) == s[2] + 256 * LeValue(s[3..]);
    assert LeValue(s[1..]) == s[1] + 256 * LeValue(s[2..]);
  }

  /** A block's place on the disk: of its number only 22 bits count. */
  lemma OffsetOfBlock(block: uint32)
    ensures Offset(block) / BLOCK == block % 0x40_0000
  {
  }

  /** Blocks below an indirect block of some depth. */
  function LeafCount(depth: nat): nat {
    if depth == 0 then 1 else 256 * LeafCount(depth - 1)
  }

  /** The data blocks below a block, in file order: at depth 0 itself, else those below its
      256 entries, one after the other. */
  function Leaves(disk: Disk, block: uint32, depth: nat): (r: seq<uint32>)
    ensures |r| == LeafCount(depth)
    decreases depth, 257
  {
    if depth == 0 then [block] else FirstLeaves(disk, block, depth, 256)
  }

  /** Those below the first n entries. */
  function FirstLeaves(disk: Disk, block: uint32, depth: nat, n: nat): (r: seq<uint32>)
    requires depth > 0 && n <= 256
    ensures |r| == n * LeafCount(depth - 1)
    decreases depth, n
  {
    if n == 0 then []
    else FirstLeaves(disk, block, depth, n - 1) + Leaves(disk, Entry(disk, block, n - 1), depth - 1)
  }

  lemma {:induction false} FirstLeavesAt(disk: Disk, block: uint32, depth: nat, n: nat, q: nat, r: nat)
    requires depth > 0 && q < n <= 256 && r < LeafCount(depth - 1)
    ensures q * LeafCount(depth - 1) + r < n * LeafCount(depth - 1)
    ensures FirstLeaves(disk, block, depth, n)[q * LeafCount(depth - 1) + r]
            == Leaves(disk, Entry(disk, block, q), depth - 1)[r]
    decreases n
  {
    hide LeafCount, Entry, Leaves;
    MulMonotone(q + 1, n, LeafCount(depth - 1));
    if q < n - 1 {
      FirstLeavesAt(disk, block, depth, n - 1, q, r);
    }
  }

  /** Leaf j is found by its digits in base 256. */
  lemma LeafAt(disk: Disk, block: uint32, depth: nat, j: nat, c: nat)
    requires depth > 0 && c == LeafCount(depth - 1) && j < 256 * c && c > 0
    ensures j % c < c && Leaves(disk, block, depth)[j] == Leaves(disk, Entry(disk, block, j / c), depth - 1)[j % c]
  {
    hide Entry;
    assert j == j / c * c + j % c;
    if j / c >= 256 {
      MulMonotone(256, j / c, c);
    }
    FirstLeavesAt(disk, block, depth, 256, j / c, j % c);
  }

  lemma LeafCounts()
    ensures LeafCount(0) == 1 && LeafCount(1) == 256 && LeafCount(2) == 0x1_0000 && LeafCount(3) == 0x100_0000
  {
  }

  /** All data blocks of a file in order: the direct ones, then those below the indirect,
      double and triple indirect blocks. */
  function FileOrder(disk: Disk, inode: Inode): seq<uint32>
    requires inode.Valid()
  {
    inode.block[..12] + Leaves(disk, inode.block[12], 1) + Leaves(disk, inode.block[13], 2)
    + Leaves(disk, inode.block[14], 3)
  }

  lemma BlockOfIsFileOrder(disk: Disk, inode: Inode, k: nat)
    requires inode.Valid() && k < 0x40_0000
    ensures k < |FileOrder(disk, inode)| && BlockOf(disk, inode, k) == FileOrder(disk, inode)[k]
  {
    hide Entry, LeafCount, FirstLeaves;
    LeafCounts();
    if 12 <= k < 12 + PER {
      LeafAt(disk, inode.block[12], 1, k - 12, 1);
    } else if 12 + PER <= k < 12 + PER + PER * PER {
      var j := k - 12 - PER;
      LeafAt(disk, inode.block[13], 2, j, 256);
      LeafAt(disk, Entry(disk, inode.block[13], j / 256), 1, j % 256, 1);
    } else if 12 + PER + PER * PER <= k {
      var j := k - 12 - PER - PER * PER;
      var b := Entry(disk, inode.block[14], j / 0x1_0000);
      LeafAt(disk, inode.block[14], 3, j, 0x1_0000);
      LeafAt(disk, b, 2, j % 0x1_0000, 256);
      LeafAt(disk, Entry(disk, b, j % 0x1_0000 / 256), 1, j % 0x1_0000 % 256, 1);
      TwoLevelIndex(j);
    }
  }

  function FileByte(disk: Disk, inode: Inode, p: nat): byte
    requires inode.Valid() && p < 0x1_0000_0000
  {
    disk(Offset(BlockOf(disk, inode, p / BLOCK)) + p % BLOCK)
  }

  lemma FileByteAt(disk: Disk, inode: Inode, k: nat, o: nat)
    requires inode.Valid() && o < BLOCK && k * BLOCK + o < 0x1_0000_0000
    ensures k < 0x40_0000
    ensures FileByte(disk, inode, k * BLOCK + o) == disk(Offset(BlockOf(disk, inode, k)) + o)
  {
    assert (k * BLOCK + o) / BLOCK == k && (k * BLOCK + o) % BLOCK == o;
  }

  /** Bytes [from, from + len) of a file. */
  function FileBytes(disk: Disk, inode: Inode, from: nat, len: nat): (r: seq<byte>)
    requires inode.Valid() && from + len <= 0x1_0000_0000
    ensures |r| == len
  {
    seq<byte>(len, i requires 0 <= i < len => FileByte(disk, inode, from + i))
  }

  //////////////////////////////////////////////////////////////////////////////
  // The reader
  //////////////////////////////////////////////////////////////////////////////

  lemma TwoLevelIndex(index: nat)
    ensures (index % (PER * PER)) / PER == (index / PER) % PER
    ensures (index % (PER * PER)) % PER == index % PER
  {
    var a, r := index / (PER * PER), index % (PER * PER);
    var b, c := r / PER, r % PER;
    DivUnique(index, PER, PER * a + b, c);
    DivUnique(PER * a + b, PER, a, b);
  }

  /** The byte loops: n bytes of src from position o to position at of dst. */
  method CopyBytes(src: array<byte>, o: nat, dst: array<byte>, at: nat, n: nat)
    requires src != dst && o + n <= src.Length && at + n <= dst.Length
    modifies dst
    ensures dst[..] == old(dst[..at]) + src[o..o + n] + old(dst[at + n..])
  {
    for i := 0 to n
      invariant dst[..at] == old(dst[..at]) && dst[at + n..] == old(dst[at + n..])
      invariant dst[at..at + i] == src[o..o + i]
    {
      dst[at + i] := src[o + i];
      assert dst[at..at + i + 1] == dst[at..at + i] + [src[o + i]];
      assert src[o..o + i + 1] == src[o..o + i] + [src[o + i]];
    }
    assert dst[..] == dst[..at] + dst[at..at + n] + dst[at + n..];
  }

  /** Bytes of one file block. */
  lemma BlockBytes(disk: Disk, inode: Inode, k: nat, o: nat, n: nat)
    requires inode.Valid() && o + n <= BLOCK && n > 0 && k * BLOCK + o + n <= 0x1_0000_0000
    ensures Span(disk, Offset(BlockOf(disk, inode, k)), BLOCK)[o..o + n] ==
            FileBytes(disk, inode, k * BLOCK + o, n)
  {
    hide BlockOf, Offset, FileByte;
    var block := Span(disk, Offset(BlockOf(disk, inode, k)), BLOCK)[o..o + n];
    var file := FileBytes(disk, inode, k * BLOCK + o, n);
    forall i | 0 <= i < n
      ensures block[i] == file[i]
    {
      FileByteAt(disk, inode, k, o + i);
    }
  }

  lemma FileBytesSplit(disk: Disk, inode: Inode, from: nat, m: nat, n: nat)
    requires inode.Valid() && from + m + n <= 0x1_0000_0000
    ensures FileBytes(disk, inode, from, m + n) ==
            FileBytes(disk, inode, from, m) + FileBytes(disk, inode, from + m, n)
  {
  }

  lemma ChunkInSector(at: nat, left: nat)
    ensures at % 512 + Chunk(at, left) <= 512
  {
  }

  /** A request that ends behind 2^32 ends, as computed, no later than in its first block. */
  lemma WrappedEnd(from: uint32, len: uint32, endBlock: nat)
    requires endBlock == ((from + len - 1) % 0x1_0000_0000) / BLOCK
    ensures endBlock < 0x40_0000
    ensures from + len > 0x1_0000_0000 ==> endBlock <= from / BLOCK && len > BLOCK - from % BLOCK
  {
  }

  lemma SpanOfSector(disk: Disk, at: nat, n: nat)
    requires at % 512 + n <= 512
    ensures Span(disk, 512 * (at / 512), 512)[at % 512..at % 512 + n] == Span(disk, at, n)
  {
  }

  class Reader {
    const disk: Disk
    const tmpReadBuf: array<byte>
    /** One buffer for data blocks and for the indirect blocks of every level. */
    const tmpBlockBuf: array<byte>

    predicate Valid() {
      tmpReadBuf.Length == 8192 && tmpBlockBuf.Length == 8192 && tmpReadBuf != tmpBlockBuf
    }

    constructor (disk: Disk)
      ensures Valid() && this.disk == disk && fresh(tmpReadBuf) && fresh(tmpBlockBuf)
    {
      this.disk := disk;
      tmpReadBuf := new byte[8192](_ => 0);
      tmpBlockBuf := new byte[8192](_ => 0);
    }

    /** The drive: one sector into the start of the sector buffer. */
    method ReadSector(sector: nat)
      requires Valid()
      modifies tmpReadBuf
      ensures tmpReadBuf[..512] == Span(disk, 512 * sector, 512)
    {
      for i := 0 to 512
        invariant forall k :: 0 <= k < i ==> tmpReadBuf[k] == disk(512 * sector + k)
      {
        tmpReadBuf[i] := disk(512 * sector + i);
      }
    }

    method ReadRaw(buf: array<byte>, start: uint32, len: uint32)
      requires Valid() && buf != tmpReadBuf && len <= buf.Length
      modifies buf, tmpReadBuf
      ensures buf[..] == RawRead(disk, start, len) + old(buf[len..])
    {
      hide Span, Chunk, NextStart;
      ghost var was, all := buf[..], RawRead(disk, start, len);
      var at: uint32, left: nat, alreadyRead: nat := start, len, 0;
      while left != 0
        invariant alreadyRead + left == len
        invariant all == buf[..alreadyRead] + RawRead(disk, at, left)
        invariant buf[len..] == was[len..]
      {
        var sector := at / 512;
        var startOffset := at % 512;
        ReadSector(sector);
        var n := Chunk(at, left);
        ChunkInSector(at, left);
        SpanOfSector(disk, at, n);
        ghost var before := buf[..];
        CopyBytes(tmpReadBuf, startOffset, buf, alreadyRead, n);
        assert tmpReadBuf[startOffset..startOffset + n] == tmpReadBuf[..512][startOffset..startOffset + n];
        assert buf[..alreadyRead + n] == before[..alreadyRead] + Span(disk, at, n);
        assert buf[len..] == before[len..];
        alreadyRead := alreadyRead + n;
        left := left - n;
        at := NextStart(at, left);
      }
      assert buf[..] == buf[..len] + buf[len..];
    }

    /** A block into the shared buffer. */
    method ReadBlock(block: uint32)
      requires Valid()
      modifies tmpReadBuf, tmpBlockBuf
      ensures tmpBlockBuf[..BLOCK] == Span(disk, Offset(block), BLOCK)
    {
      hide RawRead, Span, Offset, GoodSpan;
      BlockIsGood(Offset(block));
      ReadRaw(tmpBlockBuf, Offset(block), BLOCK);
      GoodSpanReads(disk, Offset(block), BLOCK);
    }

    /** Entry k of the block in the shared buffer. */
    function BufEntry(k: nat): uint32
      requires Valid() && k < PER
      reads tmpBlockBuf
    {
      tmpBlockBuf[4 * k] + 0x100 * (tmpBlockBuf[4 * k + 1] as int)
      + 0x1_0000 * (tmpBlockBuf[4 * k + 2] as int) + 0x100_0000 * (tmpBlockBuf[4 * k + 3] as int)
    }

    lemma BufEntryOf(block: uint32, k: nat)
      requires Valid() && k < PER
      requires tmpBlockBuf[..BLOCK] == Span(disk, Offset(block), BLOCK)
      ensures BufEntry(k) == Entry(disk, block, k)
    {
      assert forall i :: 0 <= i < BLOCK ==> tmpBlockBuf[i] == tmpBlockBuf[..BLOCK][i];
    }

    method Lev0(curBlock: uint32, index: nat) returns (b: uint32)
      requires Valid() && index < PER
      modifies tmpReadBuf, tmpBlockBuf
      ensures b == Entry(disk, curBlock, index)
    {
      ReadBlock(curBlock);
      BufEntryOf(curBlock, index);
      return BufEntry(index);
    }

    method Lev1(curBlock: uint32, index: nat) returns (b: uint32)
      requires Valid() && index < PER * PER
      modifies tmpReadBuf, tmpBlockBuf
      ensures b == Entry(disk, Entry(disk, curBlock, index / PER), index % PER)
    {
      ReadBlock(curBlock);
      var offset := index / PER;
      var offsetInner := index % PER;
      BufEntryOf(curBlock, offset);
      b := Lev0(BufEntry(offset), offsetInner);
    }

    method Lev2(curBlock: uint32, index: nat) returns (b: uint32)
      requires Valid() && index < PER * PER * PER
      modifies tmpReadBuf, tmpBlockBuf
      ensures b == Entry(disk, Entry(disk, Entry(disk, curBlock, index / (PER * PER)), (index / PER) % PER), index % PER)
    {
      ReadBlock(curBlock);
      var levContain := PER * PER;
      var offset := index / levContain;
      var offsetInner := index % levContain;
      BufEntryOf(curBlock, offset);
      TwoLevelIndex(index);
      b := Lev1(BufEntry(offset), offsetInner);
    }

    method GetBlockOfFile(inode: Inode, index: nat) returns (b: uint32)
      requires Valid() && inode.Valid() && index < 0x40_0000
      modifies tmpReadBuf, tmpBlockBuf
      ensures b == BlockOf(disk, inode, index)
    {
      hide Entry;
      if index < 12 {
        b := inode.block[index];
      } else if index < 12 + PER {
        b := Lev0(inode.block[12], index - 12);
      } else if index < 12 + PER + PER * PER {
        b := Lev1(inode.block[13], index - 12 - PER);
      } else {
        b := Lev2(inode.block[14], index - (12 + PER + PER * PER));
      }
    }

    /** One turn of the loop: n bytes of block k of the file, from offset o on, behind the
        bytes already written. */
    method ReadPiece(inode: Inode, buf: array<byte>, k: nat, o: nat, ghost from: uint32, written: nat, n: nat)
      requires Valid() && inode.Valid() && k < 0x40_0000 && o + n <= BLOCK
      requires buf != tmpReadBuf && buf != tmpBlockBuf && written + n <= buf.Length
      requires from + written <= 0x1_0000_0000 && (n > 0 ==> from + written == k * BLOCK + o)
      requires buf[..written] == FileBytes(disk, inode, from, written)
      modifies buf, tmpReadBuf, tmpBlockBuf
      ensures from + written + n <= 0x1_0000_0000
      ensures buf[..written + n] == FileBytes(disk, inode, from, written + n)
      ensures buf[written + n..] == old(buf[written + n..])
    {
      hide BlockOf, FileBytes, Offset, Span;
      var dataBlock := GetBlockOfFile(inode, k);
      ReadBlock(dataBlock);
      ghost var before := buf[..];
      CopyBytes(tmpBlockBuf, o, buf, written, n);
      if n > 0 {
        BlockBytes(disk, inode, k, o, n);
        assert tmpBlockBuf[o..o + n] == tmpBlockBuf[..BLOCK][o..o + n];
        FileBytesSplit(disk, inode, from, written, n);
      }
      assert buf[..written + n] == before[..written] + tmpBlockBuf[o..o + n];
    }

    /** File bytes [from, from + len) into buf; nothing else of buf changes. An empty
        request copies nothing, whatever blocks it visits. Of a request that ends behind 2^32
        at most the bytes of one block are copied. */
    method ReadInode(inode: Inode, buf: array<byte>, from: uint32, len: uint32) returns (written: nat)
      requires Valid() && inode.Valid()
      requires buf != tmpReadBuf && buf != tmpBlockBuf && len <= buf.Length
      modifies buf, tmpReadBuf, tmpBlockBuf
      ensures written == len <==> from + len <= 0x1_0000_0000
      ensures written <= len && from + written <= 0x1_0000_0000
      ensures from + len > 0x1_0000_0000 ==> written <= BLOCK
      ensures buf[..] == FileBytes(disk, inode, from, written) + old(buf[written..])
    {
      hide BlockOf, FileBytes, Offset, Span;
      ghost var was := buf[..];
      var endBlock := ((from + len - 1) % 0x1_0000_0000) / BLOCK;
      var readOffset := from % BLOCK;
      var left := len;
      written := 0;
      var blockIndex := from / BLOCK;
      ghost var inside := from + len <= 0x1_0000_0000;
      WrappedEnd(from, len, endBlock);
      while blockIndex <= endBlock
        invariant written + left == len
        invariant left > 0 ==> from + written == blockIndex * BLOCK + readOffset
        invariant 0 <= readOffset < BLOCK && (blockIndex > from / BLOCK ==> readOffset == 0)
        invariant from + written <= 0x1_0000_0000
        invariant inside && blockIndex > endBlock ==> left == 0
        invariant !inside ==> left > 0 && if blockIndex == from / BLOCK then written == 0 else written <= BLOCK && blockIndex > endBlock
        invariant buf[..written] == FileBytes(disk, inode, from, written)
        invariant buf[written..] == was[written..]
        decreases endBlock + 1 - blockIndex
      {
        var n := Min(left, BLOCK - readOffset);
        ReadPiece(inode, buf, blockIndex, readOffset, from, written, n);
        written := written + n;
        left := left - n;
        readOffset := 0;
        blockIndex := blockIndex + 1;
      }
    }
  }
}
