/** The physical page allocator: one bit per 4 KiB block of RAM. */
module Pmm {
  import Arithmetic
  import opened Bytes
  import opened Bits
  import opened Bitmap
  import opened BlockRanges
  import opened Machine

  const PMM_BLOCK_SIZE: nat := 4096

  function BlocksOf(size: nat): (n: nat)
    ensures 4096 * n >= size && (n > 0 ==> 4096 * (n - 1) < size)
  {
    (size + PMM_BLOCK_SIZE - 1) / PMM_BLOCK_SIZE
  }

  /** How far the counter of used blocks is from the number of set bits. */
  function Drift(used: nat, bits: seq<bool>): nat {
    Wrap(used - CountSet(bits))
  }

  lemma SameDrift(used: nat, bits: seq<bool>, bits': seq<bool>, d: int)
    requires CountSet(bits') == CountSet(bits) as int + d
    ensures Drift(Wrap(used + d), bits') == Drift(used, bits)
  {
    var x := used + d;
    var c := CountSet(bits');
    assert Wrap(x) == x - (x / SIZE_VALUES) * SIZE_VALUES;
    Arithmetic.ModOfMultiple(x - c, -(x / SIZE_VALUES), SIZE_VALUES);
  }

  /** A block and an address name each other. */
  function IdToPtr(offset: nat, id: nat): (p: nat)
    ensures p >= offset && (p - offset) % PMM_BLOCK_SIZE == 0
  {
    id * PMM_BLOCK_SIZE + offset
  }

  function PtrToId(offset: nat, p: nat): (id: nat)
    requires p >= offset
    ensures offset + 4096 * id <= p < offset + 4096 * (id + 1)
  {
    (p - offset) / PMM_BLOCK_SIZE
  }

  lemma IdRoundTrip(offset: nat, id: nat)
    ensures PtrToId(offset, IdToPtr(offset, id)) == id
  {
  }

  lemma PtrRoundTrip(offset: nat, p: nat)
    requires p >= offset
    ensures IdToPtr(offset, PtrToId(offset, p)) == p <==> (p - offset) % PMM_BLOCK_SIZE == 0
  {
  }

  class Pmm {
    const data: array<byte>
    const len: nat
    const offset: nat             // the first address of RAM
    var usedBlocks: nat
    ghost var live: Live
    ghost var base: seq<bool>     // the bits that were set when setup was over

    function Mat(): (b: Bitmap)
    {
      Bitmap(data, len)
    }

    ghost function Used(): (r: seq<bool>)
      requires Ok(Mat())
      reads data
      ensures |r| == len
    {
      BitsIn(Mat())
    }

    ghost predicate Valid()
      reads this, data
    {
      Ok(Mat()) && usedBlocks < SIZE_VALUES && Tracks(Used(), base, live)
    }

    /** The allocator once setup has marked the regions of RAM as available or used. */
    constructor (mat: array<byte>, blocks: nat, ramOffset: nat, used: nat)
      requires Ok(Bitmap(mat, blocks)) && used < SIZE_VALUES
      ensures Valid() && data == mat && len == blocks && offset == ramOffset && usedBlocks == used
      ensures live == map[] && base == Used()
    {
      data, len, offset, usedBlocks := mat, blocks, ramOffset, used;
      live := map[];
      base := BitsIn(Bitmap(mat, blocks));
    }

    /** _pmm_mark_used_region, during setup: the counter goes down although blocks become
        used. */
    method MarkUsedRegion(regionStart: nat, regionLen: nat)
      requires Valid() && live == map[] && offset % PMM_BLOCK_SIZE == 0 && regionStart >= offset
      requires (regionStart - offset) / PMM_BLOCK_SIZE + BlocksOf(regionLen) < 0x8000_0000
      modifies this, data
      ensures Valid() && live == map[]
      ensures var id, n := (regionStart - offset) / PMM_BLOCK_SIZE, BlocksOf(regionLen);
        && Marked(old(Used()), Used(), id, n, true)
        && usedBlocks == Wrap(old(usedBlocks) - n)
        && (Drift(usedBlocks, Used()) == old(Drift(usedBlocks, Used())) <==> n == 0)
      ensures regionLen > 0 && RegionFree(old(Used()), offset, regionStart, regionLen) ==>
                (RegionUsed(Used(), offset, regionStart, regionLen) <==>
                 && PtrToId(offset, regionStart) + BlocksOf(regionLen) <= len
                 && regionStart % PMM_BLOCK_SIZE <= PMM_BLOCK_SIZE * BlocksOf(regionLen) - regionLen)
    {
      hide Tracks, Updated, BitsOf, CountSet, RegionFree, RegionUsed;
      var start := regionStart / PMM_BLOCK_SIZE * PMM_BLOCK_SIZE - offset;
      var size := (regionLen + PMM_BLOCK_SIZE - 1) / PMM_BLOCK_SIZE * PMM_BLOCK_SIZE;
      FloorOffset(regionStart, offset);
      var id, n := start / PMM_BLOCK_SIZE, size / PMM_BLOCK_SIZE;
      assert id == (regionStart - offset) / PMM_BLOCK_SIZE && n == BlocksOf(regionLen);
      usedBlocks := (usedBlocks - n) % SIZE_VALUES;
      ghost var was := BitsOf(data[..]);
      var r := SetRange(Mat(), id, n);
      UpdatedPrefix(was, BitsOf(data[..]), id, if r == 0 then id + n else id, true, len);
      MarkUsedDriftIff(old(usedBlocks), old(Used()), Used(), id, n);
      if regionLen > 0 && RegionFree(old(Used()), offset, regionStart, regionLen) {
        RegionUsedIff(old(Used()), Used(), offset, regionStart, regionLen);
      }
      base := Used();
      NothingLive(base);
    }

    /** _pmm_mark_avail_region, during setup. */
    method MarkAvailRegion(regionStart: nat, regionLen: nat)
      requires Valid() && live == map[] && offset % PMM_BLOCK_SIZE == 0 && regionStart >= offset
      requires BlocksOf(regionStart) - offset / PMM_BLOCK_SIZE + regionLen / PMM_BLOCK_SIZE < 0x8000_0000
      modifies this, data
      ensures Valid() && live == map[]
      ensures var id, n := BlocksOf(regionStart) - offset / PMM_BLOCK_SIZE, regionLen / PMM_BLOCK_SIZE;
        && Marked(old(Used()), Used(), id, n, false)
        && usedBlocks == Wrap(old(usedBlocks) - n)
        && (Drift(usedBlocks, Used()) == old(Drift(usedBlocks, Used()))
            <==> n == 0 || (id + n <= len && forall k :: id <= k < id + n ==> old(Used())[k]))
    {
      hide Tracks, Updated, BitsOf, CountSet, RegionFree, RegionUsed;
      var start := (regionStart + PMM_BLOCK_SIZE - 1) / PMM_BLOCK_SIZE * PMM_BLOCK_SIZE - offset;
      var size := regionLen / PMM_BLOCK_SIZE * PMM_BLOCK_SIZE;
      FloorOffset(regionStart + PMM_BLOCK_SIZE - 1, offset);
      var id, n := start / PMM_BLOCK_SIZE, size / PMM_BLOCK_SIZE;
      assert id == BlocksOf(regionStart) - offset / PMM_BLOCK_SIZE && n == regionLen / PMM_BLOCK_SIZE;
      usedBlocks := (usedBlocks - n) % SIZE_VALUES;
      ghost var was := BitsOf(data[..]);
      var r := UnsetRange(Mat(), id, n);
      UpdatedPrefix(was, BitsOf(data[..]), id, if r == 0 then id + n else id, false, len);
      MarkAvailDriftIff(old(usedBlocks), old(Used()), Used(), id, n);
      base := Used();
      NothingLive(base);
    }

    /** What taking n free blocks from s on does. */
    method TakeBlocks(s: nat, n: nat) returns (p: nat)
      requires Valid() && Run(Used(), s, n)
      modifies this, data
      ensures Valid() && p == IdToPtr(offset, s)
      ensures live == (if n > 0 then old(live)[s := n] else old(live)) && (n > 0 ==> s !in old(live))
      ensures Drift(usedBlocks, Used()) == old(Drift(usedBlocks, Used()))
      ensures n == 0 ==> Used() == old(Used())
    {
      hide Tracks, Updated, BitsOf, Run, CountSet;
      ghost var was := BitsOf(data[..]);
      RunInside(Used(), s, n);
      var _ := SetRange(Mat(), s, n);
      ghost var done := if n == 0 then s else s + n;
      UpdatedPrefix(was, BitsOf(data[..]), s, done, true, len);
      CountTaken(old(Used()), Used(), s, n);
      SameDrift(usedBlocks, old(Used()), Used(), n);
      usedBlocks := (usedBlocks + n) % SIZE_VALUES;
      if n > 0 {
        TrackAlloc(old(Used()), Used(), base, live, s, n);
        live := live[s := n];
      } else {
        SameBits(old(Used()), Used(), s);
      }
      p := s * PMM_BLOCK_SIZE + offset;
    }

    /** pmm_alloc: the least run of free blocks, or NULL when there is none. */
    method Alloc(size: nat) returns (p: nat)
      requires Valid() && BlocksOf(size) < 0x8000_0000
      modifies this, data
      ensures Valid() && Drift(usedBlocks, Used()) == old(Drift(usedBlocks, Used()))
      ensures size == 0 ==> live == old(live) && Used() == old(Used())
      ensures var n := BlocksOf(size);
        if NoRun(old(Used()), n, 0) then p == 0 && live == old(live) && Used() == old(Used())
        else p >= offset && var s := PtrToId(offset, p);
          && p == IdToPtr(offset, s) && Least(old(Used()), n, 0, s)
          && live == (if n > 0 then old(live)[s := n] else old(live)) && (n > 0 ==> s !in old(live))
    {
      hide Tracks, Least, NoRun, Run, BitsOf;
      var n := BlocksOf(size);
      var id := FindSpace(Mat(), n);
      if id < 0 {
        return 0;
      }
      LeastRun(Used(), n, id);
      p := TakeBlocks(id, n);
      IdRoundTrip(offset, id);
    }

    /** pmm_alloc_aligned */
    method AllocAligned(size: nat, align: nat) returns (p: nat)
      requires Valid() && BlocksOf(size) < 0x8000_0000 && 0 < BlocksOf(align) < 0x8000_0000
      modifies this, data
      ensures Valid() && Drift(usedBlocks, Used()) == old(Drift(usedBlocks, Used()))
      ensures size == 0 ==> live == old(live) && Used() == old(Used())
      ensures size > 0 ==>
        var n, al := BlocksOf(size), BlocksOf(align);
        var bits := if al == 1 then old(Used()) else old(Used())[..len / 8 * 8];
        if forall s :: 0 <= s <= len ==> !AlignedRun(bits, n, al, s) then p == 0 && live == old(live) && Used() == old(Used())
        else p >= offset && var s := PtrToId(offset, p);
          && p == IdToPtr(offset, s) && AlignedLeast(bits, n, al, s)
          && live == old(live)[s := n] && s !in old(live)
          && p % (PMM_BLOCK_SIZE * al) == offset % (PMM_BLOCK_SIZE * al)
    {
      hide Tracks, Least, NoRun, Run, BitsOf, AlignedRun, AlignedLeast, CountSet, IdToPtr, PtrToId;
      var n, al := BlocksOf(size), BlocksOf(align);
      if al == 1 {
        AlignedByOne(Used(), n);
        p := Alloc(size);
        if p >= offset {
          EveryBlock(offset, PtrToId(offset, p));
        }
        return;
      }
      p := TakeAligned(n, al);
    }

    /** pmm_alloc_blocks_aligned */
    method TakeAligned(n: nat, al: nat) returns (p: nat)
      requires Valid() && n < 0x8000_0000 && 0 < al < 0x8000_0000
      modifies this, data
      ensures Valid() && Drift(usedBlocks, Used()) == old(Drift(usedBlocks, Used()))
      ensures n == 0 ==> live == old(live) && Used() == old(Used())
      ensures n > 0 ==>
        var bits := old(Used())[..len / 8 * 8];
        if forall s :: 0 <= s <= len ==> !AlignedRun(bits, n, al, s) then p == 0 && live == old(live) && Used() == old(Used())
        else p >= offset && var s := PtrToId(offset, p);
          && p == IdToPtr(offset, s) && AlignedLeast(bits, n, al, s)
          && live == old(live)[s := n] && s !in old(live)
          && p % (PMM_BLOCK_SIZE * al) == offset % (PMM_BLOCK_SIZE * al)
    {
      hide Tracks, Least, NoRun, Run, BitsOf, AlignedRun, AlignedLeast, CountSet, Drift, IdToPtr;
      var id := FindSpaceAligned(Mat(), n, al);
      if id < 0 {
        return 0;
      }
      if n > 0 {
        AlignedIsRun(Used(), len / 8 * 8, n, al, id);
        AlignedStart(Used()[..len / 8 * 8], n, al, id);
        AlignedAddress(offset, id, al);
      } else {
        EmptyRun(Used(), id);
      }
      p := TakeBlocks(id, n);
      IdRoundTrip(offset, id);
    }

    /** pmm_free, of a whole live allocation. */
    method Free(p: nat, size: nat) returns (r: int)
      requires Valid() && p >= offset && p == IdToPtr(offset, PtrToId(offset, p))
      requires PtrToId(offset, p) in live && live[PtrToId(offset, p)] == BlocksOf(size)
      modifies this, data
      ensures Valid() && r == 0 && live == old(live) - {PtrToId(offset, p)}
      ensures Drift(usedBlocks, Used()) == old(Drift(usedBlocks, Used()))
    {
      hide Tracks, Updated, BitsOf, Run, CountSet;
      var id, n := PtrToId(offset, p), BlocksOf(size);
      LiveInside(Used(), base, live, id);
      usedBlocks := (usedBlocks - n) % SIZE_VALUES;
      ghost var was := BitsOf(data[..]);
      r := UnsetRange(Mat(), id, n);
      UpdatedPrefix(was, BitsOf(data[..]), id, id + n, false, len);
      CountGiven(old(Used()), Used(), id, n);
      SameDrift(old(usedBlocks), old(Used()), Used(), -(n as int));
      TrackFree(old(Used()), Used(), base, live, id);
      live := live - {id};
    }
  }

  lemma RunInside(bits: seq<bool>, s: nat, n: nat)
    requires Run(bits, s, n)
    ensures s + n <= |bits|
  {
  }

  lemma LeastRun(bits: seq<bool>, n: nat, s: int)
    requires Least(bits, n, 0, s)
    ensures s >= 0 && Run(bits, s, n) && !NoRun(bits, n, 0)
  {
    assert Run(bits, s, n);
  }

  lemma SameBits(was: seq<bool>, now: seq<bool>, s: nat)
    requires Updated(was, now, s, s, true)
    ensures was == now
  {
  }

  lemma CountTaken(was: seq<bool>, now: seq<bool>, s: nat, n: nat)
    requires Run(was, s, n) && Updated(was, now, s, s + n, true)
    ensures CountSet(now) == CountSet(was) + n
  {
    CountUpdated(was, now, s, n, true);
  }

  lemma CountGiven(was: seq<bool>, now: seq<bool>, s: nat, n: nat)
    requires s + n <= |was| && (forall k :: s <= k < s + n ==> was[k]) && Updated(was, now, s, s + n, false)
    ensures CountSet(now) == CountSet(was) as int - n
  {
    CountUpdated(was, now, s, n, false);
  }

  lemma LiveInside(bits: seq<bool>, base: seq<bool>, live: Live, s: nat)
    requires Tracks(bits, base, live) && s in live
    ensures live[s] >= 1 && s + live[s] <= |bits| && forall k :: s <= k < s + live[s] ==> bits[k]
  {
    assert RangeOk(base, live, s);
    forall k | s <= k < s + live[s]
      ensures bits[k]
    {
      assert InLive(live, k);
    }
  }

  /** With an alignment of one block every run is aligned. */
  lemma AlignedByOne(bits: seq<bool>, n: nat)
    ensures (forall s :: 0 <= s <= |bits| ==> !AlignedRun(bits, n, 1, s)) <==> NoRun(bits, n, 0)
    ensures forall s: int :: Least(bits, n, 0, s) ==> AlignedLeast(bits, n, 1, s)
  {
    forall s: nat
      ensures AlignedRun(bits, n, 1, s) == Run(bits, s, n)
    {
    }
  }

  lemma EmptyRun(bits: seq<bool>, s: nat)
    requires s <= |bits|
    ensures Run(bits, s, 0)
  {
  }

  lemma AlignedStart(bits: seq<bool>, n: nat, al: int, s: int)
    requires al != 0 && AlignedLeast(bits, n, al, s)
    ensures s % al == 0
  {
  }

  lemma EveryBlock(offset: nat, s: nat)
    ensures IdToPtr(offset, s) % (PMM_BLOCK_SIZE * 1) == offset % (PMM_BLOCK_SIZE * 1)
  {
  }

  lemma AlignedIsRun(bits: seq<bool>, whole: nat, n: nat, al: int, s: int)
    requires al != 0 && whole <= |bits| && AlignedLeast(bits[..whole], n, al, s)
    ensures 0 <= s <= |bits| && Run(bits, s, n) && AlignedRun(bits[..whole], n, al, s)
  {
    assert AllClear(bits[..whole], s, s + n);
    assert forall k :: s <= k < s + n ==> bits[k] == bits[..whole][k];
  }

  /** Two live ranges are ranges of addresses that do not meet. */
  lemma LiveAddressesDisjoint(bits: seq<bool>, base: seq<bool>, live: Live, offset: nat, s: nat, t: nat)
    requires Tracks(bits, base, live) && s in live && t in live && s != t
    ensures IdToPtr(offset, s) + 4096 * live[s] <= IdToPtr(offset, t) || IdToPtr(offset, t) + 4096 * live[t] <= IdToPtr(offset, s)
  {
    assert Apart(live, s, t);
  }

  lemma NothingLive(bits: seq<bool>)
    ensures Tracks(bits, bits, map[])
  {
    assert forall k :: 0 <= k < |bits| ==> !InLive(map[], k);
  }

  lemma FloorOffset(x: nat, offset: nat)
    requires x >= offset && offset % PMM_BLOCK_SIZE == 0
    ensures x / PMM_BLOCK_SIZE * PMM_BLOCK_SIZE - offset == (x - offset) / PMM_BLOCK_SIZE * PMM_BLOCK_SIZE
    ensures (x - offset) / PMM_BLOCK_SIZE == x / PMM_BLOCK_SIZE - offset / PMM_BLOCK_SIZE
  {
  }

  /** Setup asked for blocks id..id+n of the map to get value v. */
  predicate Marked(was: seq<bool>, now: seq<bool>, id: nat, n: nat, v: bool) {
    Updated(was, now, id, if 0 < id + n <= |was| then id + n else id, v)
  }

  /** How many of those blocks had to change. */
  function Changed(was: seq<bool>, id: nat, n: nat, v: bool): (f: nat)
    ensures f <= n
  {
    if 0 < id + n <= |was| then
      CountAtMost(was[id..id + n]);
      if v then n - CountSet(was[id..id + n]) else CountSet(was[id..id + n])
    else 0
  }

  /** By how much marking a region moves the counter away from the map: the counter always
      goes down by the whole region, the map follows for the blocks that change, and not at
      all when the region does not lie in it. */
  lemma MarkedDrift(used: nat, was: seq<bool>, now: seq<bool>, id: nat, n: nat, v: bool)
    requires Marked(was, now, id, n, v)
    ensures Drift(Wrap(used - n), now) ==
            Wrap(Drift(used, was) - n - if v then Changed(was, id, n, v) as int else -(Changed(was, id, n, v) as int))
  {
    var f: int := if v then Changed(was, id, n, v) as int else -(Changed(was, id, n, v) as int);
    if 0 < id + n <= |was| {
      CountReplaced(was, now, id, n, v);
    } else {
      assert now == was;
    }
    assert CountSet(now) == CountSet(was) as int + f;
    var k, l := (used - n) / SIZE_VALUES, (used - CountSet(was)) / SIZE_VALUES;
    assert Wrap(used - n) == (used - n) - k * SIZE_VALUES;
    assert Drift(used, was) == used - CountSet(was) - l * SIZE_VALUES;
    var x := used - CountSet(was) - n - f;
    Arithmetic.ModOfMultiple(x, -k, SIZE_VALUES);
    Arithmetic.ModOfMultiple(x, -l, SIZE_VALUES);
  }

  lemma WrapSame(x: nat, d: int)
    requires x < SIZE_VALUES && -(SIZE_VALUES as int) < d < SIZE_VALUES
    ensures Wrap(x + d) == x <==> d == 0
  {
  }

  /** Marking a region as used keeps the counter in step only when there is nothing to
      mark, wherever the region lies and whatever its blocks were. */
  lemma MarkUsedDriftIff(used: nat, was: seq<bool>, now: seq<bool>, id: nat, n: nat)
    requires Marked(was, now, id, n, true) && n < 0x8000_0000
    ensures Drift(Wrap(used - n), now) == Drift(used, was) <==> n == 0
  {
    MarkedDrift(used, was, now, id, n, true);
    WrapSame(Drift(used, was), -(n as int) - Changed(was, id, n, true) as int);
  }

  /** Marking one as available does so exactly when it is empty, or lies in the map and was
      all in use. */
  lemma MarkAvailDriftIff(used: nat, was: seq<bool>, now: seq<bool>, id: nat, n: nat)
    requires Marked(was, now, id, n, false) && n < 0x8000_0000
    ensures Drift(Wrap(used - n), now) == Drift(used, was)
       <==> n == 0 || (id + n <= |was| && forall k :: id <= k < id + n ==> was[k])
  {
    MarkedDrift(used, was, now, id, n, false);
    WrapSame(Drift(used, was), Changed(was, id, n, false) as int - n);
    if n > 0 && id + n <= |was| {
      CountAtMost(was[id..id + n]);
      var part := was[id..id + n];
      assert forall k :: id <= k < id + n ==> was[k] == part[k - id];
      assert forall k :: 0 <= k < n ==> part[k] == was[id + k];
    }
  }

  /** Block k has a byte of the region. */
  predicate Meets(offset: nat, start: nat, size: nat, k: nat) {
    IdToPtr(offset, k) < start + size && start < IdToPtr(offset, k) + PMM_BLOCK_SIZE
  }

  /** Every block of the region is in the map and in use. */
  ghost predicate RegionUsed(bits: seq<bool>, offset: nat, start: nat, size: nat) {
    forall k: nat :: Meets(offset, start, size, k) ==> k < |bits| && bits[k]
  }

  /** None is in use yet. */
  ghost predicate RegionFree(bits: seq<bool>, offset: nat, start: nat, size: nat) {
    forall k: nat :: Meets(offset, start, size, k) && k < |bits| ==> !bits[k]
  }

  /** Rounding the start down and the length up marks all blocks of a free region exactly
      when the marked blocks lie in the map and the start's offset in its block fits in the
      padding of the length. */
  lemma RegionUsedIff(was: seq<bool>, now: seq<bool>, offset: nat, start: nat, size: nat)
    requires offset % PMM_BLOCK_SIZE == 0 && start >= offset && size > 0
    requires RegionFree(was, offset, start, size)
    requires Marked(was, now, PtrToId(offset, start), BlocksOf(size), true)
    ensures RegionUsed(now, offset, start, size) <==>
            && PtrToId(offset, start) + BlocksOf(size) <= |was|
            && start % PMM_BLOCK_SIZE <= PMM_BLOCK_SIZE * BlocksOf(size) - size
  {
    var id, n := PtrToId(offset, start), BlocksOf(size);
    RegionBlocks(offset, start, size);
    assert Meets(offset, start, size, id);
    if id + n <= |was| && start % PMM_BLOCK_SIZE > PMM_BLOCK_SIZE * n - size {
      assert Meets(offset, start, size, id + n);
    } else if id + n <= |was| {
      forall k: nat | Meets(offset, start, size, k)
        ensures k < |now| && now[k]
      {
      }
    }
  }

  /** Which blocks a region meets. */
  lemma RegionBlocks(offset: nat, start: nat, size: nat)
    requires offset % PMM_BLOCK_SIZE == 0 && start >= offset && size > 0
    ensures var id, n := PtrToId(offset, start), BlocksOf(size);
      && Meets(offset, start, size, id)
      && (Meets(offset, start, size, id + n) <==> start % PMM_BLOCK_SIZE > PMM_BLOCK_SIZE * n - size)
      && forall k: nat :: Meets(offset, start, size, k) ==> id <= k <= id + n
  {
  }

  /** A block index that is a multiple of the alignment is an aligned address exactly when
      RAM begins at one. */
  lemma AlignedAddress(offset: nat, s: nat, al: nat)
    requires al > 0 && s % al == 0
    ensures PMM_BLOCK_SIZE * al > 0
    ensures IdToPtr(offset, s) % (PMM_BLOCK_SIZE * al) == offset % (PMM_BLOCK_SIZE * al)
  {
    var q := s / al;
    assert s == q * al;
    assert s * PMM_BLOCK_SIZE == q * (PMM_BLOCK_SIZE * al);
    Arithmetic.ModOfMultiple(offset, q, PMM_BLOCK_SIZE * al);
  }

  lemma AlignedAddressesIff(offset: nat, al: nat)
    requires al > 0
    ensures (forall s: nat | s % al == 0 :: IdToPtr(offset, s) % (PMM_BLOCK_SIZE * al) == 0)
       <==> offset % (PMM_BLOCK_SIZE * al) == 0
  {
    forall s: nat | s % al == 0
      ensures IdToPtr(offset, s) % (PMM_BLOCK_SIZE * al) == offset % (PMM_BLOCK_SIZE * al)
    {
      AlignedAddress(offset, s, al);
    }
    assert 0 % al == 0 && IdToPtr(offset, 0) == offset;
  }
}
