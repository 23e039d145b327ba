/** kmalloc: a bitmap of 32-byte blocks in front of the heap that it describes, and a length
    header in front of every allocation. */
module Kmalloc {
  import Arithmetic
  import opened Bytes
  import opened Bits
  import opened Bitmap
  import opened BlockRanges
  import opened Machine

  const KMALLOC_SPACE_SIZE: nat := 4 * 1024 * 1024
  const KMALLOC_BLOCK_SIZE: nat := 32
  const HEADER: nat := 8        // sizeof(kmalloc_header_t) and of a pointer, on 64 bits

  /** The length of the bitmap in bytes; the bitmap is also told it has that many bits. */
  const BITMAP_LEN: nat := KMALLOC_SPACE_SIZE / KMALLOC_BLOCK_SIZE / 8

  /** The blocks the bitmap itself occupies. */
  const BITMAP_BLOCKS: nat := 512

  /** The blocks of an allocation of act bytes, header included. */
  function BlocksOf(act: nat): (n: nat)
    ensures 32 * n >= act && (n > 0 ==> 32 * (n - 1) < act)
  {
    (act + KMALLOC_BLOCK_SIZE - 1) / KMALLOC_BLOCK_SIZE
  }

  function Reserved(): (r: seq<bool>)
    ensures |r| == BITMAP_LEN
  {
    seq(BITMAP_LEN, k requires 0 <= k < BITMAP_LEN => k < BITMAP_BLOCKS)
  }

  /** C's division of ints truncates. */
  function TruncDiv(x: int, d: nat): int
    requires d > 0
  {
    if x >= 0 then x / d else -(-x / d)
  }

  /** The conversion of a size_t to a 32-bit int. */
  function ToInt(x: nat): (r: int)
    ensures -0x8000_0000 <= r < 0x8000_0000
  {
    var y := x % 0x1_0000_0000;
    if y < 0x8000_0000 then y else y - 0x1_0000_0000
  }

  /** The block count as the program computes it, in ints that wrap around. */
  function BlocksNeeded(size: nat): int {
    TruncDiv(ToInt(((size + HEADER) % SIZE_VALUES + KMALLOC_BLOCK_SIZE - 1)), KMALLOC_BLOCK_SIZE)
  }

  /** The blocks cover the request exactly for sizes whose sum stays an int. */
  lemma BlocksCoverIff(size: nat)
    requires size < SIZE_VALUES
    ensures 32 * BlocksNeeded(size) >= size + HEADER <==> size + HEADER + 31 < 0x8000_0000
    ensures size + HEADER + 31 < 0x8000_0000 ==> BlocksNeeded(size) == BlocksOf(size + HEADER)
  {
    var act := (size + HEADER) % SIZE_VALUES + 31;
    var y := ToInt(act);
    TruncBound(y);
    if size + HEADER >= SIZE_VALUES {
      Wrapped(size + HEADER);
      assert ToInt(act) == act;
    } else if size + HEADER + 31 >= 0x8000_0000 {
      ToIntBelow(act);
    }
  }

  /** The length in the header, as a size_t. */
  function HeaderValue(size: nat): (x: nat)
    ensures x < SIZE_VALUES
  {
    ToInt((size + HEADER) % SIZE_VALUES) % SIZE_VALUES
  }

  /** The header is the length itself while that is an int, and else the same number modulo
      2^32, extended with its sign. */
  lemma HeaderIsLength(size: nat)
    requires size < SIZE_VALUES
    ensures size + HEADER < 0x8000_0000 ==> HeaderValue(size) == size + HEADER
    ensures (HeaderValue(size) - size - HEADER) % 0x1_0000_0000 == 0
    ensures HeaderValue(size) < 0x8000_0000 || SIZE_VALUES - 0x8000_0000 <= HeaderValue(size)
  {
    var x := size + HEADER;
    if x >= SIZE_VALUES {
      Wrapped(x);
    }
  }

  /** A positive number of blocks is that of the length in the header. */
  lemma HeaderAndBlocks(size: nat)
    requires size < SIZE_VALUES
    ensures -0x8000_0000 <= BlocksNeeded(size) < 0x800_0000
    ensures BlocksNeeded(size) > 0 ==>
              var act := ToInt((size + HEADER) % SIZE_VALUES); act > 0 && BlocksNeeded(size) == BlocksOf(act)
  {
    var y := (size + HEADER) % SIZE_VALUES;
    var act := ToInt(y);
    ToIntPlus(y);
    TruncSign(ToInt(y + 31));
  }

  lemma ToIntPlus(y: nat)
    ensures ToInt(y + 31) == if ToInt(y) + 31 < 0x8000_0000 then ToInt(y) + 31 else ToInt(y) + 31 - 0x1_0000_0000
  {
  }

  lemma TruncSign(x: int)
    ensures TruncDiv(x, 32) > 0 <==> x >= 32
    ensures x >= 0 ==> TruncDiv(x, 32) == x / 32
    ensures x < 0 ==> -(-x / 32) == TruncDiv(x, 32)
  {
  }

  lemma TruncBound(y: int)
    ensures 32 * TruncDiv(y, 32) <= (if y >= 0 then y else y + 31)
    ensures y < 0 ==> TruncDiv(y, 32) <= 0
  {
  }

  lemma ToIntBelow(x: nat)
    requires x >= 0x8000_0000
    ensures ToInt(x) <= x - 0x1_0000_0000
  {
  }

  lemma Wrapped(x: nat)
    requires SIZE_VALUES <= x < 2 * SIZE_VALUES
    ensures x % SIZE_VALUES == x - SIZE_VALUES
  {
  }

  //////////////////////////////////////////////////////////////////////////////
  // The words kept in the heap
  //////////////////////////////////////////////////////////////////////////////

  function Hdr(start: nat, s: nat): nat {
    start + s * KMALLOC_BLOCK_SIZE
  }

  function Ptr(start: nat, s: nat): nat {
    Hdr(start, s) + HEADER
  }

  /** The header of a live allocation gives back its number of blocks. */
  predicate HeaderOk(start: nat, mem: map<int, int>, live: Live, s: nat)
    requires s in live
  {
    Hdr(start, s) in mem && mem[Hdr(start, s)] >= 0 && BlocksOf(mem[Hdr(start, s)]) == live[s]
  }

  /** In front of an aligned pointer, inside the same allocation, lies the pointer that has
      to be freed. */
  predicate AlignedOk(start: nat, mem: map<int, int>, live: Live, aligned: map<int, nat>, a: int)
    requires a in aligned
  {
    var s := aligned[a];
    s in live && a - 8 in mem && mem[a - 8] == Ptr(start, s) && Ptr(start, s) <= a - 8 && a <= Hdr(start, s + live[s])
  }

  predicate WordsOk(start: nat, mem: map<int, int>, live: Live, aligned: map<int, nat>) {
    && (forall s :: s in live ==> HeaderOk(start, mem, live, s))
    && forall a :: a in aligned ==> AlignedOk(start, mem, live, aligned, a)
  }

  predicate Separate(live: Live) {
    && (forall s :: s in live ==> live[s] >= 1)
    && forall s, t :: s in live && t in live && s != t ==> Apart(live, s, t)
  }

  /** A new header disturbs no word of another live allocation. */
  lemma HeaderStored(start: nat, mem: map<int, int>, live: Live, aligned: map<int, nat>, s: nat, act: nat)
    requires WordsOk(start, mem, live, aligned) && s !in live && Separate(live[s := BlocksOf(act)])
    ensures WordsOk(start, mem[Hdr(start, s) := act], live[s := BlocksOf(act)], aligned)
  {
    var live' := live[s := BlocksOf(act)];
    var mem' := mem[Hdr(start, s) := act];
    forall t | t in live'
      ensures HeaderOk(start, mem', live', t)
    {
      assert t != s ==> HeaderOk(start, mem, live, t);
    }
    forall a | a in aligned
      ensures AlignedOk(start, mem', live', aligned, a)
    {
      assert AlignedOk(start, mem, live, aligned, a);
      assert Apart(live', s, aligned[a]) && live'[s] >= 1;
    }
  }

  /** Nor does the pointer stored in front of an aligned one. */
  lemma PointerStored(start: nat, mem: map<int, int>, live: Live, aligned: map<int, nat>, s: nat, a: int)
    requires WordsOk(start, mem, live, aligned) && s in live && Separate(live)
    requires Ptr(start, s) <= a - 8 && a <= Hdr(start, s + live[s])
    ensures WordsOk(start, mem[a - 8 := Ptr(start, s)], live, aligned[a := s])
  {
    var mem' := mem[a - 8 := Ptr(start, s)];
    forall t | t in live
      ensures HeaderOk(start, mem', live, t)
    {
      assert HeaderOk(start, mem, live, t);
      assert t != s ==> Apart(live, s, t) && live[t] >= 1;
    }
    var aligned' := aligned[a := s];
    forall b | b in aligned'
      ensures AlignedOk(start, mem', live, aligned', b)
    {
      assert b != a ==> AlignedOk(start, mem, live, aligned, b);
    }
  }

  function AlignedWithout(aligned: map<int, nat>, s: nat): map<int, nat> {
    map a | a in aligned && aligned[a] != s :: aligned[a]
  }

  lemma Forgotten(start: nat, mem: map<int, int>, live: Live, aligned: map<int, nat>, s: nat)
    requires WordsOk(start, mem, live, aligned) && s in live
    ensures WordsOk(start, mem, live - {s}, AlignedWithout(aligned, s))
  {
    forall t | t in live - {s}
      ensures HeaderOk(start, mem, live - {s}, t)
    {
      assert HeaderOk(start, mem, live, t);
    }
    forall a | a in AlignedWithout(aligned, s)
      ensures AlignedOk(start, mem, live - {s}, AlignedWithout(aligned, s), a)
    {
      assert AlignedOk(start, mem, live, aligned, a);
    }
  }

  lemma TracksSeparate(bits: seq<bool>, base: seq<bool>, live: Live)
    requires Tracks(bits, base, live)
    ensures Separate(live)
    ensures forall s :: s in live ==> s + live[s] <= |bits|
  {
    forall s | s in live
      ensures live[s] >= 1 && s + live[s] <= |bits|
    {
      assert RangeOk(base, live, s);
    }
  }

  lemma LeastInside(bits: seq<bool>, n: nat, s: int)
    requires Least(bits, n, 0, s)
    ensures 0 <= s && s + n <= |bits| && Run(bits, s, n)
  {
  }

  //////////////////////////////////////////////////////////////////////////////
  // A header over the bitmap
  //////////////////////////////////////////////////////////////////////////////

  lemma NoBytes()
    ensures LeValue([]) == 0 && Power256(0) == 1
  {
  }

  lemma EightBytes()
    ensures Power256(8) == SIZE_VALUES
  {
    assert Power256(4) == 0x1_0000_0000;
    assert Power256(6) == 0x1_0000_0000_0000;
  }

  lemma NextByte(s: seq<byte>, rest: nat, i: nat)
    requires |s| == i < 8 && rest < Power256(8 - i)
    ensures rest / 256 < Power256(7 - i)
    ensures LeValue(s) + rest * Power256(i) == LeValue(s + [rest % 256]) + (rest / 256) * Power256(i + 1)
  {
    assert Power256(i + 1) == 256 * Power256(i) && Power256(8 - i) == 256 * Power256(7 - i);
    hide Power256, LeValue;
    LeSnoc(s, rest % 256);
    BytePart(rest / 256, rest % 256, Power256(i));
    assert rest == 256 * (rest / 256) + rest % 256;
  }

  lemma BytePart(q: nat, b: nat, p: nat)
    ensures (256 * q + b) * p == q * (256 * p) + b * p
  {
  }

  lemma NothingNeeded(bits: seq<bool>, r: int)
    requires r >= 0 ==> Least(bits, 0, 0, r)
    requires r < 0 ==> NoRun(bits, 0, 0)
    ensures r == 0
  {
    assert Run(bits, 0, 0);
  }

  /** All bytes of a number are 0xff exactly when it is the greatest one. */
  lemma {:induction false} AllOnesLe(s: seq<byte>)
    ensures LeValue(s) == Power256(|s|) - 1 <==> forall i :: 0 <= i < |s| ==> s[i] == 0xff
  {
    if s != [] {
      AllOnesLe(s[1..]);
      LeBound(s[1..]);
      assert forall i :: 0 <= i < |s| - 1 ==> s[1..][i] == s[i + 1];
      assert forall i :: 0 < i < |s| ==> s[i] == s[1..][i - 1];
    }
  }

  /** The byte whose bits are all set. */
  lemma FullByteIff(d: seq<byte>, i: nat)
    requires i < |d|
    ensures d[i] == 0xff <==> forall k :: 8 * i <= k < 8 * i + 8 ==> BitsOf(d)[k]
  {
    hide BitAt;
    Pow2Word();
    AllBits(d[i], 8);
    forall j | 0 <= j < 8
      ensures BitAt(d[i], j) == BitsOf(d)[8 * i + j]
    {
      assert (8 * i + j) / 8 == i && (8 * i + j) % 8 == j;
    }
    BitsAt(BitsOf(d), 8 * i, d[i], 8, true);
  }

  /** The map survives a header stored over its first bytes exactly when that is all ones. */
  lemma OverBitmap(d: seq<byte>, d': seq<byte>, live: Live)
    requires |d| == |d'| == BITMAP_LEN && d'[8..] == d[8..]
    requires Tracks(BitsOf(d)[..BITMAP_LEN], Reserved(), live)
    ensures Tracks(BitsOf(d')[..BITMAP_LEN], Reserved(), live) <==> LeValue(d'[..8]) == SIZE_VALUES - 1
  {
    hide BitAt, LeValue, Power256, InLive;
    var bits, bits' := BitsOf(d)[..BITMAP_LEN], BitsOf(d')[..BITMAP_LEN];
    AllOnesLe(d'[..8]);
    EightBytes();
    FirstWord(d');
    forall k | 64 <= k < BITMAP_LEN
      ensures bits'[k] == bits[k]
    {
      assert d'[k / 8] == d'[8..][k / 8 - 8] && d[k / 8] == d[8..][k / 8 - 8];
    }
    ReservedTracks(bits, bits', live);
  }

  lemma ReservedTracks(bits: seq<bool>, bits': seq<bool>, live: Live)
    requires |bits'| == BITMAP_LEN && Tracks(bits, Reserved(), live)
    requires forall k :: 64 <= k < BITMAP_LEN ==> bits'[k] == bits[k]
    ensures Tracks(bits', Reserved(), live) <==> forall k :: 0 <= k < 64 ==> bits'[k]
  {
    hide RangeOk, Apart;
    assert forall k :: 0 <= k < 64 ==> Reserved()[k];
  }

  lemma FirstWord(d: seq<byte>)
    requires |d| == BITMAP_LEN
    ensures (forall i :: 0 <= i < 8 ==> d[..8][i] == 0xff) <==> forall k :: 0 <= k < 64 ==> BitsOf(d)[..BITMAP_LEN][k]
  {
    hide BitAt;
    var bits := BitsOf(d);
    forall i | 0 <= i < 8
      ensures d[i] == 0xff <==> forall k :: 8 * i <= k < 8 * i + 8 ==> bits[k]
    {
      FullByteIff(d, i);
    }
    if forall i :: 0 <= i < 8 ==> d[..8][i] == 0xff {
      forall k | 0 <= k < 64
        ensures bits[k]
      {
        assert d[..8][k / 8] == d[k / 8];
        FullByteIff(d, k / 8);
      }
    }
    if forall k :: 0 <= k < 64 ==> bits[..BITMAP_LEN][k] {
      forall i | 0 <= i < 8
        ensures d[..8][i] == 0xff
      {
        assert forall k :: 8 * i <= k < 8 * i + 8 ==> bits[..BITMAP_LEN][k] == bits[k];
      }
    }
  }

  class Kmalloc {
    const data: array<byte>
    const start: nat                  // the address of the heap, where its bitmap lies
    var mem: map<int, int>            // the words that headers and aligned pointers are kept in
    ghost var live: Live
    ghost var aligned: map<int, nat>  // aligned pointers given out, and their allocations

    function Map(): (b: Bitmap)
    {
      Bitmap(data, BITMAP_LEN)
    }

    ghost function Used(): (r: seq<bool>)
      requires Ok(Map())
      reads data
      ensures |r| == BITMAP_LEN
    {
      BitsIn(Map())
    }

    /** kmalloc_to_index, of the header in front of a pointer. */
    function Index(p: int): int
    {
      (p - HEADER - start) / KMALLOC_BLOCK_SIZE
    }

    ghost predicate Valid()
      reads this, data
    {
      && data.Length == BITMAP_LEN
      && Tracks(Used(), Reserved(), live)
      && WordsOk(start, mem, live, aligned)
    }

    /** _kmalloc_init_bitmap */
    constructor (zone: nat)
      ensures Valid() && fresh(data) && start == zone && live == map[] && aligned == map[]
      ensures Used() == Reserved()
    {
      data := new byte[BITMAP_LEN](_ => 0);
      start := zone;
      mem := map[];
      live := map[];
      aligned := map[];
      new;
      hide BitAt;
      ghost var was := BitsOf(data[..]);
      forall k | 0 <= k < |was|
        ensures !was[k]
      {
        NoBit(k % 8);
      }
      var _ := SetRange(Map(), 0, BITMAP_BLOCKS);
      UpdatedPrefix(was, BitsOf(data[..]), 0, BITMAP_BLOCKS, true, BITMAP_LEN);
      assert Used() == Reserved();
    }

    /** kmalloc. With a positive number of blocks: the least run of free ones, which is as
        large as asked exactly while the sum stays an int; when none is left the program
        stops, as it does for a negative number. A sum that wraps around to no blocks at all
        puts the header over the bitmap. */
    method Alloc(size: nat) returns (ok: bool, p: nat)
      requires Valid() && size < SIZE_VALUES
      modifies this, data
      ensures aligned == old(aligned)
      ensures BlocksNeeded(size) > 0 ==> Valid()
      ensures ok && BlocksNeeded(size) > 0 ==> var s, n := Index(p), BlocksNeeded(size);
                s >= BITMAP_BLOCKS && p == Ptr(start, s) && Least(old(Used()), n, 0, s) && s !in old(live)
                && live == old(live)[s := n]
                && (p + size <= Hdr(start, s + n) <==> size + HEADER + 31 < 0x8000_0000)
      ensures BlocksNeeded(size) > BITMAP_LEN - BITMAP_BLOCKS ==> !ok
      ensures old(live) == map[] && BlocksNeeded(size) > 0 ==> (ok <==> BlocksNeeded(size) <= BITMAP_LEN - BITMAP_BLOCKS)
      ensures !ok ==> Valid() && live == old(live) && data[..] == old(data[..]) && mem == old(mem)
      ensures !ok ==> BlocksNeeded(size) < 0 || (BlocksNeeded(size) > 0 && NoRun(Used(), BlocksNeeded(size), 0))
      ensures BlocksNeeded(size) < 0 ==> !ok
      ensures BlocksNeeded(size) == 0 ==>
                && ok && p == start + HEADER && live == old(live) && mem == old(mem)
                && LeValue(data[..8]) == HeaderValue(size) && data[8..] == old(data[8..])
                && (Valid() <==> HeaderValue(size) == SIZE_VALUES - 1)
    {
      hide Tracks, Least, NoRun, Reserved, BitsOf, WordsOk, LeValue, ToInt, TruncDiv;
      HeaderAndBlocks(size);
      BlocksCoverIff(size);
      var n := BlocksNeeded(size);
      if n > 0 {
        ok, p := Serve(ToInt((size + HEADER) % SIZE_VALUES), n);
        return;
      }
      if n < 0 {
        var r := FindSpace(Map(), n);
        return false, 0;
      }
      var r := FindSpace(Map(), 0);
      NothingNeeded(Used(), r);
      var _ := SetRange(Map(), r, 0);
      StoreHeader(HeaderValue(size));
      OverBitmap(old(data[..]), data[..], live);
      ok, p := true, start + HEADER;
    }

    /** The header's eight bytes, at the start of the heap, where the bitmap is. */
    method StoreHeader(x: nat)
      requires data.Length == BITMAP_LEN && x < SIZE_VALUES
      modifies data
      ensures LeValue(data[..8]) == x && data[8..] == old(data[8..])
    {
      hide LeValue, Power256;
      var rest: nat := x;
      ghost var stored: seq<byte> := [];
      NoBytes();
      EightBytes();
      for i := 0 to 8
        invariant |stored| == i && data[..i] == stored && data[8..] == old(data[8..])
        invariant x == LeValue(stored) + rest * Power256(i) && rest < Power256(8 - i)
      {
        NextByte(stored, rest, i);
        data[i] := rest % 256;
        stored := stored + [data[i]];
        rest := rest / 256;
      }
      NoBytes();
      assert rest == 0 && x == LeValue(stored) + 0 * Power256(8) && data[..8] == stored;
    }

    /** n blocks for an allocation of act bytes, header included. */
    method Serve(act: nat, n: nat) returns (ok: bool, p: nat)
      requires Valid() && n > 0 && n == BlocksOf(act) && act < 0x8000_0000 && n < 0x800_0000
      modifies this, data
      ensures Valid() && aligned == old(aligned)
      ensures ok ==> var s := Index(p);
                s >= BITMAP_BLOCKS && p == Ptr(start, s) && Least(old(Used()), n, 0, s) && s !in old(live)
                && live == old(live)[s := n]
      ensures n > BITMAP_LEN - BITMAP_BLOCKS ==> !ok
      ensures old(live) == map[] ==> (ok <==> n <= BITMAP_LEN - BITMAP_BLOCKS)
      ensures !ok ==> NoRun(Used(), n, 0) && live == old(live) && data[..] == old(data[..]) && mem == old(mem)
    {
      hide Tracks, Least, Updated, NoRun, Reserved, Run, BitsOf, WordsOk, Separate;
      ghost var was := BitsOf(data[..]);
      Servable(Used(), live, n);
      var r := FindSpace(Map(), n);
      if r < 0 {
        return false, 0;
      }
      LeastFound(Used(), n, r);
      LeastInside(Used(), n, r);
      PastReserved(Used(), live, r, n);
      p := start + r * KMALLOC_BLOCK_SIZE;
      var _ := SetRange(Map(), r, n);
      UpdatedPrefix(was, BitsOf(data[..]), r, r + n, true, BITMAP_LEN);
      TrackAlloc(old(Used()), Used(), Reserved(), live, r, n);
      TracksSeparate(Used(), Reserved(), live[r := n]);
      HeaderStored(start, mem, live, aligned, r, act);
      mem := mem[p := act];
      live := live[r := n];
      ok, p := true, p + HEADER;
    }

    /** kfree: the header tells how many blocks to give back. */
    method Free(p: int)
      requires Valid() && (p == 0 || (Index(p) >= 0 && Index(p) in live && p == Ptr(start, Index(p))))
      modifies this, data
      ensures Valid() && mem == old(mem)
      ensures p == 0 ==> live == old(live) && aligned == old(aligned) && data[..] == old(data[..])
      ensures p != 0 ==> live == old(live) - {Index(p)} && aligned == AlignedWithout(old(aligned), Index(p))
    {
      if p == 0 {
        return;
      }
      hide Tracks, Updated, Reserved, BitsOf, WordsOk, Separate;
      ghost var s: nat := Index(p);
      HeaderRead(start, mem, live, aligned, s);
      TracksSeparate(Used(), Reserved(), live);
      LiveAtLeastOne(live, s);
      var n := (mem[p - HEADER] + KMALLOC_BLOCK_SIZE - 1) / KMALLOC_BLOCK_SIZE;
      ghost var was := BitsOf(data[..]);
      var _ := UnsetRange(Map(), Index(p), n);
      UpdatedPrefix(was, BitsOf(data[..]), s, s + n, false, BITMAP_LEN);
      TrackFree(old(Used()), Used(), Reserved(), live, s);
      Forgotten(start, mem, live, aligned, s);
      live := live - {s};
      aligned := AlignedWithout(aligned, s);
    }

    /** kmalloc_aligned: the least run of free blocks with room for the pointer in front and
        the alignment, and in it the last aligned address that leaves the room asked for. It
        stops the program exactly when no such run is left. */
    method AllocAligned(size: nat, alignment: nat) returns (ok: bool, a: nat)
      requires Valid() && alignment > 0 && size + alignment + 2 * HEADER + 31 < 0x8000_0000
      modifies this, data
      ensures Valid()
      ensures ok ==> a % alignment == 0 && a in aligned && aligned[a] !in old(live)
      ensures ok ==> var s, n := aligned[a], BlocksNeeded(size + alignment + 8);
                && n > 0 && Least(old(Used()), n, 0, s)
                && live == old(live)[s := n] && aligned == old(aligned)[a := s]
                && Ptr(start, s) + 8 <= a && a + size <= Hdr(start, s + n)
                && a <= Ptr(start, s) + 8 + alignment < a + alignment
      ensures ok <==> !NoRun(old(Used()), BlocksNeeded(size + alignment + 8), 0)
      ensures old(live) == map[] ==>
                (ok <==> BlocksNeeded(size + alignment + 8) <= BITMAP_LEN - BITMAP_BLOCKS)
      ensures !ok ==> live == old(live) && data[..] == old(data[..]) && mem == old(mem) && aligned == old(aligned)
    {
      hide Tracks, Updated, Reserved, BitsOf, WordsOk, Separate, Least, NoRun;
      BlocksCoverIff(size + alignment + 8);
      assert BlocksNeeded(size + alignment + 8) > 0;
      var p;
      ok, p := Alloc(size + alignment + 8);
      if !ok {
        return false, 0;
      }
      ghost var s: nat := Index(p);
      LeastFound(old(Used()), BlocksNeeded(size + alignment + 8), s);
      var maxAddr := p + 8 + alignment;
      a := maxAddr - maxAddr % alignment;
      RoundedDown(maxAddr, alignment);
      TracksSeparate(Used(), Reserved(), live);
      PointerStored(start, mem, live, aligned, s, a);
      mem := mem[a - 8 := p];
      aligned := aligned[a := s];
    }

    /** kfree_aligned */
    method FreeAligned(a: int)
      requires Valid() && (a == 0 || a in aligned)
      modifies this, data
      ensures Valid()
      ensures a == 0 ==> live == old(live) && aligned == old(aligned) && data[..] == old(data[..])
      ensures a != 0 ==> live == old(live) - {old(aligned[a])} && a !in aligned
                         && aligned == AlignedWithout(old(aligned), old(aligned[a]))
    {
      hide Tracks, Updated, Reserved, BitsOf;
      if a == 0 {
        return;
      }
      assert AlignedOk(start, mem, live, aligned, a);
      Free(mem[a - 8]);
    }
  }

  lemma RoundedDown(x: nat, d: nat)
    requires d > 0
    ensures (x - x % d) % d == 0 && x - d < x - x % d <= x
  {
    Arithmetic.ModOfMultiple(0, x / d, d);
    assert x - x % d == 0 + (x / d) * d;
  }

  lemma LiveAtLeastOne(live: Live, s: nat)
    requires Separate(live) && s in live
    ensures live[s] >= 1
  {
  }

  lemma HeaderRead(start: nat, mem: map<int, int>, live: Live, aligned: map<int, nat>, s: nat)
    requires WordsOk(start, mem, live, aligned) && s in live
    ensures HeaderOk(start, mem, live, s)
  {
  }

  /** The blocks that the heap has, and that the bitmap would have if its length in bytes
      were not taken for a number of bits. */
  const HEAP_BLOCKS: nat := KMALLOC_SPACE_SIZE / KMALLOC_BLOCK_SIZE

  /** An empty heap can serve a request exactly when that fits behind the bitmap's own blocks
      in an eighth of the heap. */
  lemma FreshServesIff(n: nat)
    ensures NoRun(Reserved(), n, 0) <==> n > BITMAP_LEN - BITMAP_BLOCKS
  {
    if n <= BITMAP_LEN - BITMAP_BLOCKS {
      assert Run(Reserved(), BITMAP_BLOCKS, n);
    } else {
      NeverServed(Reserved(), map[], n) by {
        assert forall k :: 0 <= k < BITMAP_LEN ==> !InLive(map[], k);
      }
    }
  }

  /** What an empty heap cannot serve, no heap can, even where it has that many blocks. */
  lemma NeverServed(bits: seq<bool>, live: Live, n: nat)
    requires Tracks(bits, Reserved(), live) && n > BITMAP_LEN - BITMAP_BLOCKS
    ensures NoRun(bits, n, 0)
  {
    hide Reserved, Tracks;
    forall t | 0 <= t <= |bits|
      ensures !Run(bits, t, n)
    {
      if Run(bits, t, n) {
        PastReserved(bits, live, t, n);
        RunEnds(bits, t, n);
        TracksLength(bits, live);
      }
    }
  }

  lemma Servable(bits: seq<bool>, live: Live, n: nat)
    requires Tracks(bits, Reserved(), live)
    ensures n > BITMAP_LEN - BITMAP_BLOCKS ==> NoRun(bits, n, 0)
    ensures live == map[] && n <= BITMAP_LEN - BITMAP_BLOCKS ==> !NoRun(bits, n, 0)
  {
    if n > BITMAP_LEN - BITMAP_BLOCKS {
      NeverServed(bits, live, n);
    } else if live == map[] {
      assert forall k :: 0 <= k < |bits| ==> !InLive(live, k);
      assert bits == Reserved();
      FreshServesIff(n);
    }
  }

  lemma LeastFound(bits: seq<bool>, n: nat, s: int)
    requires Least(bits, n, 0, s)
    ensures !NoRun(bits, n, 0)
  {
    assert Run(bits, s, n) && s <= |bits|;
  }

  lemma RunEnds(bits: seq<bool>, s: nat, n: nat)
    requires Run(bits, s, n)
    ensures s + n <= |bits|
  {
  }

  lemma TracksLength(bits: seq<bool>, live: Live)
    requires Tracks(bits, Reserved(), live)
    ensures |bits| == BITMAP_LEN
  {
  }

  /** Such requests exist although the heap has room for them many times over. */
  lemma RoomUnused()
    ensures BITMAP_LEN * 8 == HEAP_BLOCKS
    ensures NoRun(Reserved(), BlocksOf(0x8_0000 + HEADER), 0) && 7 * BlocksOf(0x8_0000 + HEADER) <= HEAP_BLOCKS - BITMAP_BLOCKS
  {
    FreshServesIff(BlocksOf(0x8_0000 + HEADER));
  }

  /** A free run lies behind the bitmap's own blocks. */
  lemma PastReserved(bits: seq<bool>, live: Live, s: nat, n: nat)
    requires Tracks(bits, Reserved(), live) && Run(bits, s, n) && n >= 1
    ensures s >= BITMAP_BLOCKS
  {
    assert !bits[s] && bits[s] == (Reserved()[s] || InLive(live, s));
  }
}
