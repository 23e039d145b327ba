/** The bitmap: a search over 32-bit words that agrees with a search bit by bit, and range
    updates that touch whole bytes. */
module Bitmap {
  import opened Bytes
  import opened Bits
  import opened Machine

  const EINVAL: int := 22
  const EFAULT: int := 14
  const ENODATA: int := 61

  datatype Bitmap = Bitmap(data: array?<byte>, len: nat)

  /** The bits of a byte string, lowest bit of each byte first. */
  function BitsOf(d: seq<byte>): (r: seq<bool>)
    ensures |r| == 8 * |d|
  {
    seq(8 * |d|, k requires 0 <= k < 8 * |d| => BitAt(d[k / 8], k % 8))
  }

  //////////////////////////////////////////////////////////////////////////////
  // The search, bit by bit
  //////////////////////////////////////////////////////////////////////////////

  predicate AllClear(bits: seq<bool>, lo: nat, hi: nat)
    requires hi <= |bits|
  {
    forall k :: lo <= k < hi ==> !bits[k]
  }

  /** m clear bits begin at s. */
  predicate Run(bits: seq<bool>, s: nat, m: nat) {
    s + m <= |bits| && AllClear(bits, s, s + m)
  }

  /** s is the least start of m clear bits at or after f. */
  predicate Least(bits: seq<bool>, m: nat, f: nat, s: int) {
    f <= s && Run(bits, s, m) && forall t :: f <= t < s ==> !Run(bits, t, m)
  }

  predicate NoRun(bits: seq<bool>, m: nat, f: nat) {
    forall t :: f <= t <= |bits| ==> !Run(bits, t, m)
  }

  /** The search is at pos: the last `free` bits are clear, and no run begins before them. */
  predicate Scan(bits: seq<bool>, m: nat, f: nat, pos: nat, free: nat) {
    && f + free <= pos <= |bits|
    && AllClear(bits, pos - free, pos)
    && forall t :: f <= t < pos - free ==> !Run(bits, t, m)
  }

  lemma ScanClear(bits: seq<bool>, m: nat, f: nat, pos: nat, free: nat, n: nat)
    requires Scan(bits, m, f, pos, free) && pos + n <= |bits| && AllClear(bits, pos, pos + n)
    ensures Scan(bits, m, f, pos + n, free + n)
  {
  }

  lemma ScanSet(bits: seq<bool>, m: nat, f: nat, pos: nat, free: nat, n: nat)
    requires Scan(bits, m, f, pos, free) && free < m && pos + n <= |bits| && n > 0
    requires forall k :: pos <= k < pos + n ==> bits[k]
    ensures Scan(bits, m, f, pos + n, 0) && f < pos + n
  {
    forall t | f <= t < pos + n
      ensures !Run(bits, t, m)
    {
      if t >= pos - free {
        assert bits[if t < pos then pos else t];
      }
    }
  }

  lemma ScanFound(bits: seq<bool>, m: nat, f: nat, pos: nat, free: nat)
    requires Scan(bits, m, f, pos, free) && free >= m
    ensures Least(bits, m, f, pos - free) && Run(bits, pos - free, free)
  {
  }

  lemma ScanFailed(bits: seq<bool>, m: nat, f: nat, free: nat)
    requires Scan(bits, m, f, |bits|, free) && free < m
    ensures NoRun(bits, m, f)
  {
  }

  //////////////////////////////////////////////////////////////////////////////
  // Words
  //////////////////////////////////////////////////////////////////////////////

  /** The b-th 32-bit word of the map, as a little-endian machine reads it. */
  function Word(d: seq<byte>, b: nat): nat
    requires 4 * b + 4 <= |d|
  {
    d[4 * b] as int + 256 * (d[4 * b + 1] as int + 256 * (d[4 * b + 2] as int + 256 * (d[4 * b + 3] as int)))
  }

  lemma WordBit(d: seq<byte>, b: nat, k: nat)
    requires 4 * b + 4 <= |d| && k < 32
    ensures BitAt(Word(d, b), k) == BitsOf(d)[32 * b + k]
  {
    var d0, d1, d2, d3 := d[4 * b] as int, d[4 * b + 1] as int, d[4 * b + 2] as int, d[4 * b + 3] as int;
    assert (32 * b + k) / 8 == 4 * b + k / 8 && (32 * b + k) % 8 == k % 8;
    JoinedByte(d0, d1 + 256 * (d2 + 256 * d3), k);
    if k >= 8 {
      JoinedByte(d1, d2 + 256 * d3, k - 8);
    }
    if k >= 16 {
      JoinedByte(d2, d3, k - 16);
    }
  }

  /** The bits of word w lie at base.. in the map. */
  predicate WordAt(bits: seq<bool>, base: nat, w: nat) {
    base + 32 <= |bits| && w < 0x1_0000_0000 && forall k :: 0 <= k < 32 ==> BitAt(w, k) == bits[base + k]
  }

  lemma WordIsAt(d: seq<byte>, b: nat, len: nat)
    requires len <= 8 * |d| && 32 * b + 32 <= len
    ensures WordAt(BitsOf(d)[..len], 32 * b, Word(d, b))
  {
    forall k | 0 <= k < 32
      ensures BitAt(Word(d, b), k) == BitsOf(d)[..len][32 * b + k]
    {
      WordBit(d, b, k);
    }
  }

  /** The bits of w lie at base.. in the map, so they agree as a whole. */
  lemma BitsAt(bits: seq<bool>, base: nat, w: nat, n: nat, v: bool)
    requires base + n <= |bits| && forall k :: 0 <= k < n ==> BitAt(w, k) == bits[base + k]
    ensures BitsAre(w, n, v) <==> forall k :: base <= k < base + n ==> bits[k] == v
  {
    if BitsAre(w, n, v) {
      forall k | base <= k < base + n
        ensures bits[k] == v
      {
        assert BitAt(w, k - base) == bits[base + (k - base)];
      }
    }
    if forall k :: base <= k < base + n ==> bits[k] == v {
      forall k | 0 <= k < n
        ensures BitAt(w, k) == v
      {
        assert bits[base + k] == v;
      }
    }
  }

  lemma FullWord(bits: seq<bool>, base: nat, w: nat)
    requires WordAt(bits, base, w)
    ensures w == 0xffff_ffff <==> forall k :: base <= k < base + 32 ==> bits[k]
    ensures w == 0 <==> AllClear(bits, base, base + 32)
  {
    hide Pow2;
    Pow2Word();
    AllBits(w, 32);
    NoBits(w, 32);
    BitsAt(bits, base, w, 32, true);
    BitsAt(bits, base, w, 32, false);
  }

  /** What remains of a word of which `viewed` bits were shifted out. */
  predicate Rest(bits: seq<bool>, base: nat, viewed: nat, w: nat) {
    && viewed <= 32 && base + 32 <= |bits| && w < Pow2(32 - viewed)
    && forall k :: 0 <= k < 32 - viewed ==> BitAt(w, k) == bits[base + viewed + k]
  }

  lemma RestShift(bits: seq<bool>, base: nat, viewed: nat, w: nat, n: nat)
    requires Rest(bits, base, viewed, w) && viewed + n <= 32
    ensures Rest(bits, base, viewed + n, Shr(w, n))
  {
    hide BitAt, Shr, Pow2;
    ShrBound(w, n, 32 - viewed);
    forall k | 0 <= k < 32 - (viewed + n)
      ensures BitAt(Shr(w, n), k) == bits[base + (viewed + n) + k]
    {
      BitOfShr(w, n, k);
      assert BitAt(w, n + k) == bits[base + viewed + (n + k)];
    }
  }

  /** An empty rest is a run of clear bits to the end of the word. */
  lemma RestEmpty(bits: seq<bool>, base: nat, viewed: nat, w: nat)
    requires Rest(bits, base, viewed, w) && w == 0
    ensures AllClear(bits, base + viewed, base + 32)
  {
    hide Pow2;
    NoBits(w, 32 - viewed);
    BitsAt(bits, base + viewed, w, 32 - viewed, false);
  }

  /** The trailing zeroes are the clear bits up to the next set one. */
  lemma RestZeroes(bits: seq<bool>, base: nat, viewed: nat, w: nat)
    requires Rest(bits, base, viewed, w) && w > 0
    ensures var n := Ctz(w);
      viewed + n < 32 && AllClear(bits, base + viewed, base + viewed + n) && bits[base + viewed + n]
  {
    hide Pow2;
    var n := Ctz(w);
    BitBelow(w, 32 - viewed, n);
    assert forall k :: base + viewed <= k < base + viewed + n ==> bits[k] == BitAt(w, k - base - viewed);
  }

  /** The trailing ones of a rest that starts with a one and is not full. */
  lemma RestOnes(bits: seq<bool>, base: nat, viewed: nat, w: nat)
    requires Rest(bits, base, viewed, w) && viewed < 32 && w < 0xffff_ffff && BitAt(w, 0)
    ensures var n := Ctz(0xffff_ffff - w);
      0 < n && viewed + n <= 32 && forall k :: base + viewed <= k < base + viewed + n ==> bits[k]
  {
    hide Pow2, BitAt;
    var n := Ctz(0xffff_ffff - w);
    OnesBelow(w, 32 - viewed);
    assert forall k :: base + viewed <= k < base + viewed + n ==> bits[k] == BitAt(w, k - base - viewed);
  }

  lemma OnesBelow(w: nat, m: nat)
    requires m <= 32 && w < Pow2(m) && w < 0xffff_ffff && BitAt(w, 0)
    ensures var n := Ctz(0xffff_ffff - w);
      0 < n <= m && forall k :: 0 <= k < n ==> BitAt(w, k)
  {
    hide Pow2, BitAt;
    Pow2Word();
    var y := 0xffff_ffff - w;
    var n := Ctz(y);
    BitBelow(y, 32, n);
    if n > m {
      BitOfNot(w, 32, m);
      AboveRest(w, m);
    }
    forall k | 0 <= k < n
      ensures BitAt(w, k)
    {
      BitOfNot(w, 32, k);
    }
    BitOfNot(w, 32, 0);
  }

  lemma {:induction false} Pow2Monotone(i: nat, j: nat)
    requires i <= j
    ensures Pow2(i) <= Pow2(j)
  {
    if i < j {
      Pow2Monotone(i, j - 1);
    }
  }

  lemma AboveRest(w: nat, n: nat)
    requires w < Pow2(n)
    ensures !BitAt(w, n)
  {
    if BitAt(w, n) {
      BitBelow(w, n, n);
    }
  }

  //////////////////////////////////////////////////////////////////////////////
  // Searching
  //////////////////////////////////////////////////////////////////////////////

  /** Where the search for `from` really begins: an empty first word is taken whole, and
      in the bits after the last whole word the search begins at the first of them. */
  function From(d: seq<byte>, len: nat, from: nat): (f: nat)
    requires len <= 8 * |d|
    ensures f <= from && f <= len
    ensures from % 32 == 0 && from <= len ==> f == from
  {
    if from / 32 >= len / 32 then len / 32 * 32
    else if Word(d, from / 32) == 0 then from / 32 * 32
    else from
  }

  /** What the caller's variable holds when `free` clear bits end at pos. */
  predicate StartOk(start: int, start0: int, f: nat, pos: nat, free: nat) {
    && (free > 0 ==> start == pos - free)
    && (free == 0 && pos == f ==> start == start0 || start == f)
  }

  /** The result of a search: how many clear bits were counted, and where they start. */
  predicate Outcome(bits: seq<bool>, m: nat, f: nat, start0: int, r: int, start: int) {
    if r >= 0 then
      && r >= m
      && (m > 0 ==> Least(bits, m, f, start) && Run(bits, start, r))
      && (m == 0 ==> start == start0 || start == f)
    else r == -1 && NoRun(bits, m, f)
  }

  lemma Counted(bits: seq<bool>, m: nat, f: nat, start0: int, pos: nat, free: nat, start: int)
    requires Scan(bits, m, f, pos, free) && StartOk(start, start0, f, pos, free) && free >= m
    ensures Outcome(bits, m, f, start0, free, start)
  {
    ScanFound(bits, m, f, pos, free);
    if m == 0 {
      assert f < pos - free ==> Run(bits, f, 0);
    }
  }

  /** The loop over one word that is neither full nor empty. */
  method ScanBucket(ghost bits: seq<bool>, w: nat, base: nat, from: nat, m: nat, ghost f: nat, ghost start0: int, free0: nat, startIn: int)
      returns (found: bool, free: nat, start: int)
    requires WordAt(bits, base, w) && w < 0xffff_ffff && from < 32
    requires Scan(bits, m, f, base + from, free0) && StartOk(startIn, start0, f, base + from, free0)
    ensures found ==> Outcome(bits, m, f, start0, free, start)
    ensures !found ==> Scan(bits, m, f, base + 32, free) && StartOk(start, start0, f, base + 32, free)
  {
    hide BitAt, Ctz, Shr, Pow2, Scan, AllClear, WordAt, Outcome, Rest;
    free, start := free0, startIn;
    var viewed := from;
    var bucket := Shr(w, viewed);
    WholeRest(bits, base, w);
    RestShift(bits, base, 0, w, from);
    ShrLess(w, from);
    while viewed < 32
      invariant viewed <= 32 && Rest(bits, base, viewed, bucket) && bucket < 0xffff_ffff
      invariant Scan(bits, m, f, base + viewed, free) && StartOk(start, start0, f, base + viewed, free)
    {
      if bucket == 0 {
        RestEmpty(bits, base, viewed, bucket);
        RestFacts(bits, base, viewed, bucket);
        ScanClear(bits, m, f, base + viewed, free, 32 - viewed);
        RestShift(bits, base, viewed, bucket, 32 - viewed);
        ShrZero(32 - viewed);
        if free == 0 {
          start := base + viewed;
        }
        free := free + (32 - viewed);
        viewed := 32;
      } else {
        var zeroes := Ctz(bucket);
        RestFacts(bits, base, viewed, bucket);
        RestZeroes(bits, base, viewed, bucket);
        ScanClear(bits, m, f, base + viewed, free, zeroes);
        RestShift(bits, base, viewed, bucket, zeroes);
        ShrLess(bucket, zeroes);
        BitOfShr(bucket, zeroes, 0);
        bucket := Shr(bucket, zeroes);
        if free == 0 {
          start := base + viewed;
        }
        free := free + zeroes;
        viewed := viewed + zeroes;
        if free >= m {
          Counted(bits, m, f, start0, base + viewed, free, start);
          return true, free, start;
        }
        var ones := Ctz(0xffff_ffff - bucket);
        RestOnes(bits, base, viewed, bucket);
        ScanSet(bits, m, f, base + viewed, free, ones);
        RestShift(bits, base, viewed, bucket, ones);
        ShrLess(bucket, ones);
        bucket := Shr(bucket, ones);
        viewed := viewed + ones;
        free := 0;
      }
    }
    found := false;
  }

  lemma WholeRest(bits: seq<bool>, base: nat, w: nat)
    requires WordAt(bits, base, w)
    ensures Rest(bits, base, 0, w)
  {
    hide Pow2;
    Pow2Word();
  }

  lemma RestFacts(bits: seq<bool>, base: nat, viewed: nat, w: nat)
    requires Rest(bits, base, viewed, w)
    ensures base + 32 <= |bits|
  {
  }

  lemma {:induction false} ShrZero(n: nat)
    ensures Shr(0, n) == 0
  {
    if n > 0 {
      ShrZero(n - 1);
    }
  }

  lemma {:induction false} ShrLess(x: nat, n: nat)
    ensures Shr(x, n) <= x
  {
    if n > 0 {
      ShrLess(x / 2, n - 1);
    }
  }

  /** bitmap_next_range_of_unset_bits */
  method NextRangeOfUnsetBits(data: array<byte>, len: nat, from: nat, m: nat, start0: int) returns (r: int, start: int)
    requires len <= 8 * data.Length
    ensures Outcome(BitsOf(data[..])[..len], m, From(data[..], len, from), start0, r, start)
    ensures m > 0 && SearchGuard(data[..], len, from) ==> Outcome(BitsOf(data[..])[..len], m, from, start0, r, start)
  {
    r, start := SearchFrom(data, len, from, m, start0);
    if m > 0 && SearchGuard(data[..], len, from) {
      GuardedOutcome(data[..], len, from, m, start0, r, start);
    }
  }

  /** The search, from where it really begins. */
  method SearchFrom(data: array<byte>, len: nat, from: nat, m: nat, start0: int) returns (r: int, start: int)
    requires len <= 8 * data.Length
    ensures Outcome(BitsOf(data[..])[..len], m, From(data[..], len, from), start0, r, start)
  {
    hide BitAt, Pow2, Scan, Outcome, WordAt, Run, AllClear, Word, BitsOf;
    ghost var d := data[..];
    ghost var bits, f := BitsOf(d)[..len], From(d, len, from);
    start := start0;
    var startBucketBit := from % 32;
    var free: nat := 0;
    FromBegins(d, len, from);
    ScanBegins(bits, m, f);
    ghost var pos: nat := f;
    var bucketIndex := from / 32;
    while bucketIndex < len / 32
      invariant bucketIndex >= from / 32
      invariant startBucketBit == if bucketIndex == from / 32 then from % 32 else 0
      invariant pos <= len && Scan(bits, m, f, pos, free) && StartOk(start, start0, f, pos, free)
      invariant bucketIndex < len / 32 ==> pos == 32 * bucketIndex + (if Word(d, bucketIndex) == 0 then 0 else startBucketBit)
      invariant bucketIndex >= len / 32 ==> pos == len / 32 * 32
      decreases len / 32 - bucketIndex
    {
      var w := ReadWord(data, bucketIndex);
      WordIsAt(d, bucketIndex, len);
      FullWord(bits, 32 * bucketIndex, w);
      if w == 0xffff_ffff {
        if free >= m {
          Counted(bits, m, f, start0, pos, free, start);
          return free, start;
        }
        ScanSet(bits, m, f, pos, free, 32 * bucketIndex + 32 - pos);
        free := 0;
      } else if w == 0 {
        ScanClear(bits, m, f, pos, free, 32);
        if free == 0 {
          start := bucketIndex * 32;
        }
        free := free + 32;
        if free >= m {
          Counted(bits, m, f, start0, pos + 32, free, start);
          return free, start;
        }
      } else {
        var found;
        found, free, start := ScanBucket(bits, w, 32 * bucketIndex, startBucketBit, m, f, start0, free, start);
        if found {
          return free, start;
        }
      }
      pos := 32 * bucketIndex + 32;
      startBucketBit := 0;
      bucketIndex := bucketIndex + 1;
    }
    if free < m {
      r, start := ScanTail(data, len, m, f, start0, free, start);
    } else {
      Counted(bits, m, f, start0, pos, free, start);
      r := free;
    }
  }

  method ReadWord(data: array<byte>, b: nat) returns (w: nat)
    requires 4 * b + 4 <= data.Length
    ensures w == Word(data[..], b)
  {
    w := data[4 * b] as int + 256 * (data[4 * b + 1] as int + 256 * (data[4 * b + 2] as int + 256 * (data[4 * b + 3] as int)));
  }

  lemma FromBegins(d: seq<byte>, len: nat, from: nat)
    requires len <= 8 * |d|
    ensures var f := From(d, len, from);
      && (from / 32 < len / 32 ==> f == 32 * (from / 32) + (if Word(d, from / 32) == 0 then 0 else from % 32))
      && (from / 32 >= len / 32 ==> f == len / 32 * 32)
  {
  }

  lemma ScanBegins(bits: seq<bool>, m: nat, f: nat)
    requires f <= |bits|
    ensures Scan(bits, m, f, f, 0)
  {
  }

  /** The bits after the last whole word, one by one. */
  method ScanTail(data: array<byte>, len: nat, m: nat, ghost f: nat, ghost start0: int, free0: nat, startIn: int) returns (r: int, start: int)
    requires len <= 8 * data.Length && free0 < m
    requires Scan(BitsOf(data[..])[..len], m, f, len / 32 * 32, free0) && StartOk(startIn, start0, f, len / 32 * 32, free0)
    ensures Outcome(BitsOf(data[..])[..len], m, f, start0, r, start)
  {
    hide BitAt, Scan, Outcome, Run, AllClear;
    ghost var bits := BitsOf(data[..])[..len];
    var free: nat := free0;
    start := startIn;
    var first := len / 32 * 32;
    for i := 0 to len % 32
      invariant free < m
      invariant Scan(bits, m, f, first + i, free) && StartOk(start, start0, f, first + i, free)
    {
      var bit := BitAt(data[(first + i) / 8], (first + i) % 8);
      assert bit == bits[first + i];
      if !bit {
        OneClear(bits, first + i);
        ScanClear(bits, m, f, first + i, free, 1);
        if free == 0 {
          start := first + i;
        }
        free := free + 1;
        if free >= m {
          Counted(bits, m, f, start0, first + i + 1, free, start);
          return free, start;
        }
      } else {
        ScanSet(bits, m, f, first + i, free, 1);
        free := 0;
      }
    }
    ScanFailed(bits, m, f, free);
    NoOutcome(bits, m, f, start0, start);
    r := -1;
  }

  lemma OneClear(bits: seq<bool>, k: nat)
    requires k < |bits| && !bits[k]
    ensures AllClear(bits, k, k + 1)
  {
  }

  lemma NoOutcome(bits: seq<bool>, m: nat, f: nat, start0: int, start: int)
    requires NoRun(bits, m, f)
    ensures Outcome(bits, m, f, start0, -1, start)
  {
  }

  predicate Ok(b: Bitmap)
  {
    b.len < 0x8000_0000 && (b.data != null ==> b.len <= 8 * b.data.Length)
  }

  /** The bits the bitmap describes; a map may hold further ones. */
  function BitsIn(b: Bitmap): (r: seq<bool>)
    requires Ok(b) && b.data != null
    reads b.data
    ensures |r| == b.len
  {
    BitsOf(b.data[..])[..b.len]
  }

  /** bitmap_find_space */
  method FindSpace(b: Bitmap, req: int) returns (r: int)
    requires Ok(b) && -0x8000_0000 <= req < 0x8000_0000
    ensures b.data == null ==> r == -EINVAL
    ensures b.data != null && r >= 0 ==> req >= 0 && Least(BitsIn(b), req, 0, r)
    ensures b.data != null && r < 0 ==> r == -ENODATA && (req >= 0 ==> NoRun(BitsIn(b), req, 0))
  {
    hide BitsOf, Least, NoRun, Word;
    if b.data == null {
      return -EINVAL;
    }
    var m := if req < 0 then req + SIZE_VALUES else req;
    var len, start := NextRangeOfUnsetBits(b.data, b.len, 0, m, 0);
    if len < 0 {
      return -ENODATA;
    }
    if m == 0 {
      NothingFits(BitsIn(b));
    } else {
      LeastIsIndex(BitsIn(b), m, 0, start);
    }
    r := start;
  }

  lemma LeastIsIndex(bits: seq<bool>, m: nat, f: nat, s: int)
    requires Least(bits, m, f, s)
    ensures f <= s <= |bits|
  {
  }

  lemma NothingFits(bits: seq<bool>)
    ensures Least(bits, 0, 0, 0)
  {
  }

  //////////////////////////////////////////////////////////////////////////////
  // The aligned search
  //////////////////////////////////////////////////////////////////////////////

  predicate AlignedRun(bits: seq<bool>, m: nat, al: int, s: nat)
    requires al != 0
  {
    s % al == 0 && Run(bits, s, m)
  }

  predicate AlignedLeast(bits: seq<bool>, m: nat, al: int, s: int)
    requires al != 0
  {
    0 <= s && AlignedRun(bits, m, al, s) && forall t :: 0 <= t < s ==> !AlignedRun(bits, m, al, t)
  }

  /** At pos: `taken` clear bits since the aligned index start, and no aligned run begins
      earlier. */
  predicate AlignedScan(bits: seq<bool>, m: nat, al: int, pos: nat, taken: nat, start: int)
    requires al != 0
  {
    && pos <= |bits| && taken < m
    && (taken > 0 ==> 0 <= start && start + taken == pos && start % al == 0 && AllClear(bits, start, pos))
    && forall t :: 0 <= t < pos - taken ==> !AlignedRun(bits, m, al, t)
  }

  lemma AlignedSet(bits: seq<bool>, m: nat, al: int, pos: nat, taken: nat, start: int, n: nat)
    requires al != 0 && AlignedScan(bits, m, al, pos, taken, start) && pos + n <= |bits|
    requires n > 0 && forall k :: pos <= k < pos + n ==> bits[k]
    ensures AlignedScan(bits, m, al, pos + n, 0, start)
  {
    forall t | 0 <= t < pos + n
      ensures !AlignedRun(bits, m, al, t)
    {
      if t >= pos - taken {
        assert bits[if t < pos then pos else t];
      }
    }
  }

  lemma AlignedClear(bits: seq<bool>, m: nat, al: int, pos: nat, taken: nat, start: int)
    requires al != 0 && AlignedScan(bits, m, al, pos, taken, start) && pos < |bits| && !bits[pos]
    ensures var start' := if taken == 0 then pos else start;
      var taken' := if start' % al == 0 then taken + 1 else taken;
      if taken' == m then AlignedLeast(bits, m, al, start') else AlignedScan(bits, m, al, pos + 1, taken', start')
  {
  }

  lemma AlignedFailed(bits: seq<bool>, m: nat, al: int, taken: nat, start: int)
    requires al != 0 && AlignedScan(bits, m, al, |bits|, taken, start)
    ensures forall t :: 0 <= t <= |bits| ==> !AlignedRun(bits, m, al, t)
  {
  }

  lemma FullByte(d: seq<byte>, i: nat)
    requires i < |d| && d[i] == 0xff
    ensures forall k :: 8 * i <= k < 8 * i + 8 ==> BitsOf(d)[k]
  {
    hide BitAt;
    forall k | 8 * i <= k < 8 * i + 8
      ensures BitsOf(d)[k]
    {
      assert k / 8 == i && k % 8 == k - 8 * i;
      OnesOf255(k % 8);
    }
  }

  lemma OnesOf255(k: nat)
    requires k < 8
    ensures BitAt(255, k)
  {
    hide BitAt;
    Pow2Word();
    BitOfNot(0, 8, k);
    NoBit(k);
  }

  /** bitmap_find_space_aligned: the least aligned start in the whole bytes of the map. A
      request of no blocks can only find a clear block that is not aligned. */
  method FindSpaceAligned(b: Bitmap, req: int, al: int) returns (r: int)
    requires Ok(b) && al != 0
    ensures b.data == null ==> r == -EINVAL
    ensures b.data != null && req > 0 && r >= 0 ==> AlignedLeast(BitsIn(b)[..b.len / 8 * 8], req, al, r)
    ensures b.data != null && req <= 0 && r >= 0 ==> req == 0 && r < b.len && !BitsIn(b)[r] && r % al != 0
    ensures b.data != null && r < 0 ==> r == -ENODATA
    ensures b.data != null && r < 0 && req > 0 ==> forall t :: 0 <= t <= b.len ==> !AlignedRun(BitsIn(b)[..b.len / 8 * 8], req, al, t)
  {
    hide BitAt, BitsOf, AlignedScan, AlignedLeast, AlignedRun;
    if b.data == null {
      return -EINVAL;
    }
    var taken: nat, start := 0, 0;
    ghost var bits := BitsIn(b)[..b.len / 8 * 8];
    if req > 0 {
      AlignedBegins(bits, req, al);
    }
    for i := 0 to b.len / 8
      invariant req > 0 ==> AlignedScan(bits, req, al, 8 * i, taken, start)
    {
      if b.data[i] == 0xff {
        if req > 0 {
          FullByte(b.data[..], i);
          AlignedSet(bits, req, al, 8 * i, taken, start, 8);
        }
        taken := 0;
      } else {
        var found;
        ByteBits(b.data[..], i, b.len);
        found, taken, start := ScanByte(b.data[i], bits, 8 * i, req, al, taken, start);
        if found {
          return start;
        }
      }
    }
    if req > 0 {
      AlignedFailed(bits, req, al, taken, start);
      AlignedNone(bits, req, al);
    }
    r := -ENODATA;
  }

  /** The loop over one byte that is not full. */
  method ScanByte(x: byte, ghost bits: seq<bool>, base: nat, req: int, al: int, taken0: nat, start0: int)
      returns (found: bool, taken: nat, start: int)
    requires al != 0 && base + 8 <= |bits| && forall j :: 0 <= j < 8 ==> BitAt(x, j) == bits[base + j]
    requires req > 0 ==> AlignedScan(bits, req, al, base, taken0, start0)
    ensures found && req > 0 ==> start >= 0 && AlignedLeast(bits, req, al, start)
    ensures found && req <= 0 ==> req == 0 && base <= start < base + 8 && !bits[start] && start % al != 0
    ensures !found && req > 0 ==> AlignedScan(bits, req, al, base + 8, taken, start)
  {
    hide BitAt, AlignedScan, AlignedLeast, AlignedRun;
    taken, start := taken0, start0;
    for j := 0 to 8
      invariant req > 0 ==> AlignedScan(bits, req, al, base + j, taken, start)
    {
      assert BitAt(x, j) == bits[base + j];
      if BitAt(x, j) {
        if req > 0 {
          AlignedSet(bits, req, al, base + j, taken, start, 1);
        }
        taken := 0;
      } else {
        if req > 0 {
          AlignedClear(bits, req, al, base + j, taken, start);
        }
        if taken == 0 {
          start := base + j;
        }
        if start % al == 0 {
          taken := taken + 1;
        }
        if taken == req {
          if req > 0 {
            StartIsIndex(bits, req, al, start);
          }
          return true, taken, start;
        }
      }
    }
    found := false;
  }

  lemma ByteBits(d: seq<byte>, i: nat, len: nat)
    requires i < len / 8 && len <= 8 * |d|
    ensures forall j :: 0 <= j < 8 ==> BitAt(d[i], j) == BitsOf(d)[..len][..len / 8 * 8][8 * i + j]
  {
    hide BitAt;
    forall j | 0 <= j < 8
      ensures BitAt(d[i], j) == BitsOf(d)[8 * i + j]
    {
      assert (8 * i + j) / 8 == i && (8 * i + j) % 8 == j;
    }
  }

  lemma StartIsIndex(bits: seq<bool>, m: nat, al: int, s: int)
    requires al != 0 && AlignedLeast(bits, m, al, s)
    ensures s >= 0
  {
  }

  lemma AlignedBegins(bits: seq<bool>, m: nat, al: int)
    requires al != 0 && m > 0
    ensures AlignedScan(bits, m, al, 0, 0, 0)
  {
  }

  lemma AlignedNone(bits: seq<bool>, m: nat, al: int)
    requires al != 0 && forall t :: 0 <= t <= |bits| ==> !AlignedRun(bits, m, al, t)
    ensures forall t :: 0 <= t ==> !AlignedRun(bits, m, al, t)
  {
  }

  //////////////////////////////////////////////////////////////////////////////
  // Updates
  //////////////////////////////////////////////////////////////////////////////

  /** Exactly the bits lo..hi now have value v; all others are as before. */
  predicate Updated(was: seq<bool>, now: seq<bool>, lo: int, hi: int, v: bool) {
    |now| == |was| && forall k :: 0 <= k < |was| ==> now[k] == if lo <= k < hi then v else was[k]
  }

  lemma UpdatedThen(a: seq<bool>, b: seq<bool>, c: seq<bool>, lo: int, mid: int, hi: int, v: bool)
    requires lo <= mid <= hi && Updated(a, b, lo, mid, v) && Updated(b, c, mid, hi, v)
    ensures Updated(a, c, lo, hi, v)
  {
  }

  lemma WriteBit(d: seq<byte>, i: nat, k: nat, v: bool)
    requires i < |d| && k < 8
    ensures var x := if v then OrBit(d[i], k) else AndNotBit(d[i], k);
      0 <= x < 256 && Updated(BitsOf(d), BitsOf(d[i := x]), 8 * i + k, 8 * i + k + 1, v)
  {
    hide BitAt, OrBit, AndNotBit;
    Pow2Word();
    var x := if v then OrBit(d[i], k) else AndNotBit(d[i], k);
    OrBitIs(d[i], k, 8, 0);
    AndNotBitIs(d[i], k, 8, 0);
    var d' := d[i := x];
    forall j | 0 <= j < 8 * |d|
      ensures BitsOf(d')[j] == if j == 8 * i + k then v else BitsOf(d)[j]
    {
      assert BitsOf(d')[j] == BitAt(d'[j / 8], j % 8) && BitsOf(d)[j] == BitAt(d[j / 8], j % 8);
      assert j == 8 * i + k <==> j / 8 == i && j % 8 == k;
      if j / 8 == i {
        OrBitIs(d[i], k, 8, j % 8);
        AndNotBitIs(d[i], k, 8, j % 8);
      }
    }
  }

  lemma WriteByte(d: seq<byte>, i: nat, v: bool)
    requires i < |d|
    ensures Updated(BitsOf(d), BitsOf(d[i := if v then 0xff else 0]), 8 * i, 8 * i + 8, v)
  {
    hide BitAt;
    var x: byte := if v then 0xff else 0;
    var d' := d[i := x];
    forall j | 0 <= j < 8 * |d|
      ensures BitsOf(d')[j] == if 8 * i <= j < 8 * i + 8 then v else BitsOf(d)[j]
    {
      assert 8 * i <= j < 8 * i + 8 <==> j / 8 == i;
      assert BitsOf(d')[j] == BitAt(d'[j / 8], j % 8);
      if v {
        OnesOf255(j % 8);
      } else {
        NoBit(j % 8);
      }
    }
  }

  /** bitmap_set */
  method Set(b: Bitmap, at: int) returns (r: int)
    requires Ok(b)
    modifies if b.data == null then {} else {b.data}
    ensures b.data == null ==> r == -EINVAL
    ensures b.data != null ==> r == if 0 <= at < b.len then 0 else -EFAULT
    ensures b.data != null ==> Updated(BitsOf(old(b.data[..])), BitsOf(b.data[..]), at, if 0 <= at < b.len then at + 1 else at, true)
  {
    if b.data == null {
      return -EINVAL;
    }
    if at < 0 || at >= b.len {
      return -EFAULT;
    }
    hide BitAt, OrBit, AndNotBit, BitsOf, Updated;
    var block, offset := at / 8, at % 8;
    WriteBit(b.data[..], block, offset, true);
    b.data[block] := OrBit(b.data[block], offset);
    assert b.data[..] == old(b.data[..])[block := OrBit(old(b.data[block]), offset)];
    r := 0;
  }

  /** bitmap_unset */
  method Unset(b: Bitmap, at: int) returns (r: int)
    requires Ok(b)
    modifies if b.data == null then {} else {b.data}
    ensures b.data == null ==> r == -EINVAL
    ensures b.data != null ==> r == if 0 <= at < b.len then 0 else -EFAULT
    ensures b.data != null ==> Updated(BitsOf(old(b.data[..])), BitsOf(b.data[..]), at, if 0 <= at < b.len then at + 1 else at, false)
  {
    if b.data == null {
      return -EINVAL;
    }
    if at < 0 || at >= b.len {
      return -EFAULT;
    }
    hide BitAt, OrBit, AndNotBit, BitsOf, Updated;
    var block, offset := at / 8, at % 8;
    WriteBit(b.data[..], block, offset, false);
    b.data[block] := AndNotBit(b.data[block], offset);
    assert b.data[..] == old(b.data[..])[block := AndNotBit(old(b.data[block]), offset)];
    r := 0;
  }

  /** The calls that are refused, and those that neither write before the map nor count a
      negative length down for ever. */
  predicate InBounds(b: Bitmap, start: int, n: int) {
    start + n <= 0 || start + n > b.len || (n >= 0 && start > -8)
  }

  /** bitmap_set_range: bits at both ends one by one, whole bytes in between. */
  method SetRange(b: Bitmap, start: int, n: int) returns (r: int)
    requires Ok(b) && -0x8000_0000 < start + n < 0x8000_0000 && InBounds(b, start, n)
    modifies if b.data == null then {} else {b.data}
    ensures b.data == null ==> r == -EINVAL
    ensures b.data != null ==> r == if 0 < start + n <= b.len then 0 else -EFAULT
    ensures b.data != null ==> Updated(BitsOf(old(b.data[..])), BitsOf(b.data[..]), start, if r == 0 then start + n else start, true)
    ensures b.data != null && r != 0 ==> b.data[..] == old(b.data[..])
  {
    hide BitAt, BitsOf, Updated;
    if b.data == null {
      return -EINVAL;
    }
    var d := b.data;
    UpdatedNothing(BitsOf(d[..]), start, true);
    if start + n - 1 < 0 || start + n - 1 >= b.len {
      return -EFAULT;
    }
    var at, len := start, n;
    while len != 0 && at % 8 != 0
      invariant 0 <= len && start <= at && at + len == start + n
      invariant Updated(BitsOf(old(b.data[..])), BitsOf(d[..]), start, at, true)
      decreases len
    {
      ghost var was := BitsOf(d[..]);
      var _ := Set(b, at);
      UpdatedBelow(was, BitsOf(d[..]), at, true);
      UpdatedThen(BitsOf(old(b.data[..])), was, BitsOf(d[..]), start, at, at + 1, true);
      at := at + 1;
      len := len - 1;
    }
    while len >= 8
      invariant 0 <= len && start <= at && at + len == start + n && (len == 0 || (at % 8 == 0 && at >= 0))
      invariant Updated(BitsOf(old(b.data[..])), BitsOf(d[..]), start, at, true)
      decreases len
    {
      ghost var was := d[..];
      WriteByte(was, at / 8, true);
      d[at / 8] := 0xff;
      assert d[..] == was[at / 8 := 0xff];
      UpdatedThen(BitsOf(old(b.data[..])), BitsOf(was), BitsOf(d[..]), start, at, at + 8, true);
      at := at + 8;
      len := len - 8;
    }
    while len != 0
      invariant 0 <= len && start <= at && at + len == start + n
      invariant Updated(BitsOf(old(b.data[..])), BitsOf(d[..]), start, at, true)
      decreases len
    {
      ghost var was := BitsOf(d[..]);
      var _ := Set(b, at);
      UpdatedThen(BitsOf(old(b.data[..])), was, BitsOf(d[..]), start, at, at + 1, true);
      at := at + 1;
      len := len - 1;
    }
    r := 0;
  }

  /** bitmap_unset_range */
  method UnsetRange(b: Bitmap, start: int, n: int) returns (r: int)
    requires Ok(b) && -0x8000_0000 < start + n < 0x8000_0000 && InBounds(b, start, n)
    modifies if b.data == null then {} else {b.data}
    ensures b.data == null ==> r == -EINVAL
    ensures b.data != null ==> r == if 0 < start + n <= b.len then 0 else -EFAULT
    ensures b.data != null ==> Updated(BitsOf(old(b.data[..])), BitsOf(b.data[..]), start, if r == 0 then start + n else start, false)
    ensures b.data != null && r != 0 ==> b.data[..] == old(b.data[..])
  {
    hide BitAt, BitsOf, Updated;
    if b.data == null {
      return -EINVAL;
    }
    var d := b.data;
    UpdatedNothing(BitsOf(d[..]), start, false);
    if start + n - 1 < 0 || start + n - 1 >= b.len {
      return -EFAULT;
    }
    var at, len := start, n;
    while len != 0 && at % 8 != 0
      invariant 0 <= len && start <= at && at + len == start + n
      invariant Updated(BitsOf(old(b.data[..])), BitsOf(d[..]), start, at, false)
      decreases len
    {
      ghost var was := BitsOf(d[..]);
      var _ := Unset(b, at);
      UpdatedBelow(was, BitsOf(d[..]), at, false);
      UpdatedThen(BitsOf(old(b.data[..])), was, BitsOf(d[..]), start, at, at + 1, false);
      at := at + 1;
      len := len - 1;
    }
    while len >= 8
      invariant 0 <= len && start <= at && at + len == start + n && (len == 0 || (at % 8 == 0 && at >= 0))
      invariant Updated(BitsOf(old(b.data[..])), BitsOf(d[..]), start, at, false)
      decreases len
    {
      ghost var was := d[..];
      WriteByte(was, at / 8, false);
      d[at / 8] := 0;
      assert d[..] == was[at / 8 := 0];
      UpdatedThen(BitsOf(old(b.data[..])), BitsOf(was), BitsOf(d[..]), start, at, at + 8, false);
      at := at + 8;
      len := len - 8;
    }
    while len != 0
      invariant 0 <= len && start <= at && at + len == start + n
      invariant Updated(BitsOf(old(b.data[..])), BitsOf(d[..]), start, at, false)
      decreases len
    {
      ghost var was := BitsOf(d[..]);
      var _ := Unset(b, at);
      UpdatedThen(BitsOf(old(b.data[..])), was, BitsOf(d[..]), start, at, at + 1, false);
      at := at + 1;
      len := len - 1;
    }
    r := 0;
  }

  /** Before the map there is nothing to update. */
  lemma UpdatedBelow(was: seq<bool>, now: seq<bool>, at: int, v: bool)
    ensures at < 0 && Updated(was, now, at, at, v) ==> Updated(was, now, at, at + 1, v)
  {
  }

  lemma UpdatedNothing(bits: seq<bool>, lo: int, v: bool)
    ensures Updated(bits, bits, lo, lo, v)
  {
  }

  //////////////////////////////////////////////////////////////////////////////
  // Searching from elsewhere than the start
  //////////////////////////////////////////////////////////////////////////////

  /** The search from `from` finds what a search from `from` should, for every request,
      exactly when the bits it looks at too early are all set. */
  lemma SearchRightIff(bits: seq<bool>, f: nat, from: nat)
    requires f <= from && f <= |bits|
    ensures (forall m: nat, s: int :: m > 0 ==> (Least(bits, m, f, s) <==> Least(bits, m, from, s)))
       <==> (forall k :: f <= k < from && k < |bits| ==> bits[k])
  {
    if forall k :: f <= k < from && k < |bits| ==> bits[k] {
      forall m: nat, s: int | m > 0
        ensures Least(bits, m, f, s) <==> Least(bits, m, from, s)
      {
        EarlySetBits(bits, f, from, m, s);
      }
    } else {
      var k :| f <= k < from && k < |bits| && !bits[k];
      var s := FirstClear(bits, f, k);
      assert Least(bits, 1, f, s) && !Least(bits, 1, from, s);
    }
  }

  lemma EarlySetBits(bits: seq<bool>, f: nat, from: nat, m: nat, s: int)
    requires f <= from && m > 0 && forall k :: f <= k < from && k < |bits| ==> bits[k]
    ensures Least(bits, m, f, s) <==> Least(bits, m, from, s)
  {
    forall t | f <= t < from
      ensures !Run(bits, t, m)
    {
      assert t < |bits| ==> bits[t];
    }
  }

  lemma {:induction false} FirstClear(bits: seq<bool>, f: nat, k: nat) returns (s: nat)
    requires f <= k < |bits| && !bits[k]
    ensures f <= s <= k && Least(bits, 1, f, s)
    decreases k - f
  {
    if !bits[f] {
      s := f;
    } else {
      s := FirstClear(bits, f + 1, k);
      assert !Run(bits, f, 1);
    }
  }

  /** What a caller can check: the search begins in a word whose bits before `from` matter
      only if it is empty, or behind the last whole word with no clear bit before `from`. */
  predicate SearchGuard(d: seq<byte>, len: nat, from: nat)
    requires len <= 8 * |d|
  {
    if from / 32 < len / 32 then from % 32 == 0 || Word(d, from / 32) != 0
    else forall k :: len / 32 * 32 <= k < from && k < len ==> BitsOf(d)[k]
  }

  /** The search from `from` is right for every request exactly under that guard. */
  lemma NextRangeRightIff(d: seq<byte>, len: nat, from: nat)
    requires len <= 8 * |d|
    ensures (forall m: nat, s: int :: m > 0 ==> (Least(BitsOf(d)[..len], m, From(d, len, from), s) <==> Least(BitsOf(d)[..len], m, from, s)))
       <==> SearchGuard(d, len, from)
  {
    hide BitsOf, Word, Least;
    var bits, f := BitsOf(d)[..len], From(d, len, from);
    SearchRightIff(bits, f, from);
    if from / 32 < len / 32 && from % 32 != 0 && Word(d, from / 32) == 0 {
      WordIsAt(d, from / 32, len);
      FullWord(bits, 32 * (from / 32), 0);
      assert !bits[f];
    }
  }

  lemma GuardedOutcome(d: seq<byte>, len: nat, from: nat, m: nat, start0: int, r: int, start: int)
    requires len <= 8 * |d| && m > 0 && SearchGuard(d, len, from)
    requires Outcome(BitsOf(d)[..len], m, From(d, len, from), start0, r, start)
    ensures Outcome(BitsOf(d)[..len], m, from, start0, r, start)
  {
    hide BitsOf, Word, SearchGuard, From, Run;
    NextRangeRightIff(d, len, from);
    if r >= 0 {
      assert Least(BitsOf(d)[..len], m, from, start);
    }
  }

  /** A search that starts inside an empty word answers too early. */
  lemma UnalignedSearchFails()
    ensures From([0, 0, 0, 0], 32, 1) == 0
    ensures Least(BitsOf([0, 0, 0, 0])[..32], 1, 0, 0) && !Least(BitsOf([0, 0, 0, 0])[..32], 1, 1, 0)
  {
    assert Word([0, 0, 0, 0], 0) == 0;
    NoBit(0);
    var bits := BitsOf([0, 0, 0, 0])[..32];
    assert !bits[0];
    assert AllClear(bits, 0, 1);
  }
}
