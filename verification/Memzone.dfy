/** The zones of an address space: 64-bit size arithmetic that wraps around, page rounding,
    and placement at the lowest or highest free address. */
module Memzone {
  import opened Machine

  const USER_HIGH: nat := 0x7fff_ffff_ffff
  const USER_END: nat := 0x8000_0000_0000
  const PAGE: nat := 4096
  const EALREADY: int := 114

  datatype Zone = Zone(vaddr: uint64, len: uint64)

  /** _pzones_intersect */
  predicate Intersect(start1: uint64, size1: uint64, start2: uint64, size2: uint64) {
    var end1, end2 := Wrap(start1 + size1 - 1), Wrap(start2 + size2 - 1);
    || (start1 <= start2 && start2 <= end1) || (start1 <= end2 && end2 <= end1)
    || (start2 <= start1 && start1 <= end2) || (start2 <= end1 && end1 <= end2)
  }

  /** The n bytes at a lie wholly before or wholly behind the zone. */
  predicate Apart(z: Zone, a: int, n: int) {
    a + n <= z.vaddr || z.vaddr + z.len <= a
  }

  /** A zone as they are meant to be: whole pages of user space. */
  predicate ZoneOk(z: Zone) {
    z.vaddr % PAGE == 0 && z.len % PAGE == 0 && z.vaddr + z.len <= USER_END
  }

  predicate ZonesOk(zones: seq<Zone>) {
    && (forall i :: 0 <= i < |zones| ==> ZoneOk(zones[i]))
    && forall i, j :: 0 <= i < j < |zones| ==> Apart(zones[i], zones[j].vaddr, zones[j].len)
  }

  predicate NoneEmpty(zones: seq<Zone>) {
    forall i :: 0 <= i < |zones| ==> zones[i].len > 0
  }

  /** n bytes fit at a: inside user space and apart from every zone. */
  predicate Fits(zones: seq<Zone>, a: int, n: int) {
    0 <= a && a + n <= USER_END && forall i :: 0 <= i < |zones| ==> Apart(zones[i], a, n)
  }

  /** What _proc_can_add_zone tests. */
  predicate Addable(zones: seq<Zone>, start: uint64, len: uint64) {
    && Wrap(start + len) >= start && Wrap(start + len - 1) <= USER_HIGH
    && forall i :: 0 <= i < |zones| ==> !Intersect(start, len, zones[i].vaddr, zones[i].len)
  }

  /** Where the test sees an overlap that is none: next to an empty zone, anywhere if that
      zone is at address 0, and for an empty range at the edge of a zone. */
  predicate Touches(z: Zone, a: int, n: int) {
    if z.len == 0 then z.vaddr == 0 || (n > 0 && a <= z.vaddr <= a + n)
    else n == 0 && z.vaddr <= a <= z.vaddr + z.len
  }

  predicate Touched(zones: seq<Zone>, a: int, n: int) {
    exists i :: 0 <= i < |zones| && Touches(zones[i], a, n)
  }

  /** Exactly what the intersection test answers, for empty zones and ranges too. */
  lemma IntersectIff(z: Zone, a: uint64, n: uint64)
    requires ZoneOk(z) && 0 < a + n <= USER_END
    ensures Intersect(a, n, z.vaddr, z.len) <==> !Apart(z, a, n) || Touches(z, a, n)
  {
  }

  /** It never misses an overlap, whatever the zone. */
  lemma IntersectSafe(z: Zone, a: uint64, n: uint64)
    requires ZoneOk(z) && a + n <= USER_END && !Intersect(a, n, z.vaddr, z.len)
    ensures Apart(z, a, n)
  {
  }

  lemma WrapRange(start: uint64, len: uint64)
    ensures Wrap(start + len) >= start <==> start + len < SIZE_VALUES
    ensures start + len < SIZE_VALUES && start + len > 0 ==> Wrap(start + len - 1) == start + len - 1
    ensures start + len == 0 ==> Wrap(start + len - 1) > USER_HIGH
  {
  }

  /** Where the test succeeds: the bytes fit, there are any, and nothing is touched. */
  predicate Room(zones: seq<Zone>, a: int, n: int) {
    0 < a + n && Fits(zones, a, n) && !Touched(zones, a, n)
  }

  /** For every start and length. */
  lemma AddableIff(zones: seq<Zone>, a: uint64, n: uint64)
    requires ZonesOk(zones)
    ensures Addable(zones, a, n) <==> Room(zones, a, n)
  {
    hide Intersect, Apart, ZoneOk, Wrap, Touches;
    WrapRange(a, n);
    if 0 < a + n <= USER_END {
      forall i | 0 <= i < |zones|
        ensures Intersect(a, n, zones[i].vaddr, zones[i].len) <==> !Apart(zones[i], a, n) || Touches(zones[i], a, n)
      {
        IntersectIff(zones[i], a, n);
      }
    }
  }

  /** With no empty zone about, a range that is not empty touches nothing. */
  lemma NothingTouched(zones: seq<Zone>, a: int, n: int)
    requires NoneEmpty(zones) && n > 0
    ensures !Touched(zones, a, n)
  {
  }

  /** A length in whole pages, as the program rounds it: the sum may wrap around. */
  function RoundLen(len: uint64): (r: uint64)
    ensures r % PAGE == 0
    ensures len <= SIZE_VALUES - PAGE ==> len <= r < len + PAGE
    ensures len > SIZE_VALUES - PAGE ==> r == 0
  {
    if len % PAGE != 0 then Wrap(len + (PAGE - len % PAGE)) else len
  }

  function RoundStart(start: uint64): (r: uint64)
    ensures r % PAGE == 0 && r <= start < r + PAGE
  {
    start - start % PAGE
  }

  /** The zone that memzone_new tries to add. */
  function Wanted(start: uint64, len: uint64): (z: Zone)
    ensures z.vaddr % PAGE == 0 && z.len % PAGE == 0
    ensures start % PAGE == 0 && len % PAGE == 0 ==> z == Zone(start, len)
  {
    Zone(RoundStart(start), RoundLen(Wrap(len + start % PAGE)))
  }

  /** It is the least zone of whole pages that covers the bytes asked for. */
  lemma WantedIsLeast(start: uint64, len: uint64, z: Zone)
    requires z.vaddr % PAGE == 0 && z.len % PAGE == 0 && len > 0
    requires z.vaddr <= start && start + len <= z.vaddr + z.len
    ensures z.vaddr <= Wanted(start, len).vaddr
    ensures Wanted(start, len).vaddr + Wanted(start, len).len <= z.vaddr + z.len
  {
    var w := RoundStart(start);
    assert (z.vaddr + z.len) % PAGE == 0;
    assert z.vaddr <= w;
  }

  /** Where the rounded length wraps, the zone is empty or a single page. */
  lemma WantedWraps(start: uint64, len: uint64)
    requires len + start % PAGE > SIZE_VALUES - PAGE
    ensures Wanted(start, len).len == if len + start % PAGE <= SIZE_VALUES then 0 else PAGE
  {
  }

  /** The zone covers the bytes asked for exactly when the rounded end does not wrap. */
  lemma WantedCoversIff(start: uint64, len: uint64)
    requires len > 0
    ensures (Wanted(start, len).vaddr <= start && start + len <= Wanted(start, len).vaddr + Wanted(start, len).len)
       <==> len + start % PAGE <= SIZE_VALUES - PAGE
  {
  }

  //////////////////////////////////////////////////////////////////////////////
  // Lowest and highest fit
  //////////////////////////////////////////////////////////////////////////////

  function End(z: Zone): int {
    z.vaddr + z.len
  }

  /** Any fit slides down until it meets the end of a zone or address 0. */
  lemma SlideDown(zones: seq<Zone>, a: int, n: int) returns (e: int)
    requires Fits(zones, a, n)
    ensures 0 <= e <= a && Fits(zones, e, n)
    ensures e == 0 || exists i :: 0 <= i < |zones| && e == End(zones[i])
  {
    e := 0;
    var k := 0;
    while k < |zones|
      invariant 0 <= k <= |zones| && 0 <= e <= a
      invariant e == 0 || exists i :: 0 <= i < |zones| && e == End(zones[i])
      invariant forall i :: 0 <= i < k && End(zones[i]) <= a ==> End(zones[i]) <= e
    {
      if e < End(zones[k]) <= a {
        e := End(zones[k]);
      }
      k := k + 1;
    }
    forall i | 0 <= i < |zones|
      ensures Apart(zones[i], e, n)
    {
      assert Apart(zones[i], a, n);
    }
  }

  /** And slides up until its end meets the start of a zone or the end of user space. */
  lemma SlideUp(zones: seq<Zone>, a: int, n: int) returns (e: int)
    requires Fits(zones, a, n)
    ensures a + n <= e <= USER_END && Fits(zones, e - n, n)
    ensures e == USER_END || exists i :: 0 <= i < |zones| && e == zones[i].vaddr
  {
    e := USER_END;
    var k := 0;
    while k < |zones|
      invariant 0 <= k <= |zones| && a + n <= e <= USER_END
      invariant e == USER_END || exists i :: 0 <= i < |zones| && e == zones[i].vaddr
      invariant forall i :: 0 <= i < k && a + n <= zones[i].vaddr ==> e <= zones[i].vaddr
    {
      if a + n <= zones[k].vaddr < e {
        e := zones[k].vaddr;
      }
      k := k + 1;
    }
    forall i | 0 <= i < |zones|
      ensures Apart(zones[i], e - n, n)
    {
      assert Apart(zones[i], a, n);
    }
  }

  /** s is the lowest address at which n bytes fit. */
  ghost predicate Lowest(zones: seq<Zone>, s: int, n: int) {
    Fits(zones, s, n) && forall a :: Fits(zones, a, n) ==> s <= a
  }

  ghost predicate Highest(zones: seq<Zone>, s: int, n: int) {
    Fits(zones, s, n) && forall a :: Fits(zones, a, n) ==> a <= s
  }

  ghost predicate NoFit(zones: seq<Zone>, n: int) {
    forall a :: !Fits(zones, a, n)
  }

  /** Where a zone ends, as the program computes it. */
  function EndOf(z: Zone): (e: uint64)
    ensures ZoneOk(z) ==> e == End(z)
  {
    Wrap(z.vaddr + z.len)
  }

  /** s is the least end of the first zones at which the test succeeds, if any. */
  predicate FirstEnd(zones: seq<Zone>, n: uint64, count: nat, s: uint64)
    requires count <= |zones|
  {
    && s <= USER_HIGH
    && (forall i :: 0 <= i < count && Addable(zones, EndOf(zones[i]), n) ==> s <= EndOf(zones[i]))
    && (s == USER_HIGH || exists i :: 0 <= i < count && s == EndOf(zones[i]) && Addable(zones, s, n))
  }

  /** e is the greatest start of the first zones below which the test succeeds, if any. */
  predicate LastStart(zones: seq<Zone>, n: uint64, count: nat, e: uint64)
    requires count <= |zones|
  {
    && (forall i :: 0 <= i < count && Addable(zones, Wrap(zones[i].vaddr - n), n) ==> zones[i].vaddr <= e)
    && (e == 0 || exists i :: 0 <= i < count && e == zones[i].vaddr && Addable(zones, Wrap(e - n), n))
  }

  /** Where the forward search looks: at address 0 and behind every zone. */
  ghost predicate LowStop(zones: seq<Zone>, c: int) {
    c == 0 || (c < USER_HIGH && exists i :: 0 <= i < |zones| && c == End(zones[i]))
  }

  /** And the backward search: below the end of user space and every zone. */
  ghost predicate HighStop(zones: seq<Zone>, e: int) {
    e == USER_END || exists i :: 0 <= i < |zones| && e == zones[i].vaddr
  }

  /** The forward search answers s, or NULL for s == -1. */
  ghost predicate LowAnswer(zones: seq<Zone>, n: int, s: int) {
    if s == -1 then forall c :: LowStop(zones, c) ==> !Room(zones, c, n)
    else LowStop(zones, s) && Room(zones, s, n) && forall c :: LowStop(zones, c) && Room(zones, c, n) ==> s <= c
  }

  ghost predicate HighAnswer(zones: seq<Zone>, n: int, s: int) {
    if s == -1 then forall e :: HighStop(zones, e) ==> !Room(zones, e - n, n)
    else HighStop(zones, s + n) && Room(zones, s, n) && forall e :: HighStop(zones, e) && Room(zones, e - n, n) ==> e - n <= s
  }

  lemma {:induction false} LowestExists(zones: seq<Zone>, a: int, n: int) returns (e: int)
    requires Fits(zones, a, n)
    ensures Lowest(zones, e, n)
    decreases a
  {
    if b :| b < a && Fits(zones, b, n) {
      e := LowestExists(zones, b, n);
    } else {
      e := a;
    }
  }

  lemma {:induction false} HighestExists(zones: seq<Zone>, a: int, n: int) returns (e: int)
    requires Fits(zones, a, n) && n >= 0
    ensures Highest(zones, e, n)
    decreases USER_END - a
  {
    if b :| b > a && Fits(zones, b, n) {
      e := HighestExists(zones, b, n);
    } else {
      e := a;
    }
  }

  /** The search finds the lowest fit exactly when that touches no empty zone. */
  lemma LowAnswerIff(zones: seq<Zone>, n: int, s: int, e: int)
    requires n >= PAGE && LowAnswer(zones, n, s) && Lowest(zones, e, n)
    ensures s == e <==> !Touched(zones, e, n)
  {
    hide Touched;
    var stop := SlideDown(zones, e, n);
    assert stop == e && LowStop(zones, e);
  }

  lemma HighAnswerIff(zones: seq<Zone>, n: int, s: int, e: int)
    requires n >= PAGE && HighAnswer(zones, n, s) && Highest(zones, e, n)
    ensures s == e <==> !Touched(zones, e, n)
  {
    hide Touched;
    var stop := SlideUp(zones, e, n);
    assert stop == e + n && HighStop(zones, e + n);
  }

  /** The answer is right: the lowest fit, or NULL when nothing fits. */
  ghost predicate LowRight(zones: seq<Zone>, n: int, s: int) {
    if s == -1 then NoFit(zones, n) else Lowest(zones, s, n)
  }

  ghost predicate HighRight(zones: seq<Zone>, n: int, s: int) {
    if s == -1 then NoFit(zones, n) else Highest(zones, s, n)
  }

  /** It is right exactly when the lowest fit, if there is one, touches no empty zone. */
  lemma LowRightIff(zones: seq<Zone>, n: int, s: int)
    requires n >= PAGE && LowAnswer(zones, n, s)
    ensures LowRight(zones, n, s) <==> forall e :: Lowest(zones, e, n) ==> !Touched(zones, e, n)
  {
    hide Touched;
    forall e | Lowest(zones, e, n)
      ensures s == e <==> !Touched(zones, e, n)
    {
      LowAnswerIff(zones, n, s, e);
    }
    if a :| Fits(zones, a, n) {
      var e := LowestExists(zones, a, n);
    }
  }

  lemma HighRightIff(zones: seq<Zone>, n: int, s: int)
    requires n >= PAGE && HighAnswer(zones, n, s)
    ensures HighRight(zones, n, s) <==> forall e :: Highest(zones, e, n) ==> !Touched(zones, e, n)
  {
    hide Touched;
    forall e | Highest(zones, e, n)
      ensures s == e <==> !Touched(zones, e, n)
    {
      HighAnswerIff(zones, n, s, e);
    }
    if a :| Fits(zones, a, n) {
      var e := HighestExists(zones, a, n);
    }
  }

  /** With no empty zone the answer is always right, and NULL for nothing at all. */
  lemma LowNoneEmpty(zones: seq<Zone>, n: int, s: int)
    requires NoneEmpty(zones) && (n == 0 || n >= PAGE) && LowAnswer(zones, n, s)
    ensures n > 0 ==> LowRight(zones, n, s)
    ensures n == 0 ==> s == -1
  {
    hide Lowest, NoFit;
    if n > 0 {
      forall e
        ensures !Touched(zones, e, n)
      {
        NothingTouched(zones, e, n);
      }
      LowRightIff(zones, n, s);
    } else {
      forall i | 0 <= i < |zones|
        ensures Touched(zones, End(zones[i]), 0)
      {
        assert Touches(zones[i], End(zones[i]), 0);
      }
    }
  }

  lemma HighNoneEmpty(zones: seq<Zone>, n: int, s: int)
    requires NoneEmpty(zones) && n >= PAGE && HighAnswer(zones, n, s)
    ensures HighRight(zones, n, s)
  {
    hide Highest, NoFit;
    forall e
      ensures !Touched(zones, e, n)
    {
      NothingTouched(zones, e, n);
    }
    HighRightIff(zones, n, s);
  }

  /** The loop over the ends, after address 0 was refused, gives the search's answer. */
  lemma FirstEndIsAnswer(zones: seq<Zone>, n: uint64, s: uint64)
    requires ZonesOk(zones) && !Addable(zones, 0, n) && FirstEnd(zones, n, |zones|, s)
    ensures LowAnswer(zones, n, if s == USER_HIGH then -1 else s)
  {
    hide Addable, Room, Apart, ZoneOk;
    AddableIff(zones, 0, n);
    forall i | 0 <= i < |zones|
      ensures EndOf(zones[i]) == End(zones[i])
      ensures Addable(zones, EndOf(zones[i]), n) <==> Room(zones, End(zones[i]), n)
    {
      AddableIff(zones, EndOf(zones[i]), n);
    }
    if s != USER_HIGH {
      AddableIff(zones, s, n);
      RoomAhead(zones, s, n);
    }
  }

  lemma RoomAhead(zones: seq<Zone>, a: int, n: int)
    requires Room(zones, a, n)
    ensures 0 <= a && a + n <= USER_END
  {
  }

  lemma LastStartIsAnswer(zones: seq<Zone>, n: uint64, e: uint64)
    requires ZonesOk(zones) && !Addable(zones, Wrap(USER_END - n), n) && LastStart(zones, n, |zones|, e)
    ensures HighAnswer(zones, n, if e == 0 then -1 else e - n)
  {
    hide Addable, Room, Apart, ZoneOk, Wrap;
    BelowIff(zones, USER_END, n);
    forall i | 0 <= i < |zones|
      ensures Addable(zones, Wrap(zones[i].vaddr - n), n) <==> Room(zones, zones[i].vaddr - n, n)
    {
      InUserSpace(zones[i]);
      BelowIff(zones, zones[i].vaddr, n);
    }
    NoRoomAtZero(zones, n);
    if e != 0 {
      StartBelow(zones, n, e);
      BelowIff(zones, e, n);
    }
  }

  lemma InUserSpace(z: Zone)
    requires ZoneOk(z)
    ensures z.vaddr <= USER_END
  {
  }

  /** Just below e the test, wrapped around or not, is about the n bytes there. */
  lemma BelowIff(zones: seq<Zone>, e: int, n: uint64)
    requires ZonesOk(zones) && 0 <= e <= USER_END
    ensures Addable(zones, Wrap(e - n), n) <==> Room(zones, e - n, n)
  {
    hide Intersect, Apart, ZoneOk, Touches;
    WrapDown(e, n);
    AddableIff(zones, Wrap(e - n), n);
  }

  lemma NoRoomAtZero(zones: seq<Zone>, n: uint64)
    ensures !Room(zones, 0 - n, n)
  {
  }

  lemma StartBelow(zones: seq<Zone>, n: uint64, e: uint64)
    requires ZonesOk(zones) && e != 0 && LastStart(zones, n, |zones|, e)
    ensures Addable(zones, Wrap(e - n), n) && e >= n && Wrap(e - n) == e - n && e <= USER_END && e % PAGE == 0
  {
    var i :| 0 <= i < |zones| && e == zones[i].vaddr && Addable(zones, Wrap(e - n), n);
    assert ZoneOk(zones[i]);
    WrapDown(e, n);
    WrapRange(Wrap(e - n), n);
  }

  lemma EndFound(zones: seq<Zone>, n: uint64, s: uint64)
    requires ZonesOk(zones) && s != USER_HIGH && FirstEnd(zones, n, |zones|, s)
    ensures Addable(zones, s, n) && s % PAGE == 0
  {
    hide Addable, ZoneOk, EndOf, Apart;
    var i :| 0 <= i < |zones| && s == EndOf(zones[i]) && Addable(zones, s, n);
    EndAligned(zones[i]);
  }

  lemma EndAligned(z: Zone)
    requires ZoneOk(z)
    ensures EndOf(z) % PAGE == 0
  {
  }

  /** Asked for nothing at the end of user space, the test succeeds unless a zone ends
      there or an empty one lies at address 0: an empty zone comes into being. */
  lemma NothingAtEndIff(zones: seq<Zone>)
    requires ZonesOk(zones)
    ensures Addable(zones, USER_END, 0) <==>
            forall i :: 0 <= i < |zones| ==> if zones[i].len == 0 then zones[i].vaddr != 0 else End(zones[i]) != USER_END
  {
    hide Apart, Addable;
    AddableIff(zones, USER_END, 0);
    forall i | 0 <= i < |zones|
      ensures Touches(zones[i], USER_END, 0) <==> if zones[i].len == 0 then zones[i].vaddr == 0 else End(zones[i]) == USER_END
      ensures Apart(zones[i], USER_END, 0)
    {
      NothingAtEnd(zones[i]);
    }
  }

  lemma NothingAtEnd(z: Zone)
    requires ZoneOk(z)
    ensures Touches(z, USER_END, 0) <==> if z.len == 0 then z.vaddr == 0 else End(z) == USER_END
    ensures Apart(z, USER_END, 0)
  {
  }

  /** With no empty zone yet, a backward search for nothing makes one above user space, or
      finds a zone ending there. */
  lemma HighNothing(zones: seq<Zone>, s: int)
    requires ZonesOk(zones) && NoneEmpty(zones) && HighAnswer(zones, 0, s)
    ensures s == -1 <==> exists i :: 0 <= i < |zones| && End(zones[i]) == USER_END
    ensures s == -1 || s == USER_END
  {
    hide Apart, ZoneOk;
    NothingAtEndIff(zones);
    AddableIff(zones, USER_END, 0);
    assert HighStop(zones, USER_END);
    forall i | 0 <= i < |zones|
      ensures !Room(zones, zones[i].vaddr, 0)
    {
      assert Touches(zones[i], zones[i].vaddr, 0);
    }
  }

  /** An empty zone hides the space behind it: 32 KiB fit right there, yet the forward
      search answers NULL. */
  lemma EmptyZoneHidesSpace()
    ensures var zones := [Zone(0, 4096), Zone(0x8000, 0)];
      && ZonesOk(zones) && Lowest(zones, 0x8000, 0x8000) && !NoFit(zones, 0x8000)
      && LowAnswer(zones, 0x8000, -1) && forall s :: LowAnswer(zones, 0x8000, s) ==> s == -1
  {
    var zones := [Zone(0, 4096), Zone(0x8000, 0)];
    var y, z := zones[0], zones[1];
    forall a | Fits(zones, a, 0x8000)
      ensures 0x8000 <= a
    {
      assert Apart(y, a, 0x8000) && Apart(z, a, 0x8000);
    }
    forall c | LowStop(zones, c)
      ensures !Room(zones, c, 0x8000)
    {
      assert !Apart(y, 0, 0x8000) && Touches(z, 4096, 0x8000) && Touches(z, 0x8000, 0x8000);
    }
  }

  /** Adding a zone that fits keeps them all well placed. */
  lemma Added(zones: seq<Zone>, z: Zone)
    requires ZonesOk(zones) && Fits(zones, z.vaddr, z.len) && z.vaddr % PAGE == 0 && z.len % PAGE == 0
    ensures ZonesOk(zones + [z])
  {
  }

  lemma NoneEmptyWith(zones: seq<Zone>, z: Zone)
    ensures NoneEmpty(zones + [z]) <==> NoneEmpty(zones) && z.len > 0
  {
    var all := zones + [z];
    assert all[|zones|] == z && forall i :: 0 <= i < |zones| ==> all[i] == zones[i];
  }

  /** The first place either search tries is its best one. */
  lemma FirstTries(zones: seq<Zone>, n: uint64)
    ensures Room(zones, 0, n) ==> LowAnswer(zones, n, 0)
    ensures Room(zones, USER_END - n, n) ==> HighAnswer(zones, n, USER_END - n)
  {
    hide Apart, Touched;
    assert LowStop(zones, 0) && HighStop(zones, USER_END);
  }

  /** Going below address 0 wraps to where nothing fits. */
  lemma WrapDown(e: int, n: uint64)
    requires 0 <= e <= USER_END
    ensures e >= n ==> Wrap(e - n) == e - n
    ensures e < n ==> Wrap(e - n) + n >= SIZE_VALUES
  {
  }

  class AddressSpace {
    var zones: seq<Zone>

    predicate Valid()
      reads this
    {
      ZonesOk(zones)
    }

    constructor ()
      ensures Valid() && zones == []
    {
      zones := [];
    }

    /** _proc_can_add_zone */
    method CanAddZone(start: uint64, len: uint64) returns (ok: bool)
      ensures ok <==> Addable(zones, start, len)
    {
      if (start + len) % SIZE_VALUES < start || (start + len - 1) % SIZE_VALUES > USER_HIGH {
        return false;
      }
      for i := 0 to |zones|
        invariant forall k :: 0 <= k < i ==> !Intersect(start, len, zones[k].vaddr, zones[k].len)
      {
        if Intersect(start, len, zones[i].vaddr, zones[i].len) {
          return false;
        }
      }
      ok := true;
    }

    /** memzone_new: the new zone's index, or -1 for NULL. */
    method New(start: uint64, len: uint64) returns (r: int)
      requires Valid()
      modifies this
      ensures Valid()
      ensures var z := Wanted(start, len);
        if Addable(old(zones), z.vaddr, z.len) then r == |old(zones)| && zones == old(zones) + [z] else r == -1 && zones == old(zones)
      ensures r >= 0 ==> Fits(old(zones), Wanted(start, len).vaddr, Wanted(start, len).len)
      ensures NoneEmpty(old(zones)) ==> (NoneEmpty(zones) <==> r == -1 || Wanted(start, len).len > 0)
    {
      hide Intersect, Apart, Addable;
      var n: uint64 := (len + start % PAGE) % SIZE_VALUES;
      var at: uint64 := start - start % PAGE;
      if n % PAGE != 0 {
        n := (n + (PAGE - n % PAGE)) % SIZE_VALUES;
      }
      var z := Zone(at, n);
      assert z == Wanted(start, len);
      var ok := CanAddZone(at, n);
      if !ok {
        return -1;
      }
      AddableIff(zones, at, n);
      Added(zones, z);
      NoneEmptyWith(zones, z);
      zones := zones + [z];
      r := |zones| - 1;
    }

    /** memzone_new_random: the lowest address at which the length fits, exactly when that
        address touches no empty zone. */
    method NewRandom(len: uint64) returns (r: int)
      requires Valid()
      modifies this
      ensures Valid()
      ensures r == -1 ==> zones == old(zones)
      ensures r != -1 ==> r == |old(zones)| == |zones| - 1 && zones[..r] == old(zones)
                          && zones[r].len == RoundLen(len) && Fits(old(zones), zones[r].vaddr, RoundLen(len))
      ensures LowAnswer(old(zones), RoundLen(len), if r == -1 then -1 else zones[r].vaddr)
      ensures RoundLen(len) > 0 ==>
                forall e :: Lowest(old(zones), e, RoundLen(len)) ==>
                  ((r != -1 && zones[r].vaddr == e) <==> !Touched(old(zones), e, RoundLen(len)))
      ensures RoundLen(len) > 0 ==>
                (LowRight(old(zones), RoundLen(len), if r == -1 then -1 else zones[r].vaddr)
                 <==> forall e :: Lowest(old(zones), e, RoundLen(len)) ==> !Touched(old(zones), e, RoundLen(len)))
      ensures NoneEmpty(old(zones)) ==>
                && NoneEmpty(zones)
                && (r == -1 <==> RoundLen(len) == 0 || NoFit(old(zones), RoundLen(len)))
                && (r != -1 ==> Lowest(old(zones), zones[r].vaddr, RoundLen(len)))
    {
      hide Addable, Apart, ZoneOk, Wrap, Fits, Lowest, NoFit, Wanted, FirstEnd, EndOf, Room, Touched, LowAnswer, LowRight;
      var n := RoundLen(len);
      AddableIff(zones, 0, n);
      FirstTries(zones, n);
      r := New(0, n);
      if r >= 0 {
        LowFacts(old(zones), n, 0);
        return;
      }
      var minStart := FindEnd(n);
      FirstEndIsAnswer(zones, n, minStart);
      LowFacts(zones, n, if minStart == USER_HIGH then -1 else minStart);
      if minStart == USER_HIGH {
        return -1;
      }
      EndFound(zones, n, minStart);
      r := New(minStart, n);
    }

    /** The loop over the zone ends. */
    method FindEnd(n: uint64) returns (minStart: uint64)
      requires Valid()
      ensures FirstEnd(zones, n, |zones|, minStart)
    {
      hide Addable, Apart, ZoneOk, Wrap;
      minStart := USER_HIGH;
      for i := 0 to |zones|
        invariant FirstEnd(zones, n, i, minStart)
      {
        var ok := CanAddZone(EndOf(zones[i]), n);
        if ok && minStart > EndOf(zones[i]) {
          minStart := EndOf(zones[i]);
        }
      }
    }

    /** memzone_new_random_backward: the highest address at which the length fits, exactly
        when that address touches no empty zone. */
    method NewRandomBackward(len: uint64) returns (r: int)
      requires Valid()
      modifies this
      ensures Valid()
      ensures r == -1 ==> zones == old(zones)
      ensures r != -1 ==> r == |old(zones)| == |zones| - 1 && zones[..r] == old(zones)
                          && zones[r].len == RoundLen(len) && Fits(old(zones), zones[r].vaddr, RoundLen(len))
      ensures HighAnswer(old(zones), RoundLen(len), if r == -1 then -1 else zones[r].vaddr)
      ensures RoundLen(len) > 0 ==>
                forall e :: Highest(old(zones), e, RoundLen(len)) ==>
                  ((r != -1 && zones[r].vaddr == e) <==> !Touched(old(zones), e, RoundLen(len)))
      ensures RoundLen(len) > 0 ==>
                (HighRight(old(zones), RoundLen(len), if r == -1 then -1 else zones[r].vaddr)
                 <==> forall e :: Highest(old(zones), e, RoundLen(len)) ==> !Touched(old(zones), e, RoundLen(len)))
      ensures NoneEmpty(old(zones)) && RoundLen(len) > 0 ==>
                && NoneEmpty(zones)
                && (r == -1 <==> NoFit(old(zones), RoundLen(len)))
                && (r != -1 ==> Highest(old(zones), zones[r].vaddr, RoundLen(len)))
      ensures NoneEmpty(old(zones)) && RoundLen(len) == 0 ==>
                (NoneEmpty(zones) <==> r == -1) && (r == -1 <==> exists i :: 0 <= i < |old(zones)| && End(old(zones)[i]) == USER_END)
    {
      hide Addable, Apart, ZoneOk, Wrap, Fits, Highest, NoFit, Wanted, LastStart, Room, Touched, HighAnswer, HighRight, End;
      var n := RoundLen(len);
      var at := (USER_HIGH - n + 1) % SIZE_VALUES;
      AtEnd(n);
      BelowIff(zones, USER_END, n);
      FirstTries(zones, n);
      r := New(at, n);
      if r >= 0 {
        RoomAhead(old(zones), USER_END - n, n);
        HighFacts(old(zones), n, USER_END - n);
        return;
      }
      var maxEnd := FindStart(n);
      LastStartIsAnswer(zones, n, maxEnd);
      if maxEnd == 0 {
        HighFacts(zones, n, -1);
        return -1;
      }
      StartBelow(zones, n, maxEnd);
      HighFacts(zones, n, maxEnd - n);
      r := New(maxEnd - n, n);
    }

    /** The loop over the zone starts. */
    method FindStart(n: uint64) returns (maxEnd: uint64)
      requires Valid()
      ensures LastStart(zones, n, |zones|, maxEnd)
    {
      hide Addable, Apart, ZoneOk;
      maxEnd := 0;
      for i := 0 to |zones|
        invariant LastStart(zones, n, i, maxEnd)
      {
        var ok := CanAddZone((zones[i].vaddr - n) % SIZE_VALUES, n);
        if ok && maxEnd < zones[i].vaddr {
          maxEnd := zones[i].vaddr;
        }
      }
    }

    /** memzone_find: the index of the one zone that holds an address, or -1. */
    method Find(addr: uint64) returns (r: int)
      requires Valid()
      ensures r >= 0 ==> r < |zones| && zones[r].vaddr <= addr < End(zones[r])
                         && forall i :: 0 <= i < |zones| && zones[i].vaddr <= addr < End(zones[i]) ==> i == r
      ensures r < 0 ==> r == -1 && forall i :: 0 <= i < |zones| ==> !(zones[i].vaddr <= addr < End(zones[i]))
    {
      for i := 0 to |zones|
        invariant forall k :: 0 <= k < i ==> !(zones[k].vaddr <= addr < End(zones[k]))
      {
        assert ZoneOk(zones[i]);
        if zones[i].vaddr <= addr && addr < (zones[i].vaddr + zones[i].len) % SIZE_VALUES {
          assert forall k :: i < k < |zones| ==> Apart(zones[i], zones[k].vaddr, zones[k].len);
          return i;
        }
      }
      r := -1;
    }

    /** memzone_free of the zone at an index, which stands for its address: the last zone
        takes its place. */
    method Free(given: int) returns (r: int)
      requires Valid()
      modifies this
      ensures Valid()
      ensures NoneEmpty(old(zones)) ==> NoneEmpty(zones)
      ensures if 0 <= given < |old(zones)|
              then r == 0 && GaveWay(old(zones), zones, given)
              else r == -EALREADY && zones == old(zones)
    {
      for i := 0 to |zones|
        invariant zones == old(zones) && !(0 <= given < i)
      {
        if given == i {
          hide ZonesOk, NoneEmpty, GaveWay;
          Freed(zones, i);
          var last := |zones| - 1;
          zones := zones[i := zones[last]][last := zones[i]];
          zones := zones[..last];
          return 0;
        }
      }
      r := -EALREADY;
    }

    /** memzone_copy */
    method CopyFrom(from: AddressSpace)
      requires from != this && from.Valid()
      modifies this
      ensures zones == old(zones) + from.zones
      ensures old(zones) == [] ==> Valid() && zones == from.zones
    {
      for i := 0 to |from.zones|
        invariant zones == old(zones) + from.zones[..i] && from.zones == old(from.zones)
      {
        zones := zones + [from.zones[i]];
      }
    }
  }

  /** What an answer of the forward search means. */
  lemma LowFacts(zones: seq<Zone>, n: uint64, s: int)
    requires n % PAGE == 0 && LowAnswer(zones, n, s)
    ensures n > 0 ==> forall e :: Lowest(zones, e, n) ==> (s == e <==> !Touched(zones, e, n))
    ensures n > 0 ==> (LowRight(zones, n, s) <==> forall e :: Lowest(zones, e, n) ==> !Touched(zones, e, n))
    ensures n > 0 ==> forall e :: Lowest(zones, e, n) ==> e >= 0
    ensures NoneEmpty(zones) && n == 0 ==> s == -1
    ensures NoneEmpty(zones) && n > 0 ==> (s == -1 <==> NoFit(zones, n)) && (s != -1 ==> Lowest(zones, s, n))
  {
    hide Touched, Room, LowAnswer;
    if n > 0 {
      LowRightIff(zones, n, s);
      forall e | Lowest(zones, e, n)
        ensures s == e <==> !Touched(zones, e, n)
      {
        LowAnswerIff(zones, n, s, e);
      }
    }
    if NoneEmpty(zones) {
      LowNoneEmpty(zones, n, s);
    }
  }

  lemma HighFacts(zones: seq<Zone>, n: uint64, s: int)
    requires ZonesOk(zones) && n % PAGE == 0 && HighAnswer(zones, n, s)
    ensures n > 0 ==> forall e :: Highest(zones, e, n) ==> (s == e <==> !Touched(zones, e, n))
    ensures n > 0 ==> (HighRight(zones, n, s) <==> forall e :: Highest(zones, e, n) ==> !Touched(zones, e, n))
    ensures n > 0 ==> forall e :: Highest(zones, e, n) ==> e >= 0
    ensures NoneEmpty(zones) && n == 0 ==> (s == -1 <==> exists i :: 0 <= i < |zones| && End(zones[i]) == USER_END)
    ensures NoneEmpty(zones) && n > 0 ==> (s == -1 <==> NoFit(zones, n)) && (s != -1 ==> Highest(zones, s, n))
  {
    hide Touched, Room, HighAnswer, Apart, ZoneOk;
    if n > 0 {
      HighRightIff(zones, n, s);
      forall e | Highest(zones, e, n)
        ensures s == e <==> !Touched(zones, e, n)
      {
        HighAnswerIff(zones, n, s, e);
      }
      if NoneEmpty(zones) {
        HighNoneEmpty(zones, n, s);
      }
    } else if NoneEmpty(zones) {
      HighNothing(zones, s);
    }
  }

  /** Where the backward search begins: just below the end of user space. */
  lemma AtEnd(n: uint64)
    requires n % PAGE == 0
    ensures Wrap(USER_END - n) % PAGE == 0 && (USER_HIGH - n + 1) % SIZE_VALUES == Wrap(USER_END - n)
    ensures n <= USER_END ==> Wrap(USER_END - n) == USER_END - n
  {
  }

  /** The zones after the one at i gave way to the last. */
  function Without(zones: seq<Zone>, i: nat): seq<Zone>
    requires i < |zones|
  {
    var last := |zones| - 1;
    zones[i := zones[last]][last := zones[i]][..last]
  }

  /** Just the zone at i is gone; the last one took its place and the others kept theirs. */
  predicate GaveWay(was: seq<Zone>, now: seq<Zone>, i: nat)
    requires i < |was|
  {
    && multiset(now) == multiset(was) - multiset{was[i]}
    && |now| == |was| - 1
    && forall k :: 0 <= k < |now| ==> now[k] == was[if k == i then |now| else k]
  }

  lemma Freed(zones: seq<Zone>, i: nat)
    requires ZonesOk(zones) && i < |zones|
    ensures ZonesOk(Without(zones, i)) && GaveWay(zones, Without(zones, i), i)
    ensures NoneEmpty(zones) ==> NoneEmpty(Without(zones, i))
  {
    hide Apart, ZoneOk;
    var rest, last := Without(zones, i), |zones| - 1;
    FreedBag(zones, i);
    forall j, k | 0 <= j < k < |rest|
      ensures Apart(rest[j], rest[k].vaddr, rest[k].len)
    {
      var j', k' := if j == i then last else j, if k == i then last else k;
      assert rest[j] == zones[j'] && rest[k] == zones[k'];
      ApartSymmetric(zones[j'], zones[k']);
      if j' < k' {
        assert Apart(zones[j'], zones[k'].vaddr, zones[k'].len);
      } else {
        assert Apart(zones[k'], zones[j'].vaddr, zones[j'].len);
      }
    }
    forall j | 0 <= j < |rest|
      ensures ZoneOk(rest[j]) && (NoneEmpty(zones) ==> rest[j].len > 0)
    {
      assert rest[j] == zones[if j == i then last else j];
    }
  }

  lemma ApartSymmetric(y: Zone, z: Zone)
    ensures Apart(y, z.vaddr, z.len) <==> Apart(z, y.vaddr, y.len)
  {
  }

  lemma FreedBag(zones: seq<Zone>, i: nat)
    requires i < |zones|
    ensures multiset(Without(zones, i)) == multiset(zones) - multiset{zones[i]}
  {
    var last := |zones| - 1;
    var x := zones[i];
    if i == last {
      assert Without(zones, i) == zones[..last];
      BagSnoc(zones[..last], x, zones);
    } else {
      var a, b, y := zones[..i], zones[i + 1..last], zones[last];
      assert Without(zones, i) == a + [y] + b;
      BagSwap(a, x, b, y, zones);
    }
  }

  lemma BagSnoc<T>(a: seq<T>, x: T, s: seq<T>)
    requires |s| == |a| + 1 && s[..|a|] == a && s[|a|] == x
    ensures multiset(a) == multiset(s) - multiset{x}
  {
    assert s == a + [x];
  }

  lemma BagSwap<T>(a: seq<T>, x: T, b: seq<T>, y: T, s: seq<T>)
    requires |s| == |a| + 1 + |b| + 1 && s[..|a|] == a && s[|a|] == x
    requires s[|a| + 1..|s| - 1] == b && s[|s| - 1] == y
    ensures multiset(a + [y] + b) == multiset(s) - multiset{x}
  {
    assert s == (a + [x]) + (b + [y]);
    Bag2(a, x);
    Bag2(b, y);
    Bag2(a, y);
  }

  lemma Bag2<T>(a: seq<T>, x: T)
    ensures multiset(a + [x]) == multiset(a) + multiset{x}
  {
  }
}
