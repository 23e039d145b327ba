/** qsort, with any comparison function that orders the elements. */
module Qsort {

  /** compar(x, y) < 0 */
  predicate Less<T>(compar: (T, T) -> int, x: T, y: T) {
    compar(x, y) < 0
  }

  lemma LessIs<T>(compar: (T, T) -> int, x: T, y: T)
    ensures Less(compar, x, y) <==> compar(x, y) < 0
  {
  }

  /** The comparison is consistent: a strict order whose incomparability is transitive. */
  ghost predicate Orders<T(!new)>(compar: (T, T) -> int) {
    && (forall x, y :: Less(compar, x, y) ==> !Less(compar, y, x))
    && forall x, y, z :: !Less(compar, y, x) && !Less(compar, z, y) ==> !Less(compar, z, x)
  }

  predicate Sorted<T>(compar: (T, T) -> int, s: seq<T>) {
    forall i, j :: 0 <= i < j < |s| ==> !Less(compar, s[j], s[i])
  }

  /** t is s, sorted. */
  ghost predicate Rearranged<T>(compar: (T, T) -> int, s: seq<T>, t: seq<T>) {
    Sorted(compar, t) && multiset(t) == multiset(s)
  }

  predicate AllBelow<T>(compar: (T, T) -> int, s: seq<T>, pivot: T) {
    forall i :: 0 <= i < |s| ==> Less(compar, s[i], pivot)
  }

  predicate NoneBelow<T>(compar: (T, T) -> int, s: seq<T>, pivot: T) {
    forall i :: 0 <= i < |s| ==> !Less(compar, s[i], pivot)
  }

  lemma SameElements<T>(s: seq<T>, t: seq<T>, x: T)
    requires multiset(s) == multiset(t)
    ensures x in s <==> x in t
  {
    assert x in multiset(s) <==> x in multiset(t);
  }

  /** Being on one side of the pivot survives rearranging. */
  lemma SidesKept<T>(compar: (T, T) -> int, s: seq<T>, t: seq<T>, pivot: T)
    requires multiset(s) == multiset(t)
    ensures AllBelow(compar, s, pivot) ==> AllBelow(compar, t, pivot)
    ensures NoneBelow(compar, s, pivot) ==> NoneBelow(compar, t, pivot)
  {
    forall i | 0 <= i < |t|
      ensures t[i] in s
    {
      SameElements(s, t, t[i]);
    }
  }

  /** Two sorted sides and the pivot between them are sorted together. */
  lemma Joined<T(!new)>(compar: (T, T) -> int, s: seq<T>, pivot: T, t: seq<T>)
    requires Orders(compar) && Sorted(compar, s) && Sorted(compar, t)
    requires AllBelow(compar, s, pivot) && NoneBelow(compar, t, pivot)
    ensures Sorted(compar, s + [pivot] + t)
  {
    var all := s + [pivot] + t;
    forall i, j | 0 <= i < j < |all|
      ensures !Less(compar, all[j], all[i])
    {
      if i < |s| {
        assert Less(compar, all[i], pivot) && !Less(compar, pivot, all[i]);
      }
      if j > |s| {
        assert !Less(compar, t[j - |s| - 1], pivot);
      }
    }
  }

  /** The elements before l and after r are the same in both. */
  ghost predicate SameOutside<T>(s: seq<T>, t: seq<T>, l: int, r: int) {
    && |s| == |t| && forall i :: 0 <= i < |s| && (i < l || r < i) ==> s[i] == t[i]
  }

  function Swapped<T>(s: seq<T>, i: nat, j: nat): (t: seq<T>)
    requires i < |s| && j < |s|
    ensures |t| == |s|
  {
    s[i := s[j]][j := s[i]]
  }

  lemma SwapBag<T>(s: seq<T>, i: nat, j: nat)
    requires i < |s| && j < |s|
    ensures multiset(Swapped(s, i, j)) == multiset(s)
  {
  }

  method Swap<T>(a: array<T>, i: nat, j: nat)
    requires i < a.Length && j < a.Length
    modifies a
    ensures a[..] == Swapped(old(a[..]), i, j)
  {
    a[i], a[j] := a[j], a[i];
  }

  /** The loop around the last element: smaller ones to the front, then it goes between. */
  method Partition<T>(a: array<T>, compar: (T, T) -> int, l: nat, r: nat) returns (m: nat)
    requires l < r < a.Length
    modifies a
    ensures l <= m <= r && a[m] == old(a[r])
    ensures multiset(a[..]) == multiset(old(a[..])) && SameOutside(old(a[..]), a[..], l, r)
    ensures AllBelow(compar, a[l..m], a[m])
    ensures NoneBelow(compar, a[m + 1..r + 1], a[m])
  {
    hide Less, AllBelow, NoneBelow, SameOutside, Parting, Swapped;
    var lm: int := (l as int) - 1;
    ghost var was := a[..];
    Begun(compar, was, l, r);
    for rm := l to r
      invariant l - 1 <= lm < rm && multiset(a[..]) == multiset(was)
      invariant Parting(compar, was, a[..], l, lm + 1, rm, r)
    {
      ghost var s := a[..];
      Kept(compar, was, s, l, lm + 1, rm, r);
      LessIs(compar, a[rm], a[r]);
      if compar(a[rm], a[r]) < 0 {
        lm := lm + 1;
        SwapBag(s, lm, rm);
        Swap(a, lm, rm);
      }
    }
    ghost var s := a[..];
    m := lm + 1;
    Swap(a, m, r);
    SwapBag(s, m, r);
    Finished(compar, was, s, l, m, r);
    ghost var t := a[..];
    assert a[m] == t[m];
    assert a[l..m] == t[l..m] && a[m + 1..r + 1] == t[m + 1..r + 1];
  }

  /** Before rm: the elements of l..k are below the last one, those of k..rm are not. */
  ghost predicate Parting<T>(compar: (T, T) -> int, was: seq<T>, s: seq<T>, l: nat, k: nat, rm: nat, r: nat) {
    && l <= k <= rm <= r < |s| == |was|
    && SameOutside(was, s, l, r) && s[r] == was[r]
    && (forall i :: l <= i < k ==> Less(compar, s[i], s[r]))
    && forall i :: k <= i < rm ==> !Less(compar, s[i], s[r])
  }

  lemma Begun<T>(compar: (T, T) -> int, s: seq<T>, l: nat, r: nat)
    requires l < r < |s|
    ensures Parting(compar, s, s, l, l, l, r)
  {
  }

  lemma Kept<T>(compar: (T, T) -> int, was: seq<T>, s: seq<T>, l: nat, k: nat, rm: nat, r: nat)
    requires Parting(compar, was, s, l, k, rm, r) && rm < r
    ensures k <= rm < |s|
    ensures !Less(compar, s[rm], s[r]) ==> Parting(compar, was, s, l, k, rm + 1, r)
    ensures Less(compar, s[rm], s[r]) ==> Parting(compar, was, Swapped(s, k, rm), l, k + 1, rm + 1, r)
  {
    hide Less;
  }

  lemma Finished<T>(compar: (T, T) -> int, was: seq<T>, s: seq<T>, l: nat, m: nat, r: nat)
    requires Parting(compar, was, s, l, m, r, r)
    ensures m <= r < |s|
    ensures var t := Swapped(s, m, r);
      && SameOutside(was, t, l, r) && t[m] == was[r] && AllBelow(compar, t[l..m], t[m])
      && NoneBelow(compar, t[m + 1..r + 1], t[m])
  {
    hide Less;
    var t := Swapped(s, m, r);
    assert m < r ==> !Less(compar, s[m], s[r]);
    var after := t[m + 1..r + 1];
    forall i | 0 <= i < |after|
      ensures !Less(compar, after[i], t[m])
    {
      assert after[i] == t[m + 1 + i];
    }
  }

  /** __qsortimpl */
  method Qsortimpl<T(!new)>(a: array<T>, compar: (T, T) -> int, l: int, r: int)
    requires Orders(compar) && 0 <= l && -1 <= r < a.Length && l <= r + 2
    modifies a
    ensures l <= r ==> Rearranged(compar, old(a[l..r + 1]), a[l..r + 1])
    ensures SameOutside(old(a[..]), a[..], l, r)
    decreases r - l + 2
  {
    hide Sorted, AllBelow, NoneBelow, Orders, SameOutside, Less;
    ghost var was := a[..];
    if l >= r {
      Trivial(compar, was, l, r);
      return;
    }
    var m := Partition(a, compar, l, r);
    ghost var parted := a[..];
    RangeBag(was, parted, l, r);
    Qsortimpl(a, compar, l, (m as int) - 1);
    ghost var half := a[..];
    Qsortimpl(a, compar, m + 1, r);
    Combined(compar, parted, half, a[..], l, m, r);
    ThenOutside(was, parted, half, a[..], l, m, r);
  }

  lemma Trivial<T>(compar: (T, T) -> int, s: seq<T>, l: int, r: int)
    requires 0 <= l && -1 <= r < |s| && l >= r && l <= r + 2
    ensures l <= r ==> Sorted(compar, s[l..r + 1])
    ensures SameOutside(s, s, l, r)
  {
  }

  /** Rearranging the whole and leaving the outside alone rearranges the range. */
  lemma RangeBag<T>(s: seq<T>, t: seq<T>, l: nat, r: nat)
    requires l <= r < |s| && multiset(s) == multiset(t) && SameOutside(s, t, l, r)
    ensures multiset(s[l..r + 1]) == multiset(t[l..r + 1])
  {
    var a, b := s[..l], s[r + 1..];
    assert t[..l] == a && t[r + 1..] == b;
    Parts(s, a, s[l..r + 1], b);
    Parts(t, a, t[l..r + 1], b);
  }

  lemma Parts<T>(s: seq<T>, a: seq<T>, mid: seq<T>, b: seq<T>)
    requires |a| + |mid| + |b| == |s| && a == s[..|a|] && mid == s[|a|..|a| + |mid|] && b == s[|a| + |mid|..]
    ensures multiset(mid) == multiset(s) - multiset(a) - multiset(b)
  {
    assert s == a + mid + b;
  }

  /** One side of the pivot was sorted, then the other. */
  lemma Combined<T(!new)>(compar: (T, T) -> int, parted: seq<T>, half: seq<T>, done: seq<T>, l: nat, m: nat, r: nat)
    requires Orders(compar) && l <= m <= r < |parted|
    requires SameOutside(parted, half, l, m - 1) && SameOutside(half, done, m + 1, r)
    requires l <= m - 1 ==> Rearranged(compar, parted[l..m], half[l..m])
    requires m + 1 <= r ==> Rearranged(compar, half[m + 1..r + 1], done[m + 1..r + 1])
    requires AllBelow(compar, parted[l..m], parted[m]) && NoneBelow(compar, parted[m + 1..r + 1], parted[m])
    ensures Rearranged(compar, parted[l..r + 1], done[l..r + 1])
  {
    hide Less, Orders, Sorted, AllBelow, NoneBelow, SameOutside, Rearranged;
    SliceOutside(parted, half, l, m - 1, m, m + 1);
    SliceOutside(parted, half, l, m - 1, m + 1, r + 1);
    SliceOutside(half, done, m + 1, r, l, m);
    SliceOutside(half, done, m + 1, r, m, m + 1);
    Pieces(parted, l, m, r);
    Pieces(done, l, m, r);
    Rejoined(compar, parted[l..m], done[l..m], parted[m..m + 1], parted[m + 1..r + 1], done[m + 1..r + 1]);
  }

  lemma Pieces<T>(s: seq<T>, l: nat, m: nat, r: nat)
    requires l <= m <= r < |s|
    ensures s[l..r + 1] == s[l..m] + s[m..m + 1] + s[m + 1..r + 1] && s[m..m + 1] == [s[m]]
    ensures |s[l..m]| == m - l && |s[m + 1..r + 1]| == r - m
  {
  }

  /** Two sides and a pivot before and after the sides were sorted. */
  lemma Rejoined<T(!new)>(compar: (T, T) -> int, a: seq<T>, left: seq<T>, pivot: seq<T>, b: seq<T>, right: seq<T>)
    requires Orders(compar) && |a| == |left| && |b| == |right| && |pivot| == 1
    requires a != [] ==> Rearranged(compar, a, left)
    requires b != [] ==> Rearranged(compar, b, right)
    requires AllBelow(compar, a, pivot[0]) && NoneBelow(compar, b, pivot[0])
    ensures Rearranged(compar, a + pivot + b, left + pivot + right)
  {
    hide Less, Orders, Sorted, AllBelow, NoneBelow;
    EmptySorted(compar, left);
    EmptySorted(compar, right);
    SidesKept(compar, a, left, pivot[0]);
    SidesKept(compar, b, right, pivot[0]);
    Joined(compar, left, pivot[0], right);
    assert pivot == [pivot[0]];
  }

  lemma SliceOutside<T>(s: seq<T>, t: seq<T>, l: int, r: int, i: nat, j: nat)
    requires SameOutside(s, t, l, r) && i <= j <= |s| && (j <= l || r < i)
    ensures |t| == |s| && s[i..j] == t[i..j]
  {
  }

  lemma EmptySorted<T>(compar: (T, T) -> int, s: seq<T>)
    ensures s == [] ==> Sorted(compar, s)
  {
  }

  lemma ThenOutside<T>(was: seq<T>, parted: seq<T>, half: seq<T>, done: seq<T>, l: nat, m: nat, r: nat)
    requires l <= m <= r < |was| && SameOutside(was, parted, l, r)
    requires SameOutside(parted, half, l, m - 1) && SameOutside(half, done, m + 1, r)
    ensures SameOutside(was, done, l, r)
  {
  }

  /** qsort: the array is sorted, and holds the elements it held. */
  method Qsort<T(!new)>(a: array<T>, compar: (T, T) -> int)
    requires Orders(compar)
    modifies a
    ensures Sorted(compar, a[..]) && multiset(a[..]) == multiset(old(a[..]))
  {
    Qsortimpl(a, compar, 0, a.Length - 1);
    if a.Length > 0 {
      assert a[0..a.Length] == a[..] && old(a[0..a.Length]) == old(a[..]);
    }
  }
}
