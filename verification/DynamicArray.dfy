/** A growing array kept in a list of buckets, each twice as large as the one before. */
module DynamicArray {

  class Bucket<T> {
    const capacity: nat
    var data: seq<T>
    var next: Bucket?<T>
    var size: nat

    constructor (n: nat, blank: T)
      ensures next == null && size == 0 && capacity == n && |data| == n
    {
      capacity := n;
      data := seq(n, _ => blank);
      next := null;
      size := 0;
    }
  }

  /** The index of the first element of bucket k. */
  ghost function Off<T>(bs: seq<Bucket<T>>, k: nat): nat
    requires k <= |bs|
  {
    if k == 0 then 0 else Off(bs, k - 1) + bs[k - 1].capacity
  }

  lemma OffNone<T>(bs: seq<Bucket<T>>)
    ensures Off(bs, 0) == 0
  {
  }

  lemma {:induction false} OffExtended<T>(bs: seq<Bucket<T>>, more: seq<Bucket<T>>, k: nat)
    requires k <= |bs|
    ensures Off(bs + more, k) == Off(bs, k)
  {
    if k > 0 {
      OffExtended(bs, more, k - 1);
    }
  }

  lemma {:induction false} OffMonotone<T>(bs: seq<Bucket<T>>, k: nat, l: nat)
    requires k <= l <= |bs|
    ensures Off(bs, k) <= Off(bs, l)
  {
    if k < l {
      OffMonotone(bs, k, l - 1);
    }
  }

  /** Element i of the array lives in slot j of bucket k. */
  ghost predicate Place<T>(bs: seq<Bucket<T>>, i: nat, k: nat, j: nat) {
    k < |bs| && j < bs[k].capacity && Off(bs, k) + j == i
  }

  lemma SlotsDiffer<T>(bs: seq<Bucket<T>>, i: nat, k: nat, j: nat, i': nat, k': nat, j': nat)
    requires Place(bs, i, k, j) && Place(bs, i', k', j') && (k != k' || j != j')
    ensures i != i'
  {
    if k < k' {
      OffMonotone(bs, k + 1, k');
      assert Off(bs, k + 1) == Off(bs, k) + bs[k].capacity;
    } else if k' < k {
      OffMonotone(bs, k' + 1, k);
      assert Off(bs, k' + 1) == Off(bs, k') + bs[k'].capacity;
    }
  }

  /** An index has one place, and it stays there however many buckets are added. */
  lemma PlaceStable<T>(bs: seq<Bucket<T>>, more: seq<Bucket<T>>, i: nat, k: nat, j: nat, k': nat, j': nat)
    requires Place(bs, i, k, j) && Place(bs + more, i, k', j')
    ensures k == k' && j == j' && (bs + more)[k'] == bs[k]
  {
    OffExtended(bs, more, k);
    if k != k' || j != j' {
      SlotsDiffer(bs + more, i, k, j, i, k', j');
    }
  }

  /** How many of n elements a bucket holds that begins at off. */
  function Held(n: nat, off: nat, capacity: nat): nat {
    if n <= off then 0 else if n - off < capacity then n - off else capacity
  }

  /** One more element makes exactly the bucket of its place hold one more. */
  lemma HeldGrows<T>(bs: seq<Bucket<T>>, n: nat, k: nat, j: nat)
    requires Place(bs, n, k, j)
    ensures j == Held(n, Off(bs, k), bs[k].capacity)
    ensures forall l :: 0 <= l < |bs| ==>
              Held(n + 1, Off(bs, l), bs[l].capacity) == Held(n, Off(bs, l), bs[l].capacity) + if l == k then 1 else 0
  {
    hide Off, Held;
    HeldGrowsAt(bs, n, k, j, k);
    forall l | 0 <= l < |bs|
      ensures Held(n + 1, Off(bs, l), bs[l].capacity) == Held(n, Off(bs, l), bs[l].capacity) + if l == k then 1 else 0
    {
      HeldGrowsAt(bs, n, k, j, l);
    }
  }

  lemma HeldGrowsAt<T>(bs: seq<Bucket<T>>, n: nat, k: nat, j: nat, l: nat)
    requires Place(bs, n, k, j) && l < |bs|
    ensures j == Held(n, Off(bs, k), bs[k].capacity)
    ensures Held(n + 1, Off(bs, l), bs[l].capacity) == Held(n, Off(bs, l), bs[l].capacity) + if l == k then 1 else 0
  {
    assert Off(bs, l + 1) == Off(bs, l) + bs[l].capacity;
    assert Off(bs, k + 1) == Off(bs, k) + bs[k].capacity;
    hide Off;
    if l < k {
      OffMonotone(bs, l + 1, k);
    } else if k < l {
      OffMonotone(bs, k + 1, l);
    }
  }

  /** A slot in use holds its element. */
  ghost predicate SlotOk<T>(d: seq<T>, contents: seq<T>, off: nat, j: nat)
    requires j < |d|
  {
    off + j < |contents| ==> d[j] == contents[off + j]
  }

  ghost predicate SlotsOk<T>(d: seq<T>, contents: seq<T>, off: nat) {
    forall j :: 0 <= j < |d| ==> SlotOk(d, contents, off, j)
  }

  /** Both sequences have the same elements but for index i. */
  ghost predicate AgreeBut<T>(was: seq<T>, now: seq<T>, i: nat) {
    forall m :: 0 <= m < |now| && m != i ==> m < |was| && now[m] == was[m]
  }

  /** The slots of another bucket do not see a change at index i. */
  lemma OtherSlots<T>(bs: seq<Bucket<T>>, d: seq<T>, was: seq<T>, now: seq<T>, i: nat, k: nat, j: nat, l: nat)
    requires Place(bs, i, k, j) && l < |bs| && l != k && |d| == bs[l].capacity
    requires AgreeBut(was, now, i) && SlotsOk(d, was, Off(bs, l))
    ensures SlotsOk(d, now, Off(bs, l))
  {
    forall m | 0 <= m < |d|
      ensures SlotOk(d, now, Off(bs, l), m)
    {
      assert SlotOk(d, was, Off(bs, l), m);
      SlotsDiffer(bs, i, k, j, Off(bs, l) + m, l, m);
    }
  }

  /** The bucket of index i after the store into its slot. */
  lemma OwnSlots<T>(d: seq<T>, was: seq<T>, now: seq<T>, i: nat, off: nat, j: nat, x: T)
    requires j < |d| && off + j == i && AgreeBut(was, now, i) && (i < |now| ==> now[i] == x)
    requires SlotsOk(d, was, off)
    ensures SlotsOk(d[j := x], now, off)
  {
    var d' := d[j := x];
    forall m | 0 <= m < |d'|
      ensures SlotOk(d', now, off, m)
    {
      assert SlotOk(d, was, off, m);
    }
  }

  lemma FewerSlots<T>(d: seq<T>, was: seq<T>, n: nat, off: nat)
    requires n <= |was| && SlotsOk(d, was, off)
    ensures SlotsOk(d, was[..n], off)
  {
    forall m | 0 <= m < |d|
      ensures SlotOk(d, was[..n], off, m)
    {
      assert SlotOk(d, was, off, m);
    }
  }

  /** A new last bucket begins where the others end, and holds nothing yet. */
  lemma NewBucket<T>(bs: seq<Bucket<T>>, b: Bucket<T>, contents: seq<T>, d: seq<T>)
    requires bs != [] && bs[|bs| - 1] == b && |contents| <= Off(bs, |bs| - 1)
    ensures Off(bs, |bs|) == Off(bs, |bs| - 1) + b.capacity
    ensures Held(|contents|, Off(bs, |bs| - 1), b.capacity) == 0 && SlotsOk(d, contents, Off(bs, |bs| - 1))
  {
  }

  class DynArray<T> {
    const blank: T                   // what fresh memory holds
    var head: Bucket?<T>
    var tail: Bucket?<T>
    var size: nat
    ghost var buckets: seq<Bucket<T>>
    ghost var contents: seq<T>

    /** Bucket k points to the next one, and is twice as large as the one before. */
    ghost predicate Linked(k: nat)
      requires k < |buckets|
      reads this, buckets
    {
      && |buckets[k].data| == buckets[k].capacity && (k > 0 ==> buckets[k].capacity == 2 * buckets[k - 1].capacity)
      && buckets[k].next == if k + 1 < |buckets| then buckets[k + 1] else null
    }

    /** The list of buckets. */
    ghost predicate Chain()
      reads this, buckets
    {
      && (forall k :: 0 <= k < |buckets| ==> Linked(k))
      && (forall k, l :: 0 <= k < l < |buckets| ==> buckets[k] != buckets[l])
      && head == (if buckets == [] then null else buckets[0])
      && tail == (if buckets == [] then null else buckets[|buckets| - 1])
    }

    /** Bucket k counts and holds the elements that fall into it. */
    ghost predicate Filled(k: nat)
      requires k < |buckets|
      reads this, buckets
    {
      var b, off := buckets[k], Off(buckets, k);
      && |b.data| == b.capacity
      && b.size == Held(|contents|, off, b.capacity)
      && SlotsOk(b.data, contents, off)
    }

    ghost predicate Valid()
      reads this, buckets
    {
      && Chain()
      && size == |contents| <= Off(buckets, |buckets|)
      && forall k :: 0 <= k < |buckets| ==> Filled(k)
    }

    /** dynarr_init_of_size */
    constructor (capacity: nat, fill: T)
      ensures Valid() && contents == []
      ensures |buckets| == 1 && buckets[0].capacity == capacity && fresh(buckets[0])
    {
      var b := new Bucket<T>(capacity, fill);
      blank := fill;
      head, tail, size := b, b, 0;
      buckets, contents := [b], [];
      new;
      assert Off(buckets, 1) == Off(buckets, 0) + capacity;
    }

    /** _dynarr_bucket: the bucket an index falls into, or NULL past the last one. */
    method FindBucket(index: nat) returns (b: Bucket?<T>, inside: nat, ghost k: nat)
      requires Chain()
      ensures b == null <==> index >= Off(buckets, |buckets|)
      ensures b != null ==> Place(buckets, index, k, inside) && b == buckets[k]
    {
      if head == null {
        return null, 0, 0;
      }
      var bucket: Bucket<T> := head;
      var cur := bucket.capacity;
      inside := index;
      k := 0;
      while cur <= index
        invariant k < |buckets| && bucket == buckets[k]
        invariant cur == Off(buckets, k + 1) && index == Off(buckets, k) + inside
        decreases |buckets| - k
      {
        assert Linked(k);
        inside := inside - bucket.capacity;
        if bucket.next == null {
          return null, 0, 0;
        }
        bucket := bucket.next;
        k := k + 1;
        cur := cur + bucket.capacity;
      }
      b := bucket;
      OffMonotone(buckets, k + 1, |buckets|);
    }

    /** _dynarr_grow: another bucket, of twice the last one's capacity. */
    method Grow()
      requires Valid()
      modifies this, buckets
      ensures Valid() && contents == old(contents)
      ensures |buckets| == |old(buckets)| + 1 && buckets[..|old(buckets)|] == old(buckets) && fresh(buckets[|old(buckets)|])
      ensures buckets[|old(buckets)|].capacity == if old(buckets) == [] then 8 else 2 * old(buckets)[|old(buckets)| - 1].capacity
      ensures size < Off(buckets, |buckets|) || buckets[|old(buckets)|].capacity == 0
    {
      hide Off, Held, SlotsOk;
      ghost var was := buckets;
      var cap := 8;
      if tail != null {
        assert Linked(|buckets| - 1);
        cap := tail.capacity * 2;
      }
      var b := new Bucket<T>(cap, blank);
      assert forall k :: 0 <= k < |was| ==> old(Linked(k)) && old(Filled(k));
      assert forall k, l :: 0 <= k < l < |was| ==> was[k] != was[l];
      if tail != null {
        tail.next := b;
        tail := b;
      } else {
        head, tail := b, b;
      }
      buckets := was + [b];
      forall k | 0 <= k <= |was|
        ensures Off(buckets, k) == Off(was, k)
      {
        OffExtended(was, [b], k);
      }
      NewBucket(buckets, b, contents, b.data);
      forall k | 0 <= k < |buckets|
        ensures Linked(k) && Filled(k)
      {
        if k < |was| {
          assert old(Linked(k)) && old(Filled(k));
        }
      }
    }

    /** dynarr_push: a bucket is added exactly when there is no slot left. The assertion that there is a bucket fails exactly when the last one
        was made without any room, as all after it then are. */
    method Push(x: T) returns (b: Bucket?<T>, j: nat)
      requires Valid()
      modifies this, buckets
      ensures Valid()
      ensures b == null <==> old(buckets) != [] && old(buckets)[|old(buckets)| - 1].capacity == 0
      ensures contents == if b == null then old(contents) else old(contents) + [x]
      ensures |buckets| == |old(buckets)| + (if |old(contents)| < old(Off(buckets, |buckets|)) then 0 else 1)
      ensures buckets[..|old(buckets)|] == old(buckets)
      ensures |buckets| > |old(buckets)| ==>
                buckets[|old(buckets)|].capacity == if old(buckets) == [] then 8 else 2 * old(buckets)[|old(buckets)| - 1].capacity
      ensures forall k :: |old(buckets)| <= k < |buckets| ==> fresh(buckets[k])
      ensures b != null ==> exists k: nat :: Place(buckets, |old(contents)|, k, j) && b == buckets[k]
      ensures b != null ==> j < |b.data| && b.data[j] == x
    {
      hide Off, Held, SlotsOk;
      OffNone(buckets);
      if tail == null || tail.size >= tail.capacity {
        if tail != null {
          TailRoom();
        }
        Grow();
      } else {
        TailRoom();
      }
      TailAfter();
      if tail.capacity == 0 {
        NoRoom();
      }
      ghost var k;
      b, j, k := FindBucket(size);
      if b != null {
        b, j := Append(x);
      }
    }

    /** A last bucket without room means no room anywhere. */
    lemma NoRoom()
      requires Valid() && tail != null && tail.capacity == 0
      ensures Off(buckets, |buckets|) == 0 && size == 0
    {
      NoCapacity(|buckets| - 1);
    }

    lemma {:induction false} NoCapacity(k: nat)
      requires Chain() && k < |buckets| && buckets[k].capacity == 0
      ensures Off(buckets, k + 1) == 0
    {
      assert Linked(k);
      if k > 0 {
        NoCapacity(k - 1);
      }
    }

    lemma TailAfter()
      requires Valid() && tail != null
      ensures tail == buckets[|buckets| - 1]
    {
    }

    /** There is room exactly if the tail bucket has some. */
    lemma TailRoom()
      requires Valid() && tail != null
      ensures tail.size < tail.capacity <==> size < Off(buckets, |buckets|)
    {
      var k := |buckets| - 1;
      if tail.capacity == 0 {
        NoRoom();
      }
      assert Filled(k);
      assert Off(buckets, k + 1) == Off(buckets, k) + buckets[k].capacity;
    }

    /** The new element goes to the first unused slot, wherever that is. */
    method Append(x: T) returns (b: Bucket<T>, j: nat)
      requires Valid() && size < Off(buckets, |buckets|)
      modifies this, buckets
      ensures Valid() && contents == old(contents) + [x] && buckets == old(buckets)
      ensures exists k: nat :: Place(buckets, |old(contents)|, k, j) && b == buckets[k]
      ensures j < |b.data| && b.data[j] == x
    {
      hide Off, Held, SlotsOk;
      ghost var k;
      var target;
      target, j, k := FindBucket(size);
      b := target;
      HeldGrows(buckets, size, k, j);
      assert Linked(k) && Filled(k);
      ghost var was := contents;
      OwnSlots(b.data, was, was + [x], |was|, Off(buckets, k), j, x);
      b.data := b.data[j := x];
      b.size := b.size + 1;
      size := size + 1;
      contents := contents + [x];
      forall l | 0 <= l < |buckets|
        ensures Linked(l) && Filled(l)
      {
        assert old(Linked(l)) && old(Filled(l));
        if l != k {
          assert buckets[l] != b;
          OtherSlots(buckets, buckets[l].data, was, contents, |was|, k, j, l);
        }
      }
    }

    /** dynarr_pop */
    method Pop() returns (r: int)
      requires Valid()
      modifies this, buckets
      ensures Valid() && buckets == old(buckets)
      ensures old(contents) == [] ==> r == -1 && contents == []
      ensures old(contents) != [] ==> r == 0 && contents == old(contents)[..|old(contents)| - 1]
    {
      hide Off, Held, SlotsOk;
      if size == 0 {
        return -1;
      }
      var target, j;
      ghost var k;
      target, j, k := FindBucket(size - 1);
      HeldGrows(buckets, size - 1, k, j);
      assert Linked(k) && Filled(k);
      ghost var was := contents;
      target.size := target.size - 1;
      size := size - 1;
      contents := contents[..size];
      forall l | 0 <= l < |buckets|
        ensures Linked(l) && Filled(l)
      {
        assert old(Linked(l)) && old(Filled(l));
        assert l != k ==> buckets[l] != target;
        FewerSlots(buckets[l].data, was, size, Off(buckets, l));
      }
      r := 0;
    }

    /** dynarr_get: NULL only past the capacity; within the size it is the element. */
    method Get(index: nat) returns (b: Bucket?<T>, j: nat)
      requires Valid()
      ensures b == null <==> index >= Off(buckets, |buckets|)
      ensures b != null ==> exists k: nat :: Place(buckets, index, k, j) && b == buckets[k]
      ensures index < |contents| ==> b != null && j < |b.data| && b.data[j] == contents[index]
    {
      ghost var k;
      b, j, k := FindBucket(index);
      if b != null {
        assert Filled(k);
        assert j < |b.data| ==> SlotOk(b.data, contents, Off(buckets, k), j);
      }
    }

    /** A store through a pointer that dynarr_get returned. */
    method Store(index: nat, x: T)
      requires Valid() && index < |contents|
      modifies this, buckets
      ensures Valid() && buckets == old(buckets) && contents == old(contents)[index := x]
    {
      hide Off, Held, SlotsOk;
      var b, j;
      ghost var k;
      b, j, k := FindBucket(index);
      assert Linked(k) && Filled(k);
      ghost var was := contents;
      OwnSlots(b.data, was, was[index := x], index, Off(buckets, k), j, x);
      b.data := b.data[j := x];
      contents := contents[index := x];
      forall l | 0 <= l < |buckets|
        ensures Linked(l) && Filled(l)
      {
        assert old(Linked(l)) && old(Filled(l));
        if l != k {
          assert buckets[l] != b;
          OtherSlots(buckets, buckets[l].data, was, contents, index, k, j, l);
        }
      }
    }

    /** dynarr_clear, which frees every bucket. */
    method Clear() returns (r: int)
      requires Valid()
      modifies this
      ensures Valid() && contents == [] && buckets == [] && r == 0
    {
      head, tail, size := null, null, 0;
      buckets, contents := [], [];
      r := 0;
    }
  }
}
