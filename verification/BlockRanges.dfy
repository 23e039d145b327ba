/** Live block ranges over a bitmap: what both kernel allocators keep true. */
module BlockRanges {
  import opened Bitmap

  type Live = map<nat, nat>   // the first block of each live allocation, and its length

  ghost predicate InLive(live: Live, k: int) {
    exists s :: s in live && s <= k < s + live[s]
  }

  predicate Apart(live: Live, s: nat, t: nat)
    requires s in live && t in live
  {
    s + live[s] <= t || t + live[t] <= s
  }

  ghost predicate RangeOk(base: seq<bool>, live: Live, s: nat)
    requires s in live
  {
    live[s] >= 1 && Run(base, s, live[s])
  }

  /** The set bits are exactly the reserved ones and the blocks of live allocations, whose
      ranges are disjoint. */
  ghost predicate Tracks(bits: seq<bool>, base: seq<bool>, live: Live) {
    && |base| == |bits|
    && (forall s :: s in live ==> RangeOk(base, live, s))
    && (forall s, t :: s in live && t in live && s != t ==> Apart(live, s, t))
    && forall k :: 0 <= k < |bits| ==> bits[k] == (base[k] || InLive(live, k))
  }

  lemma TrackAlloc(bits: seq<bool>, bits': seq<bool>, base: seq<bool>, live: Live, s: nat, n: nat)
    requires Tracks(bits, base, live) && n >= 1 && Run(bits, s, n) && Updated(bits, bits', s, s + n, true)
    ensures s !in live && Tracks(bits', base, live[s := n])
  {
    var live' := live[s := n];
    forall t | t in live
      ensures live[t] >= 1 && t + live[t] <= |bits| && (s + n <= t || t + live[t] <= s)
    {
      assert RangeOk(base, live, t);
      var k := if s < t then t else s;
      assert t <= k < t + live[t] ==> InLive(live, k);
      assert s <= k < s + n ==> !bits[k];
    }
    forall t | t in live'
      ensures RangeOk(base, live', t)
    {
      if t != s {
        assert RangeOk(base, live, t);
      } else {
        assert forall k :: s <= k < s + n ==> !bits[k] && (bits[k] == (base[k] || InLive(live, k)));
      }
    }
    forall t, u | t in live' && u in live' && t != u
      ensures Apart(live', t, u)
    {
      assert t in live && u in live ==> Apart(live, t, u);
    }
    forall k | 0 <= k < |bits'|
      ensures bits'[k] == (base[k] || InLive(live', k))
    {
      GrownLive(live, s, n, k);
    }
  }

  lemma GrownLive(live: Live, s: nat, n: nat, k: int)
    requires s !in live
    ensures InLive(live[s := n], k) <==> InLive(live, k) || s <= k < s + n
  {
    var live' := live[s := n];
    if InLive(live, k) {
      var t :| t in live && t <= k < t + live[t];
      assert t in live' && live'[t] == live[t];
    }
    if s <= k < s + n {
      assert s in live' && live'[s] == n;
    }
  }

  lemma TrackFree(bits: seq<bool>, bits': seq<bool>, base: seq<bool>, live: Live, s: nat)
    requires Tracks(bits, base, live) && s in live && Updated(bits, bits', s, s + live[s], false)
    ensures Tracks(bits', base, live - {s})
  {
    var live' := live - {s};
    assert RangeOk(base, live, s);
    forall t | t in live'
      ensures RangeOk(base, live', t)
    {
      assert RangeOk(base, live, t);
    }
    forall t, u | t in live' && u in live' && t != u
      ensures Apart(live', t, u)
    {
      assert Apart(live, t, u);
    }
    forall k | 0 <= k < |bits'|
      ensures bits'[k] == (base[k] || InLive(live', k))
    {
      ShrunkLive(base, live, s, k);
      assert Run(base, s, live[s]);
    }
  }

  lemma ShrunkLive(base: seq<bool>, live: Live, s: nat, k: int)
    requires s in live && forall t :: t in live && t != s ==> Apart(live, s, t)
    ensures InLive(live - {s}, k) <==> InLive(live, k) && !(s <= k < s + live[s])
  {
    var live' := live - {s};
    if InLive(live, k) && !(s <= k < s + live[s]) {
      var t :| t in live && t <= k < t + live[t];
      assert t in live' && live'[t] == live[t];
    }
    if InLive(live', k) {
      var t :| t in live' && t <= k < t + live'[t];
      assert t in live && Apart(live, s, t);
    }
  }

  lemma UpdatedPrefix(was: seq<bool>, now: seq<bool>, lo: int, hi: int, v: bool, len: nat)
    requires Updated(was, now, lo, hi, v) && len <= |was|
    ensures Updated(was[..len], now[..len], lo, hi, v)
  {
  }

  //////////////////////////////////////////////////////////////////////////////
  // Counting
  //////////////////////////////////////////////////////////////////////////////

  function CountSet(bits: seq<bool>): nat {
    if bits == [] then 0 else CountSet(bits[..|bits| - 1]) + if bits[|bits| - 1] then 1 else 0
  }

  /** Turning n equal bits changes the count by n. */
  lemma {:induction false} CountUpdated(was: seq<bool>, now: seq<bool>, s: nat, n: nat, v: bool)
    requires Updated(was, now, s, s + n, v) && s + n <= |was| && forall k :: s <= k < s + n ==> was[k] == !v
    ensures CountSet(now) == CountSet(was) as int + if v then n as int else -(n as int)
    decreases |was|
  {
    if was != [] {
      var m := |was| - 1;
      if s + n <= m {
        CountUpdated(was[..m], now[..m], s, n, v);
      } else if n > 0 {
        CountUpdated(was[..m], now[..m], s, n - 1, v);
      } else {
        assert now == was;
      }
    }
  }

  lemma {:induction false} CountConcat(a: seq<bool>, b: seq<bool>)
    ensures CountSet(a + b) == CountSet(a) + CountSet(b)
    decreases |b|
  {
    if b == [] {
      assert a + b == a;
    } else {
      var m := |b| - 1;
      CountConcat(a, b[..m]);
      assert (a + b)[..|a + b| - 1] == a + b[..m];
    }
  }

  /** No more bits are set than there are, and all of them only if every one is. */
  lemma {:induction false} CountAtMost(s: seq<bool>)
    ensures CountSet(s) <= |s|
    ensures CountSet(s) == |s| <==> forall k :: 0 <= k < |s| ==> s[k]
    ensures CountSet(s) == 0 <==> forall k :: 0 <= k < |s| ==> !s[k]
    decreases |s|
  {
    if s != [] {
      var m := |s| - 1;
      CountAtMost(s[..m]);
      assert forall k :: 0 <= k < m ==> s[..m][k] == s[k];
    }
  }

  /** Whatever the bits of a range were, giving all of them one value replaces their count. */
  lemma CountReplaced(was: seq<bool>, now: seq<bool>, s: nat, n: nat, v: bool)
    requires Updated(was, now, s, s + n, v) && s + n <= |was|
    ensures CountSet(now) == CountSet(was) - CountSet(was[s..s + n]) + if v then n else 0
  {
    hide CountSet, Updated, AllAre;
    OnlyRange(was, now, s, n, v);
    CountParts(was, s, s + n);
    CountParts(now, s, s + n);
    CountUniform(now[s..s + n], v);
  }

  predicate AllAre(s: seq<bool>, v: bool) {
    forall k :: 0 <= k < |s| ==> s[k] == v
  }

  lemma CountUniform(s: seq<bool>, v: bool)
    requires AllAre(s, v)
    ensures CountSet(s) == if v then |s| else 0
  {
    hide CountSet;
    CountAtMost(s);
  }

  lemma OnlyRange(was: seq<bool>, now: seq<bool>, s: nat, n: nat, v: bool)
    requires Updated(was, now, s, s + n, v) && s + n <= |was|
    ensures |now| == |was| && now[..s] == was[..s] && now[s + n..] == was[s + n..]
    ensures AllAre(now[s..s + n], v)
  {
  }

  lemma CountParts(s: seq<bool>, i: nat, j: nat)
    requires i <= j <= |s|
    ensures CountSet(s) == CountSet(s[..i]) + CountSet(s[i..j]) + CountSet(s[j..])
  {
    hide CountSet;
    assert s == s[..i] + s[i..] && s[i..] == s[i..j] + s[j..];
    CountConcat(s[..i], s[i..]);
    CountConcat(s[i..j], s[j..]);
  }
}
