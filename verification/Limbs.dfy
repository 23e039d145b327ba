/** Values of little-endian limb sequences, and the arithmetic facts about powers of
    the limb base 2^32 that the 2048-bit number code rests on. */
module Limbs {
  import opened Arithmetic

  const BASE: int := 0x1_0000_0000

  type word = x: int | 0 <= x < 0x1_0000_0000

  /** BASE to the power k. */
  function P(k: nat): (p: nat)
    ensures p >= 1
  {
    if k == 0 then 1 else BASE * P(k - 1)
  }

  /** The number a limb sequence stands for, least significant limb first. */
  function Val(s: seq<word>): nat
  {
    if s == [] then 0
    else
      MulNonNegative(s[|s| - 1], P(|s| - 1));
      Val(s[..|s| - 1]) + s[|s| - 1] * P(|s| - 1)
  }

  lemma {:induction false} PAdd(i: nat, j: nat)
    ensures P(i + j) == P(i) * P(j)
  {
    if i == 0 {
    } else {
      PAdd(i - 1, j);
      assert P(i + j) == BASE * P(i - 1 + j);
      assert BASE * (P(i - 1) * P(j)) == (BASE * P(i - 1)) * P(j);
    }
  }

  lemma PMonotone(i: nat, j: nat)
    requires i <= j
    ensures P(i) <= P(j)
  {
    PAdd(i, j - i);
    MulMonotone(1, P(j - i), P(i));
  }

  lemma ValEmpty(s: seq<word>)
    requires s == []
    ensures Val(s) == 0
  {
  }

  lemma ValSnoc(s: seq<word>, x: word)
    ensures Val(s + [x]) == Val(s) + x * P(|s|)
  {
    assert (s + [x])[..|s|] == s;
  }

  lemma ValTake(s: seq<word>, i: nat)
    requires i < |s|
    ensures Val(s[..i + 1]) == Val(s[..i]) + s[i] * P(i)
  {
    assert s[..i + 1] == s[..i] + [s[i]];
    ValSnoc(s[..i], s[i]);
  }

  /** A sequence of n limbs stands for a number below BASE^n. */
  lemma {:induction false} ValBound(s: seq<word>)
    ensures Val(s) < P(|s|)
  {
    if s != [] {
      var n := |s| - 1;
      ValBound(s[..n]);
      MulMonotone(s[n], BASE - 1, P(n));
      assert (BASE - 1) * P(n) == BASE * P(n) - P(n);
    }
  }

  lemma ShiftSum(u: int, x: int, p: int, q: int, pq: int)
    requires pq == p * q
    ensures (u + x * p) * q == u * q + x * pq
  {
    MulAssoc(x, p, q, pq);
  }

  /** Appending limbs. */
  lemma {:induction false} ValConcat(s: seq<word>, t: seq<word>)
    ensures Val(s + t) == Val(s) + Val(t) * P(|s|)
  {
    if t == [] {
      assert s + t == s;
    } else {
      var n := |t| - 1;
      ValConcat(s, t[..n]);
      ValConcatStep(s, t[..n], t[n]);
      assert t == t[..n] + [t[n]];
    }
  }

  lemma ValConcatStep(s: seq<word>, u: seq<word>, x: word)
    requires Val(s + u) == Val(s) + Val(u) * P(|s|)
    ensures Val(s + (u + [x])) == Val(s) + Val(u + [x]) * P(|s|)
  {
    hide Val, P;
    assert s + (u + [x]) == (s + u) + [x];
    ValSnoc(u, x);
    ValSnoc(s + u, x);
    PAdd(|u|, |s|);
    ShiftSum(Val(u), x, P(|u|), P(|s|), P(|u| + |s|));
  }

  /** Splitting a number at limb i. */
  lemma ValSplit(s: seq<word>, i: nat)
    requires i <= |s|
    ensures Val(s) == Val(s[..i]) + Val(s[i..]) * P(i)
  {
    assert s == s[..i] + s[i..];
    ValConcat(s[..i], s[i..]);
  }

  lemma ValZero(s: seq<word>)
    requires forall i :: 0 <= i < |s| ==> s[i] == 0
    ensures Val(s) == 0
  {
    if s != [] {
      ValZero(s[..|s| - 1]);
    }
  }

  lemma ValZeroOnly(s: seq<word>)
    requires Val(s) == 0
    ensures forall i :: 0 <= i < |s| ==> s[i] == 0
  {
    if s != [] {
      var n := |s| - 1;
      MulNonNegative(s[n], P(n));
      if s[n] != 0 {
        MulMonotone(1, s[n], P(n));
      }
      ValZeroOnly(s[..n]);
    }
  }

  /** A most significant limb that is smaller makes the whole number smaller. */
  lemma ValLessAt(s: seq<word>, t: seq<word>, i: nat)
    requires |s| == |t| && i < |s|
    requires s[i] < t[i] && forall k :: i < k < |s| ==> s[k] == t[k]
    ensures Val(s) < Val(t)
  {
    hide Val, P;
    assert s[i + 1..] == t[i + 1..];
    ValSplit(s, i + 1);
    ValSplit(t, i + 1);
    ValTake(s, i);
    ValTake(t, i);
    ValBound(s[..i]);
    MulMonotone(s[i] + 1, t[i], P(i));
    assert (s[i] + 1) * P(i) == s[i] * P(i) + P(i);
  }

  /** The numbers formed by the limbs from i up, obtained by repeated division. */
  function Top(x: nat, i: nat): nat {
    if i == 0 then x else Top(x, i - 1) / BASE
  }

  lemma {:induction false} TopIsSuffix(s: seq<word>, i: nat)
    requires i <= |s|
    ensures Top(Val(s), i) == Val(s[i..])
    ensures i < |s| ==> Top(Val(s), i) % BASE == s[i]
  {
    hide Val;
    if i > 0 {
      TopIsSuffix(s, i - 1);
      ValDigit(s, i - 1);
    } else {
      assert s[0..] == s;
    }
    if i < |s| {
      ValDigit(s, i);
    }
  }

  /** Different limb sequences of one length stand for different numbers. */
  lemma {:induction false} ValInjective(s: seq<word>, t: seq<word>)
    requires |s| == |t| && Val(s) == Val(t)
    ensures s == t
  {
    if s != [] {
      var n := |s| - 1;
      if s[n] < t[n] {
        ValLessAt(s, t, n);
      } else if t[n] < s[n] {
        ValLessAt(t, s, n);
      }
      ValInjective(s[..n], t[..n]);
      assert s == s[..n] + [s[n]] && t == t[..n] + [t[n]];
    }
  }

  lemma ValUpdate(s: seq<word>, i: nat, x: word)
    requires i < |s|
    ensures Val(s[i := x]) == Val(s) + (x - s[i]) * P(i)
  {
    var t := s[i := x];
    ValSplit(s, i + 1);
    ValSplit(t, i + 1);
    ValTake(s, i);
    ValTake(t, i);
    assert t[i + 1..] == s[i + 1..] && t[..i] == s[..i];
    assert (x - s[i]) * P(i) == x * P(i) - s[i] * P(i);
  }

  /** Limb i is the lowest base-BASE digit of the number formed by the limbs from i up. */
  lemma ValDigit(s: seq<word>, i: nat)
    requires i < |s|
    ensures Val(s[i..]) == BASE * Val(s[i + 1..]) + s[i]
  {
    var t := s[i..];
    ValSplit(t, 1);
    assert t[1..] == s[i + 1..];
    assert t[..1] == [] + [s[i]];
    ValSnoc([], s[i]);
    assert P(1) == BASE * P(0);
  }
}
