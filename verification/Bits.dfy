/** Single bits of natural numbers, as shifts and masks see them. */
module Bits {
  import opened Bytes

  function Pow2(n: nat): (p: nat)
    ensures p > 0
  {
    if n == 0 then 1 else 2 * Pow2(n - 1)
  }

  /** Bit k of x. */
  predicate BitAt(x: nat, k: nat) {
    if k == 0 then x % 2 == 1 else BitAt(x / 2, k - 1)
  }

  /** x >> n */
  function Shr(x: nat, n: nat): (r: nat)
    ensures n == 0 ==> r == x
  {
    if n == 0 then x else Shr(x / 2, n - 1)
  }

  /** x | (1 << k) */
  function OrBit(x: nat, k: nat): nat {
    if k == 0 then (x / 2) * 2 + 1 else 2 * OrBit(x / 2, k - 1) + x % 2
  }

  /** x & ~(1 << k) */
  function AndNotBit(x: nat, k: nat): nat {
    if k == 0 then (x / 2) * 2 else 2 * AndNotBit(x / 2, k - 1) + x % 2
  }

  /** ctz32: the index of the lowest set bit. */
  function Ctz(x: nat): (n: nat)
    requires x > 0
    ensures BitAt(x, n) && forall k :: 0 <= k < n ==> !BitAt(x, k)
  {
    if x % 2 == 1 then 0
    else
      var n := Ctz(x / 2);
      assert forall k :: 0 <= k < n + 1 ==> BitAt(x, k) == (k > 0 && BitAt(x / 2, k - 1));
      n + 1
  }

  lemma {:induction false} BitOfShr(x: nat, n: nat, k: nat)
    ensures BitAt(Shr(x, n), k) == BitAt(x, n + k)
  {
    if n > 0 {
      BitOfShr(x / 2, n - 1, k);
    }
  }

  lemma {:induction false} ShrBound(x: nat, n: nat, m: nat)
    requires n <= m && x < Pow2(m)
    ensures Shr(x, n) < Pow2(m - n)
  {
    if n > 0 {
      ShrBound(x / 2, n - 1, m - 1);
    }
  }

  lemma Halves(x: nat, y: nat, b: nat)
    requires x == 2 * y + b && b < 2
    ensures x / 2 == y && x % 2 == b
  {
  }

  lemma BitStep(x: nat, j: nat)
    ensures BitAt(x, j) == if j == 0 then x % 2 == 1 else BitAt(x / 2, j - 1)
  {
  }

  lemma {:induction false} OrBitIs(x: nat, k: nat, n: nat, j: nat)
    requires k < n && x < Pow2(n)
    ensures OrBit(x, k) < Pow2(n)
    ensures BitAt(OrBit(x, k), j) == (j == k || BitAt(x, j))
  {
    if k > 0 {
      var y := OrBit(x / 2, k - 1);
      OrBitIs(x / 2, k - 1, n - 1, if j == 0 then 0 else j - 1);
      Halves(OrBit(x, k), y, x % 2);
      BitStep(OrBit(x, k), j);
    }
    BitStep(x, j);
  }

  lemma {:induction false} AndNotBitIs(x: nat, k: nat, n: nat, j: nat)
    requires k < n && x < Pow2(n)
    ensures AndNotBit(x, k) < Pow2(n)
    ensures BitAt(AndNotBit(x, k), j) == (j != k && BitAt(x, j))
  {
    if k > 0 {
      var y := AndNotBit(x / 2, k - 1);
      AndNotBitIs(x / 2, k - 1, n - 1, if j == 0 then 0 else j - 1);
      Halves(AndNotBit(x, k), y, x % 2);
      BitStep(AndNotBit(x, k), j);
    }
    BitStep(x, j);
  }

  /** Bits of the n-bit complement of x. */
  lemma {:induction false} BitOfNot(x: nat, n: nat, k: nat)
    requires x < Pow2(n) && k < n
    ensures BitAt(Pow2(n) - 1 - x, k) == !BitAt(x, k)
  {
    var y := Pow2(n) - 1 - x;
    assert y / 2 == Pow2(n - 1) - 1 - x / 2;
    if k > 0 {
      BitOfNot(x / 2, n - 1, k - 1);
    }
  }

  lemma {:induction false} NoBitsZero(x: nat, n: nat)
    requires x < Pow2(n) && forall k :: 0 <= k < n ==> !BitAt(x, k)
    ensures x == 0
  {
    if n > 0 {
      assert !BitAt(x, 0);
      assert forall k :: 0 <= k < n - 1 ==> BitAt(x / 2, k) == BitAt(x, k + 1);
      NoBitsZero(x / 2, n - 1);
    }
  }

  /** The lowest n bits of x all have value v. */
  predicate BitsAre(x: nat, n: nat, v: bool) {
    forall k :: 0 <= k < n ==> BitAt(x, k) == v
  }

  lemma NoBits(x: nat, n: nat)
    requires x < Pow2(n)
    ensures x == 0 <==> BitsAre(x, n, false)
  {
    if x == 0 {
      forall k: nat
        ensures !BitAt(x, k)
      {
        NoBit(k);
      }
    } else if BitsAre(x, n, false) {
      NoBitsZero(x, n);
    }
  }

  lemma AllBits(x: nat, n: nat)
    requires x < Pow2(n)
    ensures x == Pow2(n) - 1 <==> BitsAre(x, n, true)
  {
    var y := Pow2(n) - 1 - x;
    NoBits(y, n);
    forall k | 0 <= k < n
      ensures BitAt(y, k) == !BitAt(x, k)
    {
      BitOfNot(x, n, k);
    }
    assert BitsAre(x, n, true) ==> BitsAre(y, n, false);
    assert BitsAre(y, n, false) ==> BitsAre(x, n, true);
  }

  lemma Pow2Word()
    ensures Pow2(8) == 256 && Pow2(32) == 0x1_0000_0000
  {
    assert Pow2(8) == 256;
    assert Pow2(14) == 0x4000;
    assert Pow2(20) == 0x10_0000;
    assert Pow2(26) == 0x400_0000;
  }

  /** A set bit lies below any power of two above the number. */
  lemma {:induction false} BitBelow(x: nat, n: nat, k: nat)
    requires x < Pow2(n) && BitAt(x, k)
    ensures k < n
  {
    if n > 0 && k > 0 {
      BitBelow(x / 2, n - 1, k - 1);
    } else if n == 0 {
      NoBit(k);
      assert false;
    }
  }

  lemma {:induction false} NoBit(k: nat)
    ensures !BitAt(0, k)
  {
    if k > 0 {
      NoBit(k - 1);
    }
  }

  /** Putting lo below hi: the bits of lo, then those of hi. */
  lemma {:induction false} Joined(lo: nat, hi: nat, n: nat, p: nat, k: nat)
    requires p == Pow2(n) * hi && lo < Pow2(n)
    ensures BitAt(lo + p, k) == if k < n then BitAt(lo, k) else BitAt(hi, k - n)
  {
    if n > 0 {
      Twice(Pow2(n - 1), hi);
      var p' := Pow2(n - 1) * hi;
      assert (lo + p) / 2 == lo / 2 + p' && (lo + p) % 2 == lo % 2;
      if k > 0 {
        Joined(lo / 2, hi, n - 1, p', k - 1);
      }
    }
  }

  lemma Twice(a: nat, b: nat)
    ensures (2 * a) * b == 2 * (a * b)
  {
  }

  lemma JoinedByte(lo: byte, hi: nat, k: nat)
    ensures BitAt(lo as int + 256 * hi, k) == if k < 8 then BitAt(lo, k) else BitAt(hi, k - 8)
  {
    assert Pow2(8) == 256;
    Joined(lo, hi, 8, 256 * hi, k);
  }
}
