/** The 2048-bit unsigned numbers of the boot loader: limb arrays written in place. A
    register is an array of limbs, least significant first; the program's registers have
    64 limbs, and every method here works on registers of one common width. */
module Uint2048 {
  import opened Arithmetic
  import opened Bytes
  import opened Machine
  import opened Limbs
  import opened Uint2048Spec

  const EOVERFLOW: int := 75

  /** Registers must be one width, as every uint2048_t is. */
  predicate Same(a: array<word>, b: array<word>) {
    a.Length == b.Length
  }

  method Init(d: array<word>, n: word)
    requires d.Length > 0
    modifies d
    ensures Val(d[..]) == n
    ensures d[0] == n && forall k :: 0 < k < d.Length ==> d[k] == 0
  {
    var i := 0;
    d[i] := n;
    i := i + 1;
    while i < d.Length
      invariant 1 <= i <= d.Length
      invariant d[0] == n && forall k :: 0 < k < i ==> d[k] == 0
    {
      d[i] := 0;
      i := i + 1;
    }
    SmallVal(d[..], n);
  }

  lemma SmallVal(s: seq<word>, n: word)
    requires |s| > 0 && s[0] == n && forall k :: 0 < k < |s| ==> s[k] == 0
    ensures Val(s) == n
  {
    ValSplit(s, 1);
    ValZero(s[1..]);
    assert s[..1] == [] + [n];
    ValSnoc([], n);
  }

  lemma Power256IsP(i: nat)
    ensures Power256(4 * i) == P(i)
  {
    if i > 0 {
      Power256IsP(i - 1);
      Power256Add(4, 4 * i - 4);
      assert Power256(3) == 256 * Power256(2) && Power256(2) == 256 * Power256(1);
    }
  }

  /** Raw bytes into a zeroed register, on a machine that stores words least significant
      byte first: byte k of the source lands in byte k % 4 of limb k / 4. */
  method InitBytes(d: array<word>, f: seq<schar>) returns (err: int)
    modifies d
    ensures |f| > 4 * d.Length ==> err == -1 && d[..] == old(d[..])
    ensures |f| <= 4 * d.Length ==> err == 0 && Val(d[..]) == LeValue(BytesOf(f))
  {
    hide Val, P;
    if |f| > 4 * d.Length {
      return -1;
    }
    for i := 0 to d.Length
      invariant forall k :: 0 <= k < i ==> d[k] == 0
    {
      d[i] := 0;
    }
    ValZero(d[..]);
    ghost var s := BytesOf(f);
    for k := 0 to |f|
      invariant Val(d[..]) == LeValue(s[..k])
      invariant forall j :: k / 4 < j < d.Length ==> d[j] == 0
      invariant k < |f| ==> d[k / 4] < Power256(k % 4)
    {
      ghost var before := d[..];
      var i, j := k / 4, k % 4;
      ByteFits(d[i], j, s[k]);
      ByteStored(before, s, k, i, j);
      d[i] := d[i] + ByteOf(f[k]) * Power256(j);
      assert d[..] == before[i := d[i]];
    }
    assert s[..|f|] == s;
    return 0;
  }

  /** The register after one more byte was put into its limb. */
  lemma ByteStored(before: seq<word>, s: seq<byte>, k: nat, i: nat, j: nat)
    requires k < |s| && k == 4 * i + j && j < 4 && i < |before| && before[i] < Power256(j)
    requires Val(before) == LeValue(s[..k])
    ensures 0 <= before[i] + s[k] * Power256(j) < Power256(j + 1) <= BASE
    ensures Val(before[i := before[i] + s[k] * Power256(j)]) == LeValue(s[..k + 1])
  {
    hide Val, P, Power256, LeValue;
    ByteFits(before[i], j, s[k]);
    ValUpdate(before, i, before[i] + s[k] * Power256(j));
    Power256Add(j, 4 * i);
    Power256IsP(i);
    MulAssoc(s[k], Power256(j), P(i), Power256(k));
    LeSnoc(s[..k], s[k]);
    assert s[..k + 1] == s[..k] + [s[k]];
  }

  lemma ByteFits(w: nat, j: nat, b: byte)
    requires j < 4 && w < Power256(j)
    ensures 0 <= w + b * Power256(j) < Power256(j + 1) <= BASE
  {
    assert Power256(4) == BASE;
    assert Power256(3) == 0x100_0000 && Power256(2) == 0x1_0000 && Power256(1) == 0x100;
    MulMonotone(b, 255, Power256(j));
    MulNonNegative(b, Power256(j));
  }

  /** Bytes most significant first into a register. Whole words come from the end of the
      string; what is left over is read from the end too, where it should come from the
      front. A string as long as the register has one word too many: the source then stores
      past the last limb, which the flag tells. */
  method InitBytesBe(d: array<word>, f: seq<schar>) returns (err: int, overrun: bool)
    modifies d
    ensures |f| > 4 * d.Length ==> err == -1 && !overrun && d[..] == old(d[..])
    ensures |f| <= 4 * d.Length ==> err == 0 && Val(d[..]) == BeRead(BytesOf(f))
    ensures overrun <==> |f| == 4 * d.Length
  {
    hide Val, P, BeValue, LeValue, BytesOf;
    if |f| > 4 * d.Length {
      return -1, false;
    }
    var i := BeWords(d, f);
    ghost var high := d[..i];
    var dd := (|f| / 4) * 4;
    var bytes4 := RestWord(f, dd, |f| - dd);
    overrun := i >= d.Length;
    if overrun {
      LeEmpty(BytesOf(f)[dd..]);
      assert d[..] == high;
    } else {
      d[i] := bytes4;
      ValSnoc(high, bytes4);
      assert d[..i + 1] == high + [bytes4];
      ZeroFrom(d, i + 1);
    }
    err := 0;
  }

  /** The whole words, from the end of the string. */
  method BeWords(d: array<word>, f: seq<schar>) returns (i: nat)
    requires |f| <= 4 * d.Length
    modifies d
    ensures i == |f| / 4 && Val(d[..i]) == BeValue(BytesOf(f)[|f| % 4..])
  {
    hide Val, P, BeValue;
    ghost var s := BytesOf(f);
    ghost var out: seq<word> := [];
    ValEmpty(out);
    i := 0;
    var fi := |f| - 4;
    BeEmpty(s[fi + 4..]);
    while fi >= 0
      invariant -4 <= fi && 4 * i == |f| - 4 - fi
      invariant |out| == i && d[..i] == out && Val(out) == BeValue(s[fi + 4..])
    {
      var bytes4: word := ByteOf(f[fi]) * 0x100_0000 + ByteOf(f[fi + 1]) * 0x1_0000
                          + ByteOf(f[fi + 2]) * 0x100 + ByteOf(f[fi + 3]);
      d[i] := bytes4;
      BeWordStep(s, fi, i, bytes4);
      ValSnoc(out, bytes4);
      out := out + [bytes4];
      i := i + 1;
      fi := fi - 4;
    }
  }

  /** Zeros from limb i on. */
  method ZeroFrom(d: array<word>, from: nat)
    requires from <= d.Length
    modifies d
    ensures Val(d[..]) == Val(old(d[..from]))
  {
    hide Val, P;
    ghost var out := d[..from];
    var i := from;
    while i < d.Length
      invariant |out| == i <= d.Length && d[..i] == out
      invariant Val(out) == Val(old(d[..from]))
    {
      d[i] := 0;
      ValSnoc(out, 0);
      out := out + [0];
      i := i + 1;
    }
    assert d[..] == out;
  }

  lemma BeWordStep(s: seq<byte>, fi: nat, i: nat, w: word)
    requires fi + 4 + 4 * i == |s|
    requires w == 0x100_0000 * (s[fi] as int) + 0x1_0000 * (s[fi + 1] as int) + 0x100 * (s[fi + 2] as int) + s[fi + 3]
    ensures BeValue(s[fi..]) == w * P(i) + BeValue(s[fi + 4..])
  {
    hide BeValue, P;
    BeFour(s[fi..fi + 4]);
    assert s[fi..] == s[fi..fi + 4] + s[fi + 4..];
    BeConcat(s[fi..fi + 4], s[fi + 4..]);
    Power256IsP(i);
  }

  /** The last dr bytes, least significant byte first. */
  method RestWord(f: seq<schar>, dd: nat, dr: nat) returns (bytes4: word)
    requires dr < 4 && dd + dr == |f|
    ensures bytes4 == LeValue(BytesOf(f)[dd..])
  {
    ghost var s := BytesOf(f);
    bytes4 := 0;
    var remi := dr - 1;
    while remi >= 0
      invariant -1 <= remi < dr
      invariant bytes4 == LeValue(s[dd + remi + 1..]) * Power256(remi + 1)
      invariant LeValue(s[dd + remi + 1..]) < Power256(dr - remi - 1)
    {
      assert s[dd + remi..][1..] == s[dd + remi + 1..];
      RestFits(ByteOf(f[dd + remi]), LeValue(s[dd + remi + 1..]), remi, dr);
      bytes4 := bytes4 + ByteOf(f[dd + remi]) * Power256(remi);
      remi := remi - 1;
    }
  }

  lemma BeEmpty(s: seq<byte>)
    requires s == []
    ensures BeValue(s) == 0
  {
  }

  lemma RestFits(b: byte, v: nat, r: nat, dr: nat)
    requires r < dr < 4 && v < Power256(dr - r - 1)
    ensures v * Power256(r + 1) + b * Power256(r) == (b + 256 * v) * Power256(r) < BASE
    ensures b + 256 * v < Power256(dr - r)
  {
    assert Power256(4) == BASE;
    assert Power256(3) == 0x100_0000 && Power256(2) == 0x1_0000 && Power256(1) == 0x100;
    Power256Add(dr - r, r);
    MulMonotone(b + 256 * v, Power256(dr - r), Power256(r));
    assert v * (256 * Power256(r)) == (256 * v) * Power256(r);
    assert (b + 256 * v) * Power256(r) == b * Power256(r) + (256 * v) * Power256(r);
  }

  /** The number InitBytesBe stores. */
  function BeRead(s: seq<byte>): nat {
    MulNonNegative(LeValue(s[(|s| / 4) * 4..]), P(|s| / 4));
    BeValue(s[|s| % 4..]) + LeValue(s[(|s| / 4) * 4..]) * P(|s| / 4)
  }

  /** It is the big-endian number exactly when the last |s| % 4 bytes, backwards, are
      the first ones: always when the length is a multiple of 4. */
  lemma BeReadRightIff(s: seq<byte>)
    ensures BeRead(s) == BeValue(s) <==> LeValue(s[(|s| / 4) * 4..]) == BeValue(s[..|s| % 4])
    ensures |s| % 4 == 0 ==> BeRead(s) == BeValue(s)
  {
    hide BeValue, LeValue, P;
    var r, q := |s| % 4, |s| / 4;
    assert s == s[..r] + s[r..];
    BeConcat(s[..r], s[r..]);
    Power256IsP(q);
    CancelFactor(LeValue(s[q * 4..]), BeValue(s[..r]), P(q));
    if r == 0 {
      assert s[..r] == [] && s[r..] == s;
      LeEmpty(s[q * 4..]);
      BeEmpty(s[..r]);
    }
  }

  lemma CancelFactor(x: nat, y: nat, p: nat)
    requires p > 0
    ensures x * p == y * p <==> x == y
  {
    if x < y {
      MulMonotone(x + 1, y, p);
    } else if y < x {
      MulMonotone(y + 1, x, p);
    }
  }

  lemma LeEmpty(s: seq<byte>)
    requires s == []
    ensures LeValue(s) == 0
  {
  }

  method Copy(dest: array<word>, src: array<word>)
    requires Same(dest, src)
    modifies dest
    ensures dest[..] == old(src[..])
  {
    ghost var s := src[..];
    for i := 0 to src.Length
      invariant dest[..i] == s[..i]
      invariant src[..] == s || (src == dest && src[i..] == s[i..])
    {
      assert src[i] == s[i] by {
        if src[..] != s { assert src[i..][0] == s[i..][0]; }
      }
      dest[i] := src[i];
    }
  }

  /** c := a + b, where c may be a or b. */
  method Add(a: array<word>, b: array<word>, c: array<word>) returns (err: int)
    requires Same(a, b) && Same(a, c)
    modifies c
    ensures var s := old(Val(a[..])) + old(Val(b[..]));
            && Val(c[..]) == (if s < P(c.Length) then s else s - P(c.Length))
            && err == (if s < P(c.Length) then 0 else -EOVERFLOW)
  {
    hide Val;
    ghost var A, B := a[..], b[..];
    var carry: uint64, sum: uint64 := 0, 0;
    ghost var out: seq<word> := [];
    ValEmpty(out);
    for i := 0 to c.Length
      invariant |out| == i && c[..i] == out
      invariant forall k :: i <= k < c.Length ==> a[k] == A[k] && b[k] == B[k]
      invariant carry <= 1
      invariant Val(out) + carry * P(i) == Val(A[..i]) + Val(B[..i])
    {
      ghost var carried := carry;
      var ab: uint64 := a[i];
      var bb: uint64 := b[i];
      sum := ab + bb + carry;
      if sum >= BASE {
        carry := 1;
        sum := sum - BASE;
      } else {
        carry := 0;
      }
      c[i] := sum;
      ValTake(A, i);
      ValTake(B, i);
      ValSnoc(out, sum);
      SumStep(A[i], B[i], sum, carry, carried, P(i));
      out := out + [sum];
    }
    assert A[..c.Length] == A && B[..c.Length] == B && c[..] == out;
    ValBound(out);
    err := if carry != 0 then -EOVERFLOW else 0;
  }

  lemma CarryStep(low: int, high: int, sum: int, p: int)
    requires low + BASE * high == sum
    ensures low * p + high * (BASE * p) == sum * p
  {
    assert high * (BASE * p) == (BASE * high) * p;
  }

  /** One column of a sum: a + b + carried is low + BASE * high. */
  lemma SumStep(a: int, b: int, low: int, high: int, carried: int, p: int)
    requires a + b + carried == low + BASE * high
    ensures a * p + b * p + carried * p == low * p + high * (BASE * p)
  {
    CarryStep(low, high, a + b + carried, p);
    assert (a + b + carried) * p == a * p + b * p + carried * p;
  }

  /** c := a - b, or zero with -EOVERFLOW when a < b; c may be a or b. */
  method Sub(a: array<word>, b: array<word>, c: array<word>) returns (err: int)
    requires Same(a, b) && Same(a, c) && c.Length > 0
    modifies c
    ensures var x, y := old(Val(a[..])), old(Val(b[..]));
            && Val(c[..]) == (if x >= y then x - y else 0)
            && err == (if x >= y then 0 else -EOVERFLOW)
  {
    hide Val;
    ghost var A, B := a[..], b[..];
    var carry: word, sum: uint64 := 0, 0;
    ghost var out: seq<word> := [];
    ValEmpty(out);
    for i := 0 to c.Length
      invariant |out| == i && c[..i] == out
      invariant forall k :: i <= k < c.Length ==> a[k] == A[k] && b[k] == B[k]
      invariant carry <= 1
      invariant Val(out) - carry * P(i) == Val(A[..i]) - Val(B[..i])
    {
      ghost var carried := carry;
      var ab: uint64 := a[i];
      var bb: uint64 := b[i];
      sum := carry + bb;
      if ab >= sum {
        ab := ab - sum;
        carry := 0;
      } else {
        ab := ab + BASE - sum;
        carry := 1;
      }
      c[i] := ab;
      ValTake(A, i);
      ValTake(B, i);
      ValSnoc(out, ab);
      SumStep(ab, B[i], A[i], carry, carried, P(i));
      out := out + [ab];
    }
    assert A[..c.Length] == A && B[..c.Length] == B && c[..] == out;
    ValBound(out);
    if carry != 0 {
      Init(c, 0);
    }
    err := if carry != 0 then -EOVERFLOW else 0;
  }

  /** t is s moved up by n limbs, zeros entering below, within one width. */
  predicate IsShift(s: seq<word>, t: seq<word>, n: nat) {
    |t| == |s| && forall k :: 0 <= k < |t| ==> t[k] == if k < n then 0 else s[k - n]
  }

  /** Shift left by whole limbs. */
  method Shl(a: array<word>, n: nat)
    modifies a
    ensures IsShift(old(a[..]), a[..], n)
  {
    ghost var A := a[..];
    var i := a.Length - 1;
    while i >= n
      invariant -1 <= i < a.Length
      invariant forall k :: 0 <= k <= i ==> a[k] == A[k]
      invariant forall k :: i < k < a.Length ==> a[k] == if k < n then 0 else A[k - n]
    {
      a[i] := a[i - n];
      i := i - 1;
    }
    while i >= 0
      invariant -1 <= i < a.Length && i < n
      invariant forall k :: i < k < a.Length ==> a[k] == if k < n then 0 else A[k - n]
    {
      a[i] := 0;
      i := i - 1;
    }
  }

  /** What the limb shift means for the number: times BASE^n, kept to the width. */
  lemma ShiftVal(s: seq<word>, t: seq<word>, n: nat)
    requires IsShift(s, t, n)
    ensures Val(t) == Cut(MulNat(Val(s), P(n)), |s|)
  {
    if n >= |s| {
      ValZero(t);
      ShiftAllOut(Val(s), n, |s|);
    } else {
      ShiftValKept(s, t, n);
    }
  }

  lemma ShiftValKept(s: seq<word>, t: seq<word>, n: nat)
    requires IsShift(s, t, n) && n < |s|
    ensures Val(t) == Cut(MulNat(Val(s), P(n)), |s|)
  {
    hide Val;
    var w := |s|;
    ValSplit(t, n);
    ValZero(t[..n]);
    assert t[n..] == s[..w - n];
    ValBound(t);
    ValSplit(s, w - n);
    ShiftSomeOut(Val(s[..w - n]), Val(s[w - n..]), n, w);
  }

  lemma ShiftAllOut(v: nat, n: nat, w: nat)
    requires n >= w
    ensures Cut(MulNat(v, P(n)), w) == 0
  {
    PAdd(n - w, w);
    MulAssoc(v, P(n - w), P(w), P(n));
    MulNonNegative(v, P(n - w));
    CutUnique(MulNat(v, P(n)), v * P(n - w), 0, w);
  }

  lemma ShiftSomeOut(lo: nat, hi: nat, n: nat, w: nat)
    requires n <= w && lo * P(n) < P(w)
    ensures lo + hi * P(w - n) >= 0
    ensures Cut(MulNat(lo + hi * P(w - n), P(n)), w) == lo * P(n)
  {
    PAdd(w - n, n);
    MulNonNegative(hi, P(w - n));
    MulNonNegative(lo, P(n));
    ShiftSum(lo, hi, P(w - n), P(n), P(w));
    CutUnique(MulNat(lo + hi * P(w - n), P(n)), hi, lo * P(n), w);
  }

  /** b := a * un, cut to the register; b may be a. */
  method MultByDigit(a: array<word>, b: array<word>, un: word) returns (err: int)
    requires Same(a, b)
    modifies b
    ensures Val(b[..]) == Times(old(Val(a[..])), un, b.Length)
    ensures err == if old(Val(a[..])) * un < P(b.Length) then 0 else -EOVERFLOW
  {
    ghost var A := a[..];
    hide Val;
    var carry: uint64, tmp: uint64 := 0, 0;
    var n: uint64 := un;
    ghost var out: seq<word> := [];
    ValEmpty(out);
    for i := 0 to b.Length
      invariant |out| == i && b[..i] == out
      invariant forall k :: i <= k < b.Length ==> a[k] == A[k]
      invariant carry < BASE
      invariant Val(out) + carry * P(i) == Val(A[..i]) * n
    {
      ghost var carried := carry;
      var ab: uint64 := a[i];
      ProductFits(n, ab, carry);
      tmp := n * ab + carry;
      if tmp >= BASE {
        carry := tmp / BASE;
        tmp := tmp % BASE;
      } else {
        carry := 0;
      }
      b[i] := tmp;
      ValTake(A, i);
      ValSnoc(out, tmp);
      MultStep(Val(out), Val(A[..i]), A[i], n, tmp, carry, carried, P(i));
      out := out + [tmp];
    }
    assert A[..b.Length] == A && b[..] == out;
    ValBound(out);
    MultDone(Val(A), un, carry, Val(out), b.Length);
    err := if carry != 0 then -EOVERFLOW else 0;
  }

  /** The 64-bit product with carry cannot wrap, and its high half is a carry again. */
  lemma ProductFits(n: word, x: word, carry: word)
    ensures 0 <= n * x + carry < BASE * BASE
    ensures (n * x + carry) / BASE < BASE
  {
    MulNonNegative(n, x);
    MulMonotone(n, BASE - 1, x);
  }

  /** One column of a product by a digit. */
  lemma MultStep(vo: int, va: int, x: int, n: int, low: int, high: int, carried: int, p: int)
    requires vo + carried * p == va * n
    requires n * x + carried == low + BASE * high
    ensures vo + low * p + high * (BASE * p) == (va + x * p) * n
  {
    CarryStep(low, high, n * x + carried, p);
    assert (va + x * p) * n == va * n + (n * x) * p;
    assert (n * x + carried) * p == (n * x) * p + carried * p;
  }

  lemma MultDone(v: nat, n: nat, carry: nat, out: nat, w: nat)
    requires out + carry * P(w) == v * n && out < P(w)
    ensures out == Times(v, n, w)
    ensures carry == 0 <==> v * n < P(w)
  {
    CutUnique(MulNat(v, n), carry, out, w);
    if carry != 0 {
      MulMonotone(1, carry, P(w));
    }
  }

  /** c := a * b, keeping the low limbs; c is neither a nor b. */
  method Mult(a: array<word>, b: array<word>, c: array<word>)
    requires Same(a, b) && Same(a, c) && c != a && c != b && c.Length > 0
    modifies c
    ensures Val(c[..]) == Cut(MulNat(Val(a[..]), Val(b[..])), c.Length)
  {
    hide Val, P, Times;
    var p := new word[c.Length];
    ghost var w := c.Length;
    Init(c, 0);
    ghost var A, y := a[..], Val(b[..]);
    ValEmpty(A[..0]);
    for i := 0 to c.Length
      invariant a[..] == A && Val(b[..]) == y
      invariant Val(c[..]) == Cut(MulNat(Val(A[..i]), y), w)
    {
      ValTake(A, i);
      if a[i] == 0 {
        continue;
      }
      var _ := MultByDigit(b, p, a[i]);
      ghost var before := p[..];
      Shl(p, i);
      ShiftVal(before, p[..], i);
      ghost var x, s := Val(c[..]), Val(p[..]);
      ValBound(c[..]);
      ValBound(p[..]);
      var _ := Add(c, p, c);
      PartialProduct(Val(A[..i]), A[i], y, P(i), w, x, s);
    }
    assert A[..w] == A;
  }

  /** Adding the shifted, cut partial product to the cut sum. */
  lemma PartialProduct(v: nat, d: nat, y: nat, p: nat, w: nat, x: nat, s: nat)
    requires x == Cut(MulNat(v, y), w)
    requires s == Cut(MulNat(Times(y, d, w), p), w)
    ensures v + d * p >= 0
    ensures (if x + s < P(w) then x + s else x + s - P(w)) == Cut(MulNat(v + d * p, y), w)
  {
    MulNonNegative(d, p);
    var t := Times(y, d, w);
    var k1 := CutWrap(MulNat(v, y), w);
    var k2 := CutWrap(MulNat(y, d), w);
    var k3 := CutWrap(MulNat(t, p), w);
    var k4 := if x + s < P(w) then 0 else 1;
    ProductSum(v, d, y, p, P(w), k1, k2, k3, t, x, s);
    var q := k1 + k2 * p + k3;
    assert (q + k4) * P(w) == q * P(w) + k4 * P(w);
    CutUnique(MulNat(v + d * p, y), q + k4, x + s - k4 * P(w), w);
  }

  lemma ProductSum(v: int, d: int, y: int, p: int, m: int, k1: int, k2: int, k3: int, t: int, x: int, s: int)
    requires v * y == k1 * m + x && y * d == k2 * m + t && t * p == k3 * m + s
    ensures (v + d * p) * y == (k1 + k2 * p + k3) * m + (x + s)
  {
    assert (v + d * p) * y == v * y + (d * p) * y;
    assert (d * p) * y == (y * d) * p == (k2 * m + t) * p;
    assert (k2 * m + t) * p == (k2 * m) * p + t * p;
    assert (k2 * m) * p == (k2 * p) * m;
    assert (k1 + k2 * p + k3) * m == k1 * m + (k2 * p) * m + k3 * m;
  }

  method Less(a: array<word>, b: array<word>) returns (r: bool)
    requires Same(a, b)
    ensures r <==> Val(a[..]) < Val(b[..])
  {
    var i := a.Length - 1;
    while i >= 0
      invariant -1 <= i < a.Length
      invariant forall k :: i < k < a.Length ==> a[k] == b[k]
    {
      if a[i] < b[i] {
        ValLessAt(a[..], b[..], i);
        return true;
      }
      if a[i] > b[i] {
        ValLessAt(b[..], a[..], i);
        return false;
      }
      i := i - 1;
    }
    assert a[..] == b[..];
    return false;
  }

  method LessEqual(a: array<word>, b: array<word>) returns (r: bool)
    requires Same(a, b)
    ensures r <==> Val(a[..]) <= Val(b[..])
  {
    var i := a.Length - 1;
    while i >= 0
      invariant -1 <= i < a.Length
      invariant forall k :: i < k < a.Length ==> a[k] == b[k]
    {
      if a[i] < b[i] {
        ValLessAt(a[..], b[..], i);
        return true;
      }
      if a[i] > b[i] {
        ValLessAt(b[..], a[..], i);
        return false;
      }
      i := i - 1;
    }
    assert a[..] == b[..];
    return true;
  }

  method Equal(a: array<word>, b: array<word>) returns (r: bool)
    requires Same(a, b)
    ensures r <==> Val(a[..]) == Val(b[..])
  {
    for i := 0 to a.Length
      invariant a[..i] == b[..i]
    {
      if a[i] != b[i] {
        assert a[..][i] != b[..][i];
        if Val(a[..]) == Val(b[..]) {
          ValInjective(a[..], b[..]);
        }
        return false;
      }
    }
    assert a[..] == a[..a.Length] == b[..b.Length] == b[..];
    return true;
  }

  method IsNotZero(a: array<word>) returns (r: bool)
    ensures r <==> Val(a[..]) != 0
  {
    for i := 0 to a.Length
      invariant forall k :: 0 <= k < i ==> a[k] == 0
    {
      if a[i] != 0 {
        assert a[..][i] != 0;
        if Val(a[..]) == 0 {
          ValZeroOnly(a[..]);
        }
        return true;
      }
    }
    ValZero(a[..]);
    return false;
  }

  method IsOdd(a: array<word>) returns (r: bool)
    requires a.Length > 0
    ensures r <==> Val(a[..]) % 2 == 1
  {
    ValDigit(a[..], 0);
    assert a[..][0..] == a[..];
    return a[0] % 2 == 1;
  }

  /** Bringing limb i down: the one-limb shift loses nothing. */
  lemma BringDown(s: seq<word>, t: seq<word>, x: nat, y: nat, i: nat, digit: word)
    requires i < |s| && x < P(|s|) && Val(s) == DivR(x, y, i + 1, |s|)
    requires IsShift(s, t, 1) && digit == Top(x, i) % BASE
    ensures Val(t[0 := digit]) == Brought(x, y, i, |s|)
  {
    hide Val;
    var n := |s|;
    RemainderBound(x, y, i + 1, n);
    TopBound(x, i + 1, n);
    PMonotone(n - i - 1, n - 1);
    assert P(1) == BASE * P(0) && P(n) == BASE * P(n - 1);
    ShiftVal(s, t, 1);
    ValUpdate(t, 0, digit);
  }

  /** The binary search for one quotient digit; tmp is scratch. */
  method FindDigit(b: array<word>, reminder: array<word>, tmp: array<word>) returns (digit: word)
    requires Same(b, reminder) && Same(b, tmp) && tmp != b && tmp != reminder
    modifies tmp
    ensures digit == Digit(Val(b[..]), Val(reminder[..]), b.Length)
  {
    hide Val, P, Times;
    ghost var n, y, cur := b.Length, Val(b[..]), Val(reminder[..]);
    var l: uint64, r: uint64 := 0, BASE;
    while r - l > 1
      invariant 0 <= l < r <= BASE
      invariant Search(y, cur, l, r, n) == Search(y, cur, 0, BASE, n)
      decreases r - l
    {
      var m: uint64 := (l + r) / 2;
      var _ := MultByDigit(b, tmp, m);
      var le := LessEqual(tmp, reminder);
      if le {
        l := m;
      } else {
        r := m;
      }
    }
    digit := l;
  }

  /** Long division. The remainder register and the optional quotient register are
      scratch for the whole run and must not be the operands. */
  method Div(a: array<word>, b: array<word>, dividend: array?<word>, reminder: array<word>)
    requires a.Length > 0 && Same(a, b) && Same(a, reminder)
    requires reminder != a && reminder != b
    requires dividend != null ==>
               Same(a, dividend) && dividend != a && dividend != b && dividend != reminder
    modifies reminder, dividend
    ensures Val(reminder[..]) == DivR(Val(a[..]), Val(b[..]), 0, a.Length)
    ensures dividend != null ==> Val(dividend[..]) == DivQ(Val(a[..]), Val(b[..]), 0, a.Length)
  {
    hide Val, P, Times, Brought;
    var tmp := new word[a.Length];
    ghost var n, A, x, y := a.Length, a[..], Val(a[..]), Val(b[..]);
    if dividend != null {
      Init(dividend, 0);
      ValZero(dividend[n..]);
    }
    Init(reminder, 0);
    ValBound(A);
    var i := a.Length - 1;
    while i >= 0
      invariant -1 <= i < n
      invariant a[..] == A && Val(b[..]) == y
      invariant Val(reminder[..]) == DivR(x, y, i + 1, n)
      invariant dividend != null ==> Val(dividend[i + 1..]) == DivQ(x, y, i + 1, n)
    {
      TopIsSuffix(A, i);
      ghost var before := reminder[..];
      Shl(reminder, 1);
      ghost var shifted := reminder[..];
      reminder[0] := a[i];
      assert reminder[..] == shifted[0 := A[i]];
      BringDown(before, shifted, x, y, i, A[i]);
      ghost var cur := Brought(x, y, i, n);

      var l := FindDigit(b, reminder, tmp);
      if dividend != null {
        dividend[i] := l;
        ValDigit(dividend[..], i);
        assert dividend[..][i..] == dividend[i..] && dividend[..][i + 1..] == dividend[i + 1..];
      }
      var _ := MultByDigit(b, tmp, l);
      var _ := Sub(reminder, tmp, reminder);
      i := i - 1;
    }
    assert dividend != null ==> dividend[0..] == dividend[..];
  }

  /** Square and multiply: ans := ua^up mod mod, as PowLoop computes it. Only ans must be
      distinct, and only from mod: the other operands are copied first. */
  method Pow(ua: array<word>, up: array<word>, mod: array<word>, ans: array<word>)
    requires ua.Length >= 2 && Same(ua, up) && Same(ua, mod) && Same(ua, ans) && ans != mod
    modifies ans
    ensures Val(ans[..]) ==
            PowLoop(old(Val(ua[..])), old(Val(up[..])), Val(mod[..]), 1, ans.Length)
    ensures mod[..] == old(mod[..])
  {
    hide Val, P, Cut, MulRem, PowLoop;
    var tmp1 := new word[ua.Length];
    var tmp2 := new word[ua.Length];
    var const2 := new word[ua.Length];
    var a := new word[ua.Length];
    var p := new word[ua.Length];
    ghost var n, m := ua.Length, Val(mod[..]);
    ghost var base, exp := Val(ua[..]), Val(up[..]);
    Copy(a, ua);
    Copy(p, up);
    Init(ans, 1);
    Init(const2, 2);
    var more := IsNotZero(p);
    while more
      invariant more <==> Val(p[..]) != 0
      invariant Val(mod[..]) == m && Val(const2[..]) == 2
      invariant PowLoop(Val(a[..]), Val(p[..]), m, Val(ans[..]), n) == PowLoop(base, exp, m, 1, n)
      decreases Val(p[..])
    {
      PowLoopStep(Val(a[..]), Val(p[..]), m, Val(ans[..]), n);
      Turn(a, p, mod, ans, const2, tmp1, tmp2);
      more := IsNotZero(p);
    }
    PowLoopDone(Val(a[..]), m, Val(ans[..]), n);
  }

  /** One turn of the loop: multiply if the exponent is odd, square, halve. */
  method Turn(a: array<word>, p: array<word>, mod: array<word>, ans: array<word>, const2: array<word>, tmp1: array<word>, tmp2: array<word>)
    requires a.Length >= 2 && Same(a, p) && Same(a, mod) && Same(a, ans) && Same(a, const2) && Same(a, tmp1) && Same(a, tmp2)
    requires a != p && a != mod && a != ans && a != const2 && a != tmp1 && a != tmp2
    requires p != mod && p != ans && p != const2 && p != tmp1 && p != tmp2
    requires mod != ans && mod != tmp1 && mod != tmp2 && ans != const2 && ans != tmp1 && ans != tmp2
    requires const2 != tmp1 && const2 != tmp2 && tmp1 != tmp2 && Val(const2[..]) == 2
    modifies a, p, ans, tmp1, tmp2
    ensures Val(a[..]) == MulRem(old(Val(a[..])), old(Val(a[..])), Val(mod[..]), a.Length)
    ensures Val(p[..]) == old(Val(p[..])) / 2
    ensures Val(ans[..]) == if old(Val(p[..])) % 2 == 1 then MulRem(old(Val(ans[..])), old(Val(a[..])), Val(mod[..]), a.Length) else old(Val(ans[..]))
  {
    hide Val, P, Cut, MulRem;
    var odd := IsOdd(p);
    if odd {
      MultReduceInto(ans, a, mod, tmp1, tmp2);
    }
    MultReduceInto(a, a, mod, tmp1, tmp2);
    Halve(p, const2, tmp1, tmp2);
  }

  lemma PowLoopStep(a: nat, e: nat, m: nat, ans: nat, n: nat)
    requires e > 0
    ensures PowLoop(a, e, m, ans, n) ==
            PowLoop(MulRem(a, a, m, n), e / 2, m, if e % 2 == 1 then MulRem(ans, a, m, n) else ans, n)
  {
  }

  lemma PowLoopDone(a: nat, m: nat, ans: nat, n: nat)
    ensures PowLoop(a, 0, m, ans, n) == ans
  {
  }

  lemma TwoFits(n: nat)
    requires n >= 2
    ensures DivisorFits(2, n)
  {
    assert P(1) == BASE * P(0);
    assert P(2) == BASE * P(1);
    PMonotone(2, n);
  }

  /** x := x * y modulo mod: the multiply, divide, copy triple of the power loop. */
  method MultReduceInto(x: array<word>, y: array<word>, mod: array<word>, tmp1: array<word>, tmp2: array<word>)
    requires x.Length > 0 && Same(x, y) && Same(x, mod) && Same(x, tmp1) && Same(x, tmp2)
    requires tmp1 != x && tmp1 != y && tmp1 != mod && tmp2 != tmp1 && tmp2 != mod && x != mod && tmp2 != x
    modifies tmp1, tmp2, x
    ensures Val(x[..]) == MulRem(old(Val(x[..])), old(Val(y[..])), Val(mod[..]), x.Length)
  {
    hide Val;
    Mult(x, y, tmp1);
    Div(tmp1, mod, null, tmp2);
    Copy(x, tmp2);
  }

  method Halve(p: array<word>, const2: array<word>, tmp1: array<word>, tmp2: array<word>)
    requires p.Length >= 2 && Same(p, const2) && Same(p, tmp1) && Same(p, tmp2)
    requires tmp1 != p && tmp1 != const2 && tmp2 != p && tmp2 != const2 && tmp1 != tmp2
    requires Val(const2[..]) == 2
    modifies tmp1, tmp2, p
    ensures Val(p[..]) == old(Val(p[..])) / 2
  {
    hide Val;
    TwoFits(p.Length);
    ValBound(p[..]);
    DivMeetsDivision(Val(p[..]), 2, p.Length);
    Div(p, const2, tmp1, tmp2);
    Copy(p, tmp1);
  }
}
