/** What the fixed-width long division and modular power compute, on plain numbers. The
    methods of Uint2048 are proved equal to these functions; the theorems about them say
    what that is worth. Everything is stated for registers of n limbs; the program fixes
    n = 64, which makes P(n) 2^2048 and P(n / 2) 2^1024. */
module Uint2048Spec {
  import opened Arithmetic
  import opened Limbs

  function MulNat(x: nat, y: nat): nat {
    MulNonNegative(x, y);
    x * y
  }

  /** A product as an n-limb register keeps it. */
  function Cut(x: nat, n: nat): (r: nat)
    ensures r <= x && r < P(n)
    ensures x < P(n) ==> r == x
  {
    CutBounds(x, P(n));
    x % P(n)
  }

  lemma CutBounds(x: nat, m: nat)
    requires m > 0
    ensures 0 <= x % m <= x && x % m < m && (x < m ==> x % m == x)
  {
    if x < m {
      DivUnique(x, m, 0, x);
    } else {
      MulNonNegative(x / m, m);
    }
  }

  /** The cut value is the only remainder below P(n). */
  lemma CutUnique(x: nat, q: int, r: nat, n: nat)
    requires x == q * P(n) + r && r < P(n)
    ensures Cut(x, n) == r
  {
    DivUnique(x, P(n), q, r);
  }

  /** The product of a register and one digit, as mult_by_digit leaves it. */
  function Times(b: nat, d: nat, n: nat): nat {
    Cut(MulNat(b, d), n)
  }

  /** The quotient digit the binary search settles on: products are cut to n limbs. */
  function Search(b: nat, cur: nat, l: nat, r: nat, n: nat): nat
    requires l < r
    decreases r - l, cur
  {
    if r - l <= 1 then l
    else
      var m := (l + r) / 2;
      if Times(b, m, n) <= cur then Search(b, cur, m, r, n) else Search(b, cur, l, m, n)
  }

  function Digit(b: nat, cur: nat, n: nat): (d: nat)
    ensures d < BASE && Times(b, d, n) <= cur
  {
    SearchFits(b, cur, 0, BASE, n);
    Search(b, cur, 0, BASE, n)
  }

  /** The running remainder with limb i of x brought down. */
  function Brought(x: nat, b: nat, i: nat, n: nat): nat
    requires i < n
    decreases n - i, 0
  {
    BASE * DivR(x, b, i + 1, n) + Top(x, i) % BASE
  }

  /** Remainder register after limbs n-1 down to i of x were consumed. */
  function DivR(x: nat, b: nat, i: nat, n: nat): (r: nat)
    requires i <= n
    decreases n - i, 1
  {
    if i == n then 0
    else
      var cur := Brought(x, b, i, n);
      cur - Times(b, Digit(b, cur, n), n)
  }

  /** Quotient digits found for limbs n-1 down to i, as one number. */
  function DivQ(x: nat, b: nat, i: nat, n: nat): nat
    requires i <= n
    decreases n - i
  {
    if i == n then 0
    else BASE * DivQ(x, b, i + 1, n) + Digit(b, Brought(x, b, i, n), n)
  }

  /** The search never settles on a digit whose cut product exceeds the remainder, so
      the subtraction that follows cannot borrow. */
  lemma {:induction false} SearchFits(b: nat, cur: nat, l: nat, r: nat, n: nat)
    requires l < r && Times(b, l, n) <= cur
    ensures l <= Search(b, cur, l, r, n) < r
    ensures Times(b, Search(b, cur, l, r, n), n) <= cur
    decreases r - l
  {
    if r - l > 1 {
      var m := (l + r) / 2;
      if Times(b, m, n) <= cur {
        SearchFits(b, cur, m, r, n);
      } else {
        SearchFits(b, cur, l, m, n);
      }
    }
  }

  /** A divisor for which no product with a 32-bit digit is cut. */
  predicate DivisorFits(b: nat, n: nat) {
    b > 0 && b * (BASE - 1) < P(n)
  }

  lemma NoCut(b: nat, d: nat, n: nat)
    requires DivisorFits(b, n) && d < BASE
    ensures 0 <= b * d < P(n) && Times(b, d, n) == b * d
  {
    MulMonotone(d, BASE - 1, b);
    MulNonNegative(b, d);
  }

  /** With such a divisor the bracket b*l <= cur < b*r holds throughout the search, and
      the digit is the floor of cur / b. */
  lemma {:induction false} SearchExact(b: nat, cur: nat, l: nat, r: nat, n: nat)
    requires DivisorFits(b, n) && l < r <= BASE
    requires b * l <= cur < b * r
    ensures var d := Search(b, cur, l, r, n); l <= d < r && b * d <= cur && cur - b * d < b
    decreases r - l
  {
    if r - l > 1 {
      var m := (l + r) / 2;
      NoCut(b, m, n);
      if b * m <= cur {
        SearchExact(b, cur, m, r, n);
      } else {
        SearchExact(b, cur, l, m, n);
      }
    }
  }

  lemma {:induction false} TopBound(x: nat, i: nat, n: nat)
    requires i <= n && x < P(n)
    ensures Top(x, i) < P(n - i)
  {
    if i > 0 {
      TopBound(x, i - 1, n);
      assert P(n - i + 1) == BASE * P(n - i);
    }
  }

  lemma TopOfAll(x: nat, n: nat)
    requires x < P(n)
    ensures Top(x, n) == 0
  {
    TopBound(x, n, n);
  }

  /** The remainder never outgrows the limbs brought down, whatever the divisor, so the
      one-limb shift loses nothing. */
  lemma {:induction false} RemainderBound(x: nat, b: nat, i: nat, n: nat)
    requires i <= n && x < P(n)
    ensures DivR(x, b, i, n) <= Top(x, i)
    decreases n - i
  {
    if i < n {
      RemainderBound(x, b, i + 1, n);
    }
  }

  /** For EVERY divisor, zero and the over-wide ones included, a = q*b + r holds modulo
      the register size. */
  lemma {:induction false} DivInvariant(x: nat, b: nat, i: nat, n: nat) returns (k: int)
    requires i <= n && x < P(n)
    ensures Top(x, i) == DivQ(x, b, i, n) * b + DivR(x, b, i, n) + k * P(n)
    decreases n - i
  {
    if i == n {
      TopOfAll(x, n);
      k := 0;
    } else {
      var k1 := DivInvariant(x, b, i + 1, n);
      var d, c := DivUnfold(x, b, i, n);
      k := BASE * k1 - c;
      QuotientStep(DivQ(x, b, i + 1, n), DivR(x, b, i + 1, n), k1, b, d, c, P(n));
    }
  }

  lemma DivUnfold(x: nat, b: nat, i: nat, n: nat) returns (d: nat, c: nat)
    requires i < n
    ensures d == Digit(b, Brought(x, b, i, n), n)
    ensures b * d == c * P(n) + Times(b, d, n)
    ensures DivQ(x, b, i, n) == BASE * DivQ(x, b, i + 1, n) + d
    ensures DivR(x, b, i, n) == BASE * DivR(x, b, i + 1, n) + Top(x, i) % BASE - (b * d - c * P(n))
    ensures Top(x, i) == BASE * Top(x, i + 1) + Top(x, i) % BASE
  {
    d := Digit(b, Brought(x, b, i, n), n);
    c := CutWrap(b * d, n);
  }

  lemma CutWrap(x: nat, n: nat) returns (c: nat)
    ensures x == c * P(n) + Cut(x, n)
  {
    c := x / P(n);
  }

  lemma QuotientStep(q: int, r: int, k: int, b: int, d: int, c: int, m: int)
    ensures BASE * (q * b + r + k * m) ==
            (BASE * q + d) * b + (BASE * r - (b * d - c * m)) + (BASE * k - c) * m
  {
    assert (BASE * q + d) * b == BASE * (q * b) + b * d;
    assert (BASE * k - c) * m == BASE * (k * m) - c * m;
  }

  /** When no product is cut: a = q*b + r with r < b at every limb. */
  lemma {:induction false} DivExact(x: nat, b: nat, i: nat, n: nat)
    requires i <= n && x < P(n) && DivisorFits(b, n)
    ensures Top(x, i) == DivQ(x, b, i, n) * b + DivR(x, b, i, n)
    ensures DivR(x, b, i, n) < b
    decreases n - i
  {
    if i == n {
      TopOfAll(x, n);
    } else {
      DivExact(x, b, i + 1, n);
      var cur := Brought(x, b, i, n);
      var d, c := DivUnfold(x, b, i, n);
      SearchExact(b, cur, 0, BASE, n);
      NoCut(b, d, n);
      ExactStep(DivQ(x, b, i + 1, n), DivR(x, b, i + 1, n), b, d);
    }
  }

  lemma ExactStep(q: int, r: int, b: int, d: int)
    ensures BASE * (q * b + r) == (BASE * q + d) * b + (BASE * r - b * d)
  {
    assert (BASE * q + d) * b == BASE * (q * b) + b * d;
  }

  lemma DivMeetsDivision(x: nat, b: nat, n: nat)
    requires x < P(n) && DivisorFits(b, n)
    ensures DivQ(x, b, 0, n) == x / b && DivR(x, b, 0, n) == x % b
  {
    DivExact(x, b, 0, n);
    TopOfAll(x, n);
    DivUnique(x, b, DivQ(x, b, 0, n), DivR(x, b, 0, n));
  }

  /** A divisor whose top limb is 0 fits. */
  lemma TopLimbZeroFits(b: nat, n: nat)
    requires n > 0 && 0 < b < P(n - 1)
    ensures DivisorFits(b, n)
  {
    assert P(n) == BASE * P(n - 1);
  }

  /** When every comparison succeeds the search settles on the last digit. */
  lemma {:induction false} SearchSaturates(b: nat, cur: nat, l: nat, r: nat, n: nat)
    requires l < r && (b == 0 || cur >= P(n) - 1)
    ensures Search(b, cur, l, r, n) == r - 1
    decreases r - l
  {
    if r - l > 1 {
      var m := (l + r) / 2;
      SearchSaturates(b, cur, m, r, n);
    }
  }

  /** Dividing by zero ends too: the remainder is the dividend and every quotient digit
      is 2^32-1. */
  lemma {:induction false} DivByZero(x: nat, i: nat, n: nat)
    requires i <= n && x < P(n)
    ensures DivR(x, 0, i, n) == Top(x, i)
    ensures DivQ(x, 0, i, n) == P(n - i) - 1
    decreases n - i
  {
    TopOfAll(x, n);
    if i < n {
      DivByZero(x, i + 1, n);
      assert P(n - i) == BASE * P(n - i - 1);
      assert 0 * Digit(0, Brought(x, 0, i, n), n) == 0;
      SearchSaturates(0, Brought(x, 0, i, n), 0, BASE, n);
    }
  }

  /** A zero quotient means nothing was ever subtracted. */
  lemma {:induction false} ZeroQuotient(x: nat, b: nat, i: nat, n: nat)
    requires i <= n && x < P(n) && DivQ(x, b, i, n) == 0
    ensures DivR(x, b, i, n) == Top(x, i)
    decreases n - i
  {
    TopOfAll(x, n);
    if i < n {
      ZeroQuotient(x, b, i + 1, n);
      assert Digit(b, Brought(x, b, i, n), n) == 0;
      assert Times(b, 0, n) == 0;
    }
  }

  lemma AllOnesQuotient(x: nat, b: nat, n: nat)
    requires n > 0 && x == P(n) - 1
    ensures DivQ(x, b, 0, n) >= BASE - 1
  {
    var d, _ := DivUnfold(x, b, 0, n);
    if DivQ(x, b, 1, n) == 0 {
      // Nothing was taken away yet, so every comparison of the last search succeeds.
      ZeroQuotient(x, b, 1, n);
      SearchSaturates(b, x, 0, BASE, n);
    }
  }

  /** The failing dividend of a divisor that does not fit: all limbs 2^32-1. */
  lemma WideDivisorFails(b: nat, n: nat)
    requires n > 0 && 0 < b < P(n) && !DivisorFits(b, n)
    ensures DivQ(P(n) - 1, b, 0, n) != (P(n) - 1) / b
  {
    var q := DivQ(P(n) - 1, b, 0, n);
    AllOnesQuotient(P(n) - 1, b, n);
    MulMonotone(BASE - 1, q, b);
    QuotientTooBig(P(n) - 1, b, q);
  }

  lemma QuotientTooBig(x: nat, b: nat, q: nat)
    requires b > 0 && q * b > x
    ensures x / b != q
  {
    assert x == (x / b) * b + x % b;
  }

  /** Division is right for every dividend exactly when no product of the divisor with a
      32-bit digit is cut. */
  lemma DivRightIffDivisorFits(b: nat, n: nat)
    requires n > 0 && 0 < b < P(n)
    ensures (forall x: nat | x < P(n) :: DivQ(x, b, 0, n) == x / b && DivR(x, b, 0, n) == x % b)
            <==> DivisorFits(b, n)
  {
    if DivisorFits(b, n) {
      forall x: nat | x < P(n)
        ensures DivQ(x, b, 0, n) == x / b && DivR(x, b, 0, n) == x % b
      {
        DivMeetsDivision(x, b, n);
      }
    } else {
      WideDivisorFails(b, n);
    }
  }

  //////////////////////////////////////////////////////////////////////////////
  // Modular power
  //////////////////////////////////////////////////////////////////////////////

  function Exp(a: nat, e: nat): nat {
    if e == 0 then 1 else MulNonNegative(a, Exp(a, e - 1)); a * Exp(a, e - 1)
  }

  /** One product of the power loop: cut to n limbs, then reduced. */
  function MulRem(x: nat, y: nat, m: nat, n: nat): nat {
    DivR(Cut(MulNat(x, y), n), m, 0, n)
  }

  /** The square-and-multiply loop from a base register, an exponent and an answer. */
  function PowLoop(a: nat, e: nat, m: nat, ans: nat, n: nat): nat
    decreases e
  {
    if e == 0 then ans
    else PowLoop(MulRem(a, a, m, n), e / 2, m, if e % 2 == 1 then MulRem(ans, a, m, n) else ans, n)
  }

  /** Factors of half the register width are multiplied and reduced exactly. */
  lemma MulRemExact(x: nat, y: nat, m: nat, h: nat, n: nat)
    requires 0 < h && 2 * h <= n
    requires 0 < m <= P(h) && x < P(h) && y < P(h)
    ensures MulRem(x, y, m, n) == (x * y) % m < m
  {
    PAdd(h, h);
    PMonotone(2 * h, n);
    MulMonotone(x, P(h), y);
    MulMonotone(y + 1, P(h), P(h));
    assert (y + 1) * P(h) == y * P(h) + P(h);
    MulNonNegative(x, y);
    assert x * y < P(n);
    HalfFits(m, h, n);
    DivMeetsDivision(x * y, m, n);
  }

  lemma HalfFits(m: nat, h: nat, n: nat)
    requires 0 < h && 2 * h <= n && 0 < m <= P(h)
    ensures DivisorFits(m, n)
  {
    PMonotone(h + 1, n);
    assert P(h + 1) == BASE * P(h);
  }

  lemma {:induction false} ExpSquare(a: nat, e: nat)
    ensures a * a >= 0 && Exp(a * a, e) == Exp(a, 2 * e)
  {
    MulNonNegative(a, a);
    if e > 0 {
      ExpSquare(a, e - 1);
      var t := Exp(a, 2 * e - 2);
      assert Exp(a, 2 * e) == a * Exp(a, 2 * e - 1) == a * (a * t);
      assert a * (a * t) == (a * a) * t;
    }
  }

  lemma {:induction false} ExpMod(a: nat, e: nat, m: nat)
    requires m > 0
    ensures Exp(a % m, e) % m == Exp(a, e) % m
  {
    if e > 0 {
      var u, v := Exp(a % m, e - 1), Exp(a, e - 1);
      ExpMod(a, e - 1, m);
      SameFactor(a, u, v, m);
      ModMul(a, u, m);
    }
  }

  /** One turn of the loop keeps ans * a^e, modulo m. */
  lemma PowTurn(a: nat, h: nat, m: nat, ans: nat)
    requires m > 0
    ensures (ans * Exp((a * a) % m, h)) % m == (ans * Exp(a, 2 * h)) % m
    ensures (((ans * a) % m) * Exp((a * a) % m, h)) % m == (ans * Exp(a, 2 * h + 1)) % m
  {
    MulNonNegative(a, a);
    MulNonNegative(ans, a);
    var s := Exp((a * a) % m, h);
    var t := Exp(a, 2 * h);
    ExpMod(a * a, h, m);
    ExpSquare(a, h);
    SameFactor(ans, s, t, m);
    SameFactor(ans * a, s, t, m);
    ModMul(ans * a, s, m);
    assert Exp(a, 2 * h + 1) == a * t;
    assert (ans * a) * t == ans * (a * t);
  }

  lemma SameFactor(c: nat, s: nat, t: nat, m: nat)
    requires m > 0 && s % m == t % m
    ensures (c * s) % m == (c * t) % m
  {
    ModMul(s, c, m);
    ModMul(t, c, m);
    assert c * s == s * c && c * t == t * c;
  }

  /** The loop multiplies a^e into the answer, modulo m. */
  lemma {:induction false} PowLoopExact(a: nat, e: nat, m: nat, ans: nat, h: nat, n: nat)
    requires 0 < h && 2 * h <= n
    requires 0 < m <= P(h) && a < P(h) && ans < P(h)
    ensures PowLoop(a, e, m, ans, n) == if e == 0 then ans else (ans * Exp(a, e)) % m
    decreases e
  {
    if e > 0 {
      MulRemExact(a, a, m, h, n);
      MulRemExact(ans, a, m, h, n);
      var ans2 := if e % 2 == 1 then MulRem(ans, a, m, n) else ans;
      PowLoopExact(MulRem(a, a, m, n), e / 2, m, ans2, h, n);
      PowTurn(a, e / 2, m, ans);
      if e == 1 {
        assert Exp(a, 1) == a * Exp(a, 0) == a;
      }
    }
  }

  /** base^exp mod modulus for every exponent, no product cut, whenever base and modulus
      have half the register's width. Modulus 1 with exponent 0 is the one exception: the
      loop then returns 1. */
  lemma PowCorrect(a: nat, e: nat, m: nat, h: nat, n: nat)
    requires 0 < h && 2 * h <= n
    requires 0 < m <= P(h) && a < P(h)
    ensures PowLoop(a, e, m, 1, n) == Exp(a, e) % m <==> m > 1 || e > 0
  {
    assert P(h) == BASE * P(h - 1);
    PowLoopExact(a, e, m, 1, h, n);
    if e == 0 && m > 1 {
      DivUnique(1, m, 0, 1);
    }
  }

  lemma {:induction false} PModThree(k: nat)
    ensures P(k) % 3 == 1
  {
    if k > 0 {
      PModThree(k - 1);
    }
  }

  lemma ZeroMod(m: nat, h: nat, n: nat)
    requires 0 < h && 2 * h <= n && 0 < m <= P(h)
    ensures MulRem(1, 0, m, n) == 0 && MulRem(0, 0, m, n) == 0
  {
    MulRemExact(1, 0, m, h, n);
    MulRemExact(0, 0, m, h, n);
    DivUnique(0, m, 0, 0);
  }

  lemma SquareCut(m: nat, h: nat)
    ensures MulRem(P(h), P(h), m, 2 * h) == MulRem(0, 0, m, 2 * h)
  {
    PAdd(h, h);
    DivUnique(P(2 * h), P(2 * h), 1, 0);
  }

  /** One past the bound the square is cut: P(h)^2 modulo 3 is 1, the loop gives 0. */
  lemma PowCutAboveBound(h: nat)
    requires h > 0
    ensures PowLoop(P(h), 2, 3, 1, 2 * h) == 0
    ensures Exp(P(h), 2) % 3 == 1
  {
    assert P(h) == BASE * P(h - 1);
    ZeroMod(3, h, 2 * h);
    SquareCut(3, h);
    assert PowLoop(0, 1, 3, 1, 2 * h) == 0;
    ExpTwo(P(h));
    PModThree(h);
    ModMul(P(h), P(h), 3);
  }

  lemma ExpTwo(a: nat)
    ensures Exp(a, 2) == a * a
  {
    assert Exp(a, 1) == a * Exp(a, 0) == a;
  }

  //////////////////////////////////////////////////////////////////////////////
  // Where the modular power is right
  //////////////////////////////////////////////////////////////////////////////

  /** One product of the loop is the product modulo k. */
  predicate Reduces(x: nat, y: nat, m: nat, k: nat, n: nat)
    requires k > 0
  {
    MulRem(x, y, m, n) == (x * y) % k
  }

  /** If every product is reduced modulo k, so is the power. */
  lemma {:induction false} PowLoopModulo(a: nat, e: nat, m: nat, k: nat, ans: nat, n: nat)
    requires k > 0 && a < k && ans < k
    requires forall x: nat, y: nat :: x < k && y < k ==> Reduces(x, y, m, k, n)
    ensures PowLoop(a, e, m, ans, n) == (ans * Exp(a, e)) % k
    decreases e
  {
    if e == 0 {
      assert ans * Exp(a, 0) == ans;
      DivUnique(ans, k, 0, ans);
    } else {
      assert Reduces(a, a, m, k, n) && Reduces(ans, a, m, k, n);
      var ans2 := if e % 2 == 1 then MulRem(ans, a, m, n) else ans;
      PowLoopModulo(MulRem(a, a, m, n), e / 2, m, k, ans2, n);
      PowTurn(a, e / 2, k, ans);
    }
  }

  /** Modulus 0 gives the power modulo the register. */
  lemma PowModulusZero(a: nat, e: nat, n: nat)
    requires n > 0 && a < P(n)
    ensures PowLoop(a, e, 0, 1, n) == Exp(a, e) % P(n)
  {
    assert P(n) == BASE * P(n - 1);
    forall x: nat, y: nat | x < P(n) && y < P(n)
      ensures Reduces(x, y, 0, P(n), n)
    {
      DivByZero(Cut(MulNat(x, y), n), 0, n);
    }
    PowLoopModulo(a, e, 0, P(n), 1, n);
  }

  /** A modulus that divides the register's size does not notice the cut. */
  lemma CutUnnoticed(x: nat, m: nat, n: nat)
    requires m > 0 && P(n) % m == 0
    ensures Cut(x, n) % m == x % m
  {
    var c := CutWrap(x, n);
    var q := P(n) / m;
    assert P(n) == q * m;
    assert x == Cut(x, n) + (c * q) * m by {
      MulAssoc(c, q, m, P(n));
    }
    ModOfMultiple(Cut(x, n), c * q, m);
  }

  /** Squaring: what the loop makes of exponent 2. */
  lemma PowOfTwo(a: nat, m: nat, n: nat)
    requires 1 < m && DivisorFits(m, n)
    ensures PowLoop(a, 2, m, 1, n) == Cut(MulNat(a, a), n) % m
    ensures Exp(a, 2) % m == (a * a) % m
  {
    var s := Cut(MulNat(a, a), n);
    DivMeetsDivision(s, m, n);
    var r := MulRem(a, a, m, n);
    assert r == s % m && r < m;
    MulMonotone(1, BASE - 1, m);
    assert Cut(MulNat(1, r), n) == r;
    DivMeetsDivision(r, m, n);
    DivUnique(r, m, 0, r);
    assert MulRem(1, r, m, n) == r;
    assert PowLoop(r, 1, m, 1, n) == PowLoop(MulRem(r, r, m, n), 0, m, r, n) == r;
    ExpTwo(a);
  }

  /** For a modulus the division can handle, the power is right for all reduced bases and
      all exponents exactly when the modulus has half the width or divides the register's
      size. */
  lemma PowModulusIff(m: nat, h: nat)
    requires h > 0 && 1 < m && DivisorFits(m, 2 * h)
    ensures (forall a: nat, e: nat | a < m :: PowLoop(a, e, m, 1, 2 * h) == Exp(a, e) % m)
            <==> m <= P(h) || P(2 * h) % m == 0
  {
    var n := 2 * h;
    if m <= P(h) {
      forall a: nat, e: nat | a < m
        ensures PowLoop(a, e, m, 1, n) == Exp(a, e) % m
      {
        PowCorrect(a, e, m, h, n);
      }
    } else if P(n) % m == 0 {
      forall x: nat, y: nat | x < m && y < m
        ensures Reduces(x, y, m, m, n)
      {
        DivMeetsDivision(Cut(MulNat(x, y), n), m, n);
        CutUnnoticed(MulNat(x, y), m, n);
      }
      forall a: nat, e: nat | a < m
        ensures PowLoop(a, e, m, 1, n) == Exp(a, e) % m
      {
        PowLoopModulo(a, e, m, m, 1, n);
      }
    } else {
      PowOfTwo(P(h), m, n);
      PAdd(h, h);
      DivUnique(P(n), P(n), 1, 0);
      assert Cut(MulNat(P(h), P(h)), n) == 0;
      DivUnique(0, m, 0, 0);
      assert PowLoop(P(h), 2, m, 1, n) != Exp(P(h), 2) % m;
    }
  }

  //////////////////////////////////////////////////////////////////////////////
  // A modulus that notices the cut
  //////////////////////////////////////////////////////////////////////////////

  predicate Divides(d: nat, x: nat)
    requires d > 0
  {
    x % d == 0
  }

  lemma DividesBy(d: nat, x: nat, q: nat)
    requires d > 0 && x == q * d
    ensures Divides(d, x) && x / d == q
  {
    DivUnique(x, d, q, 0);
  }

  /** An odd number that divides twice x divides x. */
  lemma OddHalf(d: nat, x: nat)
    requires d % 2 == 1 && Divides(d, 2 * x)
    ensures Divides(d, x)
  {
    var q := (2 * x) / d;
    assert 2 * x == q * d;
    if q % 2 == 1 {
      OddTimesOdd(q, d);
    }
    var k := q / 2;
    assert q == 2 * k;
    assert 2 * x == 2 * (k * d) by {
      MulAssoc(2, k, d, k * d);
    }
    DividesBy(d, x, k);
  }

  lemma OddTimesOdd(x: nat, y: nat)
    requires x % 2 == 1 && y % 2 == 1
    ensures (x * y) % 2 == 1
  {
    ModMul(x, y, 2);
  }

  function Two(j: nat): nat {
    if j == 0 then 1 else 2 * Two(j - 1)
  }

  lemma {:induction false} OddTwo(d: nat, x: nat, j: nat)
    requires d % 2 == 1 && 0 <= x * Two(j) && Divides(d, x * Two(j))
    ensures Divides(d, x)
    decreases j
  {
    if j > 0 {
      MulNonNegative(x, Two(j - 1));
      assert x * Two(j) == 2 * (x * Two(j - 1));
      OddHalf(d, x * Two(j - 1));
      OddTwo(d, x, j - 1);
    } else {
      assert x * Two(0) == x;
    }
  }

  lemma BaseIsTwo()
    ensures Two(32) == BASE
  {
    assert Two(8) == 256;
    assert Two(16) == 65536;
    assert Two(24) == 0x100_0000;
  }

  lemma {:induction false} OddLimbs(d: nat, x: nat, k: nat)
    requires d % 2 == 1 && 0 <= x * P(k) && Divides(d, x * P(k))
    ensures Divides(d, x)
    decreases k
  {
    if k == 0 {
      assert x * P(0) == x;
    } else {
      hide Two;
      MulNonNegative(x, BASE);
      MulNonNegative(x * BASE, P(k - 1));
      MulAssoc(x, BASE, P(k - 1), P(k));
      OddLimbs(d, x * BASE, k - 1);
      BaseIsTwo();
      OddTwo(d, x, 32);
    }
  }

  /** Dividing x - d out of a multiple of x. */
  lemma NextOdd(x: nat, d: nat, q: nat, k: nat)
    requires d % 2 == 1 && Divides(d, q * x) && x == d + 2 * k
    ensures 2 * k * q >= 0 && Divides(d, 2 * (k * q))
  {
    MulNonNegative(k, q);
    assert q * x == 2 * (k * q) + q * d;
    ModOfMultiple(2 * (k * q), q, d);
  }

  lemma OddTriple(d: nat, q: nat)
    requires d % 2 == 1 && Divides(d, 8 * q)
    ensures Divides(d, q)
  {
    assert 8 * q == 2 * (4 * q) && 4 * q == 2 * (2 * q);
    OddHalf(d, 4 * q);
    OddHalf(d, 2 * q);
    OddHalf(d, q);
  }

  /** Three odd numbers in a row have no factor in common: what all of them divide is at
      least as large as their product. */
  lemma TripleBound(c: nat, x: nat)
    requires x >= 9 && x % 2 == 1 && c > 0
    requires Divides(x, c) && Divides(x - 2, c) && Divides(x - 4, c)
    ensures c >= (x - 4) * (x - 2) * x
  {
    hide Divides;
    var q2 := OddPair(c, x);
    Regroup(q2, x);
    LastOdd(q2, c, x);
    MulNonNegative(x - 4, x - 2);
    MulMonotone(x - 4, q2, x - 2);
    MulMonotone((x - 4) * (x - 2), q2 * (x - 2), x);
  }

  lemma OddPair(c: nat, x: nat) returns (q: nat)
    requires x >= 9 && x % 2 == 1 && Divides(x, c) && Divides(x - 2, c)
    ensures c == (q * (x - 2)) * x
  {
    var q1 := c / x;
    assert c == q1 * x;
    NextOdd(x, x - 2, q1, 1);
    OddHalf(x - 2, q1);
    q := q1 / (x - 2);
    assert q1 == q * (x - 2);
  }

  lemma LastOdd(q: nat, c: nat, x: nat)
    requires x >= 9 && x % 2 == 1 && c > 0 && Divides(x - 4, c)
    requires c == (q * (x - 2)) * x == 8 * q + (q * (x + 2)) * (x - 4)
    ensures q >= x - 4
  {
    MulNonNegative(q, x + 2);
    ModOfMultiple(8 * q, q * (x + 2), x - 4);
    OddTriple(x - 4, q);
    var q3 := q / (x - 4);
    assert q == q3 * (x - 4);
    MulNonNegative(q, x - 2);
    PositiveFactor(q * (x - 2), x);
    PositiveFactor(q, x - 2);
    PositiveFactor(q3, x - 4);
    MulMonotone(1, q3, x - 4);
  }

  lemma PositiveFactor(q: nat, x: nat)
    requires q * x > 0
    ensures q > 0
  {
    assert 0 * x == 0;
  }

  lemma Regroup(q: nat, x: nat)
    requires x >= 4
    ensures (q * (x - 2)) * x == 8 * q + (q * (x + 2)) * (x - 4)
  {
    assert (x - 2) * x == (x + 2) * (x - 4) + 8;
    assert (q * (x - 2)) * x == q * ((x - 2) * x);
    assert (q * (x + 2)) * (x - 4) == q * ((x + 2) * (x - 4));
  }

  lemma Cube(x: nat)
    requires x >= 9
    ensures (x - 4) * (x - 2) * x >= (x + 1) * (x + 1)
  {
    MulMonotone(5, x - 4, x - 2);
    MulMonotone(2 * x, (x - 4) * (x - 2), x);
    MulMonotone(9, x, x);
    assert (x + 1) * (x + 1) == x * x + 2 * x + 1;
  }

  lemma PEven(k: nat)
    requires k > 0
    ensures P(k) % 2 == 0 && P(k) >= BASE
  {
    assert P(k) == BASE * P(k - 1);
    MulMonotone(1, P(k - 1), BASE);
    assert P(k) == 2 * (0x8000_0000 * P(k - 1));
  }

  /** Some odd modulus of half the width does not divide c. */
  lemma NoticingModulus(c: nat, h: nat) returns (m: nat)
    requires h > 0 && 0 < c < P(2 * h)
    ensures 1 < m <= P(h) && m % 2 == 1 && !Divides(m, c)
  {
    hide P;
    PEven(h);
    PAdd(h, h);
    var x := P(h) - 1;
    if !Divides(x, c) {
      m := x;
    } else if !Divides(x - 2, c) {
      m := x - 2;
    } else {
      m := x - 4;
      if Divides(x - 4, c) {
        TripleBound(c, x);
        Cube(x);
      }
    }
  }

  /** The program's power is right for a base, with every exponent and every modulus of half
      the width, exactly when the base has half the width too. */
  lemma PowBaseRightIff(a: nat, h: nat)
    requires h > 0 && a < P(2 * h)
    ensures (forall e: nat, m: nat | 1 < m <= P(h) :: PowLoop(a, e, m, 1, 2 * h) == Exp(a, e) % m) <==> a < P(h)
  {
    if a < P(h) {
      forall e: nat, m: nat | 1 < m <= P(h)
        ensures PowLoop(a, e, m, 1, 2 * h) == Exp(a, e) % m
      {
        PowCorrect(a, e, m, h, 2 * h);
      }
    } else {
      var m := WrongSquare(a, h);
    }
  }

  lemma WrongSquare(a: nat, h: nat) returns (m: nat)
    requires h > 0 && P(h) <= a < P(2 * h)
    ensures 1 < m <= P(h) && PowLoop(a, 2, m, 1, 2 * h) != Exp(a, 2) % m
  {
    var n := 2 * h;
    PAdd(h, h);
    MulNonNegative(a, a);
    var c := CutWrap(a * a, n);
    SquareRange(a, P(h), P(n), c, Cut(a * a, n));
    m := NoticingModulus(c, h);
    HalfFits(m, h, n);
    PowOfTwo(a, m, n);
    MulNonNegative(c, P(n));
    if Cut(a * a, n) % m == (a * a) % m {
      SameResidue(a * a, Cut(a * a, n), c * P(n), m);
      OddLimbs(m, c, n);
    }
  }

  lemma SquareRange(a: nat, p: nat, m: nat, c: nat, r: nat)
    requires m == p * p && p <= a < m && a * a == c * m + r && r < m
    ensures 0 < c < m
  {
    MulMonotone(p, a, a);
    MulMonotone(p, a, p);
    assert 0 * m == 0;
    MulMonotone(a + 1, m, a);
    MulMonotone(a + 1, m, m);
    if c >= m {
      MulMonotone(m, c, m);
    }
  }

  lemma SameResidue(x: nat, y: nat, z: nat, m: nat)
    requires m > 0 && x == y + z && x % m == y % m
    ensures z % m == 0
  {
    var p, q := x / m, y / m;
    assert z == (p - q) * m;
    ModOfMultiple(0, p - q, m);
  }
}
