/** What the functions and constants of Sha256 are, independently of how they are written
    there: the logical functions bit by bit, the constants as roots of primes, words as
    numbers, and the digest of "abc" that the examples of FIPS 180-4 publish. */
module Sha256Facts {
  import opened Arithmetic
  import opened Bytes
  import opened Sha256

  //////////////////////////////////////////////////////////////////////////////
  // Logical functions (section 4.1.2)
  //////////////////////////////////////////////////////////////////////////////

  /** Where x has a one, Ch takes the bit of y, elsewhere that of z. */
  lemma ChChooses(x: bv32, y: bv32, z: bv32)
    ensures Ch(x, y, z) & x == y & x
    ensures Ch(x, y, z) & !x == z & !x
  {
  }

  /** Where two of the words agree, Maj has their bit. */
  lemma MajVotes(x: bv32, y: bv32, z: bv32)
    ensures Maj(x, y, z) & !(x ^ y) == x & !(x ^ y)
    ensures Maj(x, y, z) & !(x ^ z) == x & !(x ^ z)
    ensures Maj(x, y, z) & !(y ^ z) == y & !(y ^ z)
  {
    hide Maj;
    assert Maj(x, y, z) & !(x ^ y) == x & !(x ^ y) by { MajFirstTwo(x, y, z); }
    assert Maj(x, y, z) & !(x ^ z) == x & !(x ^ z) by { MajOuterTwo(x, y, z); }
    assert Maj(x, y, z) & !(y ^ z) == y & !(y ^ z) by { MajLastTwo(x, y, z); }
  }

  lemma MajFirstTwo(x: bv32, y: bv32, z: bv32)
    ensures Maj(x, y, z) & !(x ^ y) == x & !(x ^ y)
  {
  }

  lemma MajOuterTwo(x: bv32, y: bv32, z: bv32)
    ensures Maj(x, y, z) & !(x ^ z) == x & !(x ^ z)
  {
  }

  lemma MajLastTwo(x: bv32, y: bv32, z: bv32)
    ensures Maj(x, y, z) & !(y ^ z) == y & !(y ^ z)
  {
  }

  /** A single bit goes to its three places. */
  lemma SigmaBits()
    ensures BigSigma0(0x8000_0000) == 0x2004_0200
    ensures BigSigma1(0x8000_0000) == 0x0210_0040
    ensures SmallSigma0(0x8000_0000) == 0x1100_2000 && SmallSigma0(1) == 0x0200_4000
    ensures SmallSigma1(0x8000_0000) == 0x0020_5000 && SmallSigma1(1) == 0x0000_a000
  {
  }

  //////////////////////////////////////////////////////////////////////////////
  // Constants (sections 4.2.2 and 5.3.3)
  //////////////////////////////////////////////////////////////////////////////

  ghost predicate Prime(n: nat) {
    n >= 2 && forall d :: 2 <= d < n ==> n % d != 0
  }

  /** How many primes there are below n. */
  ghost function PrimesBelow(n: nat): nat {
    if n == 0 then 0 else PrimesBelow(n - 1) + (if Prime(n - 1) then 1 else 0)
  }

  /** Trial division, which below 361 decides who is prime. */
  predicate Undivided(n: nat) {
    && n >= 2
    && (n == 2 || n % 2 != 0) && (n == 3 || n % 3 != 0) && (n == 5 || n % 5 != 0) && (n == 7 || n % 7 != 0)
    && (n == 11 || n % 11 != 0) && (n == 13 || n % 13 != 0) && (n == 17 || n % 17 != 0)
  }

  /** Between p and q there are only numbers that trial division divides. */
  predicate NoneBetween(p: nat, q: nat)
    decreases q - p
  {
    p + 1 >= q || (!Undivided(p + 1) && NoneBetween(p + 1, q))
  }

  lemma SmallDivisor(n: nat, d: nat)
    requires Undivided(n) && 2 <= d <= 18 && d < n
    ensures n % d != 0
  {
    if d in {4, 6, 8, 10, 12, 14, 16, 18} {
      if n % d == 0 { PartDivides(n, d, 2); }
    } else if d in {9, 15} {
      if n % d == 0 { PartDivides(n, d, 3); }
    }
  }

  lemma PartDivides(n: nat, d: nat, e: nat)
    requires 0 < e && 0 < d && d % e == 0 && n % d == 0
    ensures n % e == 0
  {
    var q, k := n / d, d / e;
    assert n == q * (k * e) == (q * k) * e;
    ModOfMultiple(0, q * k, e);
  }

  lemma NoDivisor(n: nat, d: nat)
    requires Undivided(n) && 2 <= d < n < 361
    ensures n % d != 0
  {
    hide Undivided;
    if d <= 18 {
      SmallDivisor(n, d);
    } else if n % d == 0 {
      var q := n / d;
      assert n == q * d;
      if q <= 1 {
        MulMonotone(q, 1, d);
      } else if q >= 19 {
        MulMonotone(19, q, d);
      } else {
        DivUnique(n, q, d, 0);
        SmallDivisor(n, q);
      }
    }
  }

  lemma PrimeIff(n: nat)
    requires n < 361
    ensures Prime(n) <==> Undivided(n)
  {
    if Undivided(n) {
      forall d | 2 <= d < n
        ensures n % d != 0
      {
        NoDivisor(n, d);
      }
    }
  }

  lemma {:induction false} NextPrime(p: nat, q: nat)
    requires p < q <= 361 && NoneBetween(p, q)
    ensures PrimesBelow(q) == PrimesBelow(p) + (if Undivided(p) then 1 else 0)
    decreases q - p
  {
    hide Prime, Undivided;
    PrimeIff(p);
    if p + 1 < q {
      NextPrime(p + 1, q);
    }
  }

  /** The prime number t, counted from 0. */
  ghost predicate NthPrime(t: nat, p: nat) {
    Prime(p) && PrimesBelow(p) == t
  }

  function Square(x: nat): nat { x * x }

  function Cube(x: nat): nat { x * x * x }

  /** With c the whole part of the cube root of p, k is the first 32 bits of its
      fraction. */
  predicate CubeRootBits(p: nat, c: nat, k: bv32) {
    && Cube(c) <= p < Cube(c + 1)
    && Cube(c * 0x1_0000_0000 + k as int) <= p * 0x1_0000_0000_0000_0000_0000_0000
    && p * 0x1_0000_0000_0000_0000_0000_0000 < Cube(c * 0x1_0000_0000 + k as int + 1)
  }

  /** The same of the square root. */
  predicate SquareRootBits(p: nat, c: nat, k: bv32) {
    && Square(c) <= p < Square(c + 1)
    && Square(c * 0x1_0000_0000 + k as int) <= p * 0x1_0000_0000_0000_0000
    && p * 0x1_0000_0000_0000_0000 < Square(c * 0x1_0000_0000 + k as int + 1)
  }

  ghost predicate RoundConstant(t: nat, k: bv32) {
    exists p: nat, c: nat :: NthPrime(t, p) && CubeRootBits(p, c, k)
  }

  ghost predicate InitialWord(i: nat, h: bv32) {
    exists p: nat, c: nat :: NthPrime(i, p) && SquareRootBits(p, c, h)
  }

  lemma Constant(t: nat, p: nat, c: nat, k: bv32, next: nat)
    requires PrimesBelow(p) == t && Undivided(p) && CubeRootBits(p, c, k)
    requires p < next <= 361 && NoneBetween(p, next)
    ensures RoundConstant(t, k) && PrimesBelow(next) == t + 1
  {
    hide CubeRootBits, Undivided, Prime, NoneBetween, PrimesBelow;
    PrimeIff(p);
    NextPrime(p, next);
    assert NthPrime(t, p);
  }

  lemma Initial(i: nat, p: nat, c: nat, h: bv32, next: nat)
    requires PrimesBelow(p) == i && Undivided(p) && SquareRootBits(p, c, h)
    requires p < next <= 361 && NoneBetween(p, next)
    ensures InitialWord(i, h) && PrimesBelow(next) == i + 1
  {
    hide SquareRootBits, Undivided, Prime, NoneBetween, PrimesBelow;
    PrimeIff(p);
    NextPrime(p, next);
    assert NthPrime(i, p);
  }

  lemma NoneBelowTwo()
    ensures PrimesBelow(2) == 0
  {
    NextPrime(0, 2);
  }

  /** The initial hash value. */
  lemma InitialWords(i: nat)
    requires i < 8
    ensures InitialWord(i, H0()[i])
  {
    hide InitialWord, PrimesBelow;
    NoneBelowTwo();
    Initial(0, 2, 1, 0x6a09e667, 3);
    Initial(1, 3, 1, 0xbb67ae85, 5);
    Initial(2, 5, 2, 0x3c6ef372, 7);
    Initial(3, 7, 2, 0xa54ff53a, 11);
    Initial(4, 11, 3, 0x510e527f, 13);
    Initial(5, 13, 3, 0x9b05688c, 17);
    Initial(6, 17, 4, 0x1f83d9ab, 19);
    Initial(7, 19, 4, 0x5be0cd19, 23);
  }

  lemma Constants0()
    ensures forall t :: 0 <= t < 8 ==> RoundConstant(t, K()[t])
    ensures PrimesBelow(23) == 8
  {
    hide K, CubeRootBits, RoundConstant, PrimesBelow;
    KRow0();
    Roots0();
    NoneBelowTwo();
    Constant(0, 2, 1, 0x428a2f98, 3);
    Constant(1, 3, 1, 0x71374491, 5);
    Constant(2, 5, 1, 0xb5c0fbcf, 7);
    Constant(3, 7, 1, 0xe9b5dba5, 11);
    Constant(4, 11, 2, 0x3956c25b, 13);
    Constant(5, 13, 2, 0x59f111f1, 17);
    Constant(6, 17, 2, 0x923f82a4, 19);
    Constant(7, 19, 2, 0xab1c5ed5, 23);
  }

  lemma Roots0()
    ensures CubeRootBits(2, 1, 0x428a2f98)
    ensures CubeRootBits(3, 1, 0x71374491)
    ensures CubeRootBits(5, 1, 0xb5c0fbcf)
    ensures CubeRootBits(7, 1, 0xe9b5dba5)
    ensures CubeRootBits(11, 2, 0x3956c25b)
    ensures CubeRootBits(13, 2, 0x59f111f1)
    ensures CubeRootBits(17, 2, 0x923f82a4)
    ensures CubeRootBits(19, 2, 0xab1c5ed5)
  {
  }

  lemma KRow0()
    ensures K()[0] == 0x428a2f98 && K()[1] == 0x71374491
    ensures K()[2] == 0xb5c0fbcf && K()[3] == 0xe9b5dba5
    ensures K()[4] == 0x3956c25b && K()[5] == 0x59f111f1
    ensures K()[6] == 0x923f82a4 && K()[7] == 0xab1c5ed5
  {
  }

  lemma Constants1()
    ensures forall t :: 8 <= t < 16 ==> RoundConstant(t, K()[t])
    ensures PrimesBelow(59) == 16
  {
    hide K, CubeRootBits, RoundConstant, PrimesBelow;
    KRow1();
    Roots1();
    Constants0();
    Constant(8, 23, 2, 0xd807aa98, 29);
    Constant(9, 29, 3, 0x12835b01, 31);
    Constant(10, 31, 3, 0x243185be, 37);
    Constant(11, 37, 3, 0x550c7dc3, 41);
    Constant(12, 41, 3, 0x72be5d74, 43);
    Constant(13, 43, 3, 0x80deb1fe, 47);
    Constant(14, 47, 3, 0x9bdc06a7, 53);
    Constant(15, 53, 3, 0xc19bf174, 59);
  }

  lemma Roots1()
    ensures CubeRootBits(23, 2, 0xd807aa98)
    ensures CubeRootBits(29, 3, 0x12835b01)
    ensures CubeRootBits(31, 3, 0x243185be)
    ensures CubeRootBits(37, 3, 0x550c7dc3)
    ensures CubeRootBits(41, 3, 0x72be5d74)
    ensures CubeRootBits(43, 3, 0x80deb1fe)
    ensures CubeRootBits(47, 3, 0x9bdc06a7)
    ensures CubeRootBits(53, 3, 0xc19bf174)
  {
  }

  lemma KRow1()
    ensures K()[8] == 0xd807aa98 && K()[9] == 0x12835b01
    ensures K()[10] == 0x243185be && K()[11] == 0x550c7dc3
    ensures K()[12] == 0x72be5d74 && K()[13] == 0x80deb1fe
    ensures K()[14] == 0x9bdc06a7 && K()[15] == 0xc19bf174
  {
  }

  lemma Constants2()
    ensures forall t :: 16 <= t < 24 ==> RoundConstant(t, K()[t])
    ensures PrimesBelow(97) == 24
  {
    hide K, CubeRootBits, RoundConstant, PrimesBelow;
    KRow2();
    Roots2();
    Constants1();
    Constant(16, 59, 3, 0xe49b69c1, 61);
    Constant(17, 61, 3, 0xefbe4786, 67);
    Constant(18, 67, 4, 0x0fc19dc6, 71);
    Constant(19, 71, 4, 0x240ca1cc, 73);
    Constant(20, 73, 4, 0x2de92c6f, 79);
    Constant(21, 79, 4, 0x4a7484aa, 83);
    Constant(22, 83, 4, 0x5cb0a9dc, 89);
    Constant(23, 89, 4, 0x76f988da, 97);
  }

  lemma Roots2()
    ensures CubeRootBits(59, 3, 0xe49b69c1)
    ensures CubeRootBits(61, 3, 0xefbe4786)
    ensures CubeRootBits(67, 4, 0x0fc19dc6)
    ensures CubeRootBits(71, 4, 0x240ca1cc)
    ensures CubeRootBits(73, 4, 0x2de92c6f)
    ensures CubeRootBits(79, 4, 0x4a7484aa)
    ensures CubeRootBits(83, 4, 0x5cb0a9dc)
    ensures CubeRootBits(89, 4, 0x76f988da)
  {
  }

  lemma KRow2()
    ensures K()[16] == 0xe49b69c1 && K()[17] == 0xefbe4786
    ensures K()[18] == 0x0fc19dc6 && K()[19] == 0x240ca1cc
    ensures K()[20] == 0x2de92c6f && K()[21] == 0x4a7484aa
    ensures K()[22] == 0x5cb0a9dc && K()[23] == 0x76f988da
  {
  }

  lemma Constants3()
    ensures forall t :: 24 <= t < 32 ==> RoundConstant(t, K()[t])
    ensures PrimesBelow(137) == 32
  {
    hide K, CubeRootBits, RoundConstant, PrimesBelow;
    KRow3();
    Roots3();
    Constants2();
    Constant(24, 97, 4, 0x983e5152, 101);
    Constant(25, 101, 4, 0xa831c66d, 103);
    Constant(26, 103, 4, 0xb00327c8, 107);
    Constant(27, 107, 4, 0xbf597fc7, 109);
    Constant(28, 109, 4, 0xc6e00bf3, 113);
    Constant(29, 113, 4, 0xd5a79147, 127);
    Constant(30, 127, 5, 0x06ca6351, 131);
    Constant(31, 131, 5, 0x14292967, 137);
  }

  lemma Roots3()
    ensures CubeRootBits(97, 4, 0x983e5152)
    ensures CubeRootBits(101, 4, 0xa831c66d)
    ensures CubeRootBits(103, 4, 0xb00327c8)
    ensures CubeRootBits(107, 4, 0xbf597fc7)
    ensures CubeRootBits(109, 4, 0xc6e00bf3)
    ensures CubeRootBits(113, 4, 0xd5a79147)
    ensures CubeRootBits(127, 5, 0x06ca6351)
    ensures CubeRootBits(131, 5, 0x14292967)
  {
  }

  lemma KRow3()
    ensures K()[24] == 0x983e5152 && K()[25] == 0xa831c66d
    ensures K()[26] == 0xb00327c8 && K()[27] == 0xbf597fc7
    ensures K()[28] == 0xc6e00bf3 && K()[29] == 0xd5a79147
    ensures K()[30] == 0x06ca6351 && K()[31] == 0x14292967
  {
  }

  lemma Constants4()
    ensures forall t :: 32 <= t < 40 ==> RoundConstant(t, K()[t])
    ensures PrimesBelow(179) == 40
  {
    hide K, CubeRootBits, RoundConstant, PrimesBelow;
    KRow4();
    Roots4();
    Constants3();
    Constant(32, 137, 5, 0x27b70a85, 139);
    Constant(33, 139, 5, 0x2e1b2138, 149);
    Constant(34, 149, 5, 0x4d2c6dfc, 151);
    Constant(35, 151, 5, 0x53380d13, 157);
    Constant(36, 157, 5, 0x650a7354, 163);
    Constant(37, 163, 5, 0x766a0abb, 167);
    Constant(38, 167, 5, 0x81c2c92e, 173);
    Constant(39, 173, 5, 0x92722c85, 179);
  }

  lemma Roots4()
    ensures CubeRootBits(137, 5, 0x27b70a85)
    ensures CubeRootBits(139, 5, 0x2e1b2138)
    ensures CubeRootBits(149, 5, 0x4d2c6dfc)
    ensures CubeRootBits(151, 5, 0x53380d13)
    ensures CubeRootBits(157, 5, 0x650a7354)
    ensures CubeRootBits(163, 5, 0x766a0abb)
    ensures CubeRootBits(167, 5, 0x81c2c92e)
    ensures CubeRootBits(173, 5, 0x92722c85)
  {
  }

  lemma KRow4()
    ensures K()[32] == 0x27b70a85 && K()[33] == 0x2e1b2138
    ensures K()[34] == 0x4d2c6dfc && K()[35] == 0x53380d13
    ensures K()[36] == 0x650a7354 && K()[37] == 0x766a0abb
    ensures K()[38] == 0x81c2c92e && K()[39] == 0x92722c85
  {
  }

  lemma Constants5()
    ensures forall t :: 40 <= t < 48 ==> RoundConstant(t, K()[t])
    ensures PrimesBelow(227) == 48
  {
    hide K, CubeRootBits, RoundConstant, PrimesBelow;
    KRow5();
    Roots5();
    Constants4();
    Constant(40, 179, 5, 0xa2bfe8a1, 181);
    Constant(41, 181, 5, 0xa81a664b, 191);
    Constant(42, 191, 5, 0xc24b8b70, 193);
    Constant(43, 193, 5, 0xc76c51a3, 197);
    Constant(44, 197, 5, 0xd192e819, 199);
    Constant(45, 199, 5, 0xd6990624, 211);
    Constant(46, 211, 5, 0xf40e3585, 223);
    Constant(47, 223, 6, 0x106aa070, 227);
  }

  lemma Roots5()
    ensures CubeRootBits(179, 5, 0xa2bfe8a1)
    ensures CubeRootBits(181, 5, 0xa81a664b)
    ensures CubeRootBits(191, 5, 0xc24b8b70)
    ensures CubeRootBits(193, 5, 0xc76c51a3)
    ensures CubeRootBits(197, 5, 0xd192e819)
    ensures CubeRootBits(199, 5, 0xd6990624)
    ensures CubeRootBits(211, 5, 0xf40e3585)
    ensures CubeRootBits(223, 6, 0x106aa070)
  {
  }

  lemma KRow5()
    ensures K()[40] == 0xa2bfe8a1 && K()[41] == 0xa81a664b
    ensures K()[42] == 0xc24b8b70 && K()[43] == 0xc76c51a3
    ensures K()[44] == 0xd192e819 && K()[45] == 0xd6990624
    ensures K()[46] == 0xf40e3585 && K()[47] == 0x106aa070
  {
  }

  lemma Constants6()
    ensures forall t :: 48 <= t < 56 ==> RoundConstant(t, K()[t])
    ensures PrimesBelow(269) == 56
  {
    hide K, CubeRootBits, RoundConstant, PrimesBelow;
    KRow6();
    Roots6();
    Constants5();
    Constant(48, 227, 6, 0x19a4c116, 229);
    Constant(49, 229, 6, 0x1e376c08, 233);
    Constant(50, 233, 6, 0x2748774c, 239);
    Constant(51, 239, 6, 0x34b0bcb5, 241);
    Constant(52, 241, 6, 0x391c0cb3, 251);
    Constant(53, 251, 6, 0x4ed8aa4a, 257);
    Constant(54, 257, 6, 0x5b9cca4f, 263);
    Constant(55, 263, 6, 0x682e6ff3, 269);
  }

  lemma Roots6()
    ensures CubeRootBits(227, 6, 0x19a4c116)
    ensures CubeRootBits(229, 6, 0x1e376c08)
    ensures CubeRootBits(233, 6, 0x2748774c)
    ensures CubeRootBits(239, 6, 0x34b0bcb5)
    ensures CubeRootBits(241, 6, 0x391c0cb3)
    ensures CubeRootBits(251, 6, 0x4ed8aa4a)
    ensures CubeRootBits(257, 6, 0x5b9cca4f)
    ensures CubeRootBits(263, 6, 0x682e6ff3)
  {
  }

  lemma KRow6()
    ensures K()[48] == 0x19a4c116 && K()[49] == 0x1e376c08
    ensures K()[50] == 0x2748774c && K()[51] == 0x34b0bcb5
    ensures K()[52] == 0x391c0cb3 && K()[53] == 0x4ed8aa4a
    ensures K()[54] == 0x5b9cca4f && K()[55] == 0x682e6ff3
  {
  }

  lemma Constants7()
    ensures forall t :: 56 <= t < 64 ==> RoundConstant(t, K()[t])
    ensures PrimesBelow(313) == 64
  {
    hide K, CubeRootBits, RoundConstant, PrimesBelow;
    KRow7();
    Roots7();
    Constants6();
    Constant(56, 269, 6, 0x748f82ee, 271);
    Constant(57, 271, 6, 0x78a5636f, 277);
    Constant(58, 277, 6, 0x84c87814, 281);
    Constant(59, 281, 6, 0x8cc70208, 283);
    Constant(60, 283, 6, 0x90befffa, 293);
    Constant(61, 293, 6, 0xa4506ceb, 307);
    Constant(62, 307, 6, 0xbef9a3f7, 311);
    Constant(63, 311, 6, 0xc67178f2, 313);
  }

  lemma Roots7()
    ensures CubeRootBits(269, 6, 0x748f82ee)
    ensures CubeRootBits(271, 6, 0x78a5636f)
    ensures CubeRootBits(277, 6, 0x84c87814)
    ensures CubeRootBits(281, 6, 0x8cc70208)
    ensures CubeRootBits(283, 6, 0x90befffa)
    ensures CubeRootBits(293, 6, 0xa4506ceb)
    ensures CubeRootBits(307, 6, 0xbef9a3f7)
    ensures CubeRootBits(311, 6, 0xc67178f2)
  {
  }

  lemma KRow7()
    ensures K()[56] == 0x748f82ee && K()[57] == 0x78a5636f
    ensures K()[58] == 0x84c87814 && K()[59] == 0x8cc70208
    ensures K()[60] == 0x90befffa && K()[61] == 0xa4506ceb
    ensures K()[62] == 0xbef9a3f7 && K()[63] == 0xc67178f2
  {
  }

  /** The round constants. */
  lemma RoundConstants(t: nat)
    requires t < 64
    ensures RoundConstant(t, K()[t])
  {
    hide RoundConstant, PrimesBelow, K;
    Constants0();
    Constants1();
    Constants2();
    Constants3();
    Constants4();
    Constants5();
    Constants6();
    Constants7();
  }

  //////////////////////////////////////////////////////////////////////////////
  // Words and bytes (section 3.1)
  //////////////////////////////////////////////////////////////////////////////

  function Number(x: bv32): nat { x as int }

  function Digit(one: bool): nat { if one then 1 else 0 }

  /** One more binary digit. */
  function Double(x: bv32, one: bool): bv32 {
    if one then (x << 1) | 1 else x << 1
  }

  lemma Even(x: bv32)
    requires x < 0x8000_0000
    ensures (x << 1) as int == 2 * (x as int)
  {
  }

  lemma Odd(x: bv32)
    requires x < 0x8000_0000
    ensures ((x << 1) | 1) as int == 2 * (x as int) + 1
  {
  }

  lemma DoubleNumber(x: bv32, one: bool)
    requires x < 0x8000_0000
    ensures Double(x, one) as int == 2 * (x as int) + Digit(one)
  {
    if one {
      Odd(x);
    } else {
      Even(x);
    }
  }

  /** A word with the first i bits of a byte behind it. */
  function WithBits(x: bv32, y: bv32, i: nat): bv32 {
    if i == 0 then x
    else if i == 1 then (x << 1) | (y >> 7)
    else if i == 2 then (x << 2) | (y >> 6)
    else if i == 3 then (x << 3) | (y >> 5)
    else if i == 4 then (x << 4) | (y >> 4)
    else if i == 5 then (x << 5) | (y >> 3)
    else if i == 6 then (x << 6) | (y >> 2)
    else if i == 7 then (x << 7) | (y >> 1)
    else (x << 8) | y
  }

  /** Bit i of a byte, from the left. */
  function BitAt(y: bv32, i: nat): bool {
    if i == 0 then y & 0x80 != 0
    else if i == 1 then y & 0x40 != 0
    else if i == 2 then y & 0x20 != 0
    else if i == 3 then y & 0x10 != 0
    else if i == 4 then y & 0x8 != 0
    else if i == 5 then y & 0x4 != 0
    else if i == 6 then y & 0x2 != 0
    else y & 0x1 != 0
  }

  lemma Append0(x: bv32, y: bv32)
    requires x < 0x100_0000 && y < 0x100
    ensures WithBits(x, y, 1) == Double(WithBits(x, y, 0), BitAt(y, 0))
  {
  }

  lemma Append1(x: bv32, y: bv32)
    requires x < 0x100_0000 && y < 0x100
    ensures WithBits(x, y, 2) == Double(WithBits(x, y, 1), BitAt(y, 1))
  {
  }

  lemma Append2(x: bv32, y: bv32)
    requires x < 0x100_0000 && y < 0x100
    ensures WithBits(x, y, 3) == Double(WithBits(x, y, 2), BitAt(y, 2))
  {
  }

  lemma Append3(x: bv32, y: bv32)
    requires x < 0x100_0000 && y < 0x100
    ensures WithBits(x, y, 4) == Double(WithBits(x, y, 3), BitAt(y, 3))
  {
  }

  lemma Append4(x: bv32, y: bv32)
    requires x < 0x100_0000 && y < 0x100
    ensures WithBits(x, y, 5) == Double(WithBits(x, y, 4), BitAt(y, 4))
  {
  }

  lemma Append5(x: bv32, y: bv32)
    requires x < 0x100_0000 && y < 0x100
    ensures WithBits(x, y, 6) == Double(WithBits(x, y, 5), BitAt(y, 5))
  {
  }

  lemma Append6(x: bv32, y: bv32)
    requires x < 0x100_0000 && y < 0x100
    ensures WithBits(x, y, 7) == Double(WithBits(x, y, 6), BitAt(y, 6))
  {
  }

  lemma Append7(x: bv32, y: bv32)
    requires x < 0x100_0000 && y < 0x100
    ensures WithBits(x, y, 8) == Double(WithBits(x, y, 7), BitAt(y, 7))
  {
  }

  lemma RoomForBits(x: bv32, y: bv32)
    requires x < 0x100_0000 && y < 0x100
    ensures WithBits(x, y, 0) < 0x8000_0000 && WithBits(x, y, 1) < 0x8000_0000
    ensures WithBits(x, y, 2) < 0x8000_0000 && WithBits(x, y, 3) < 0x8000_0000
    ensures WithBits(x, y, 4) < 0x8000_0000 && WithBits(x, y, 5) < 0x8000_0000
    ensures WithBits(x, y, 6) < 0x8000_0000 && WithBits(x, y, 7) < 0x8000_0000
  {
  }

  lemma AppendBit(x: bv32, y: bv32, i: nat)
    requires x < 0x100_0000 && y < 0x100 && i < 8
    ensures Spelled(x, y, i + 1) == 2 * Spelled(x, y, i) + Digit(BitAt(y, i))
  {
    hide WithBits, BitAt, Double, Digit;
    DoubleNumber(WithBits(x, y, i), BitAt(y, i)) by {
      RoomForBits(x, y);
    }
    assert WithBits(x, y, i + 1) == Double(WithBits(x, y, i), BitAt(y, i)) by {
      if i == 0 { Append0(x, y); }
      else if i == 1 { Append1(x, y); }
      else if i == 2 { Append2(x, y); }
      else if i == 3 { Append3(x, y); }
      else if i == 4 { Append4(x, y); }
      else if i == 5 { Append5(x, y); }
      else if i == 6 { Append6(x, y); }
      else { Append7(x, y); }
    }
  }

  function Spelled(x: bv32, y: bv32, i: nat): nat { WithBits(x, y, i) as int }

  /** The number that the eight low bits spell. */
  function LowNumber(y: bv32): nat {
    2 * (2 * (2 * (2 * (2 * (2 * (2 * Digit(BitAt(y, 0)) + Digit(BitAt(y, 1))) + Digit(BitAt(y, 2)))
    + Digit(BitAt(y, 3))) + Digit(BitAt(y, 4))) + Digit(BitAt(y, 5))) + Digit(BitAt(y, 6))) + Digit(BitAt(y, 7))
  }

  lemma AppendLow(x: bv32, y: bv32)
    requires x < 0x100_0000 && y < 0x100
    ensures Spelled(x, y, 8) == 256 * Spelled(x, y, 0) + LowNumber(y)
  {
    hide Spelled, BitAt, Digit;
    AppendBit(x, y, 0);
    AppendBit(x, y, 1);
    AppendBit(x, y, 2);
    AppendBit(x, y, 3);
    AppendBit(x, y, 4);
    AppendBit(x, y, 5);
    AppendBit(x, y, 6);
    AppendBit(x, y, 7);
  }

  lemma LowIsNumber(y: bv32)
    requires y < 0x100
    ensures LowNumber(y) == y as int
  {
    hide Spelled, LowNumber;
    AppendLow(0, y);
    SpelledEnds(0, y);
    NothingAbove(y);
  }

  lemma SpelledEnds(x: bv32, y: bv32)
    ensures Spelled(x, y, 0) == x as int && Spelled(x, y, 8) == ((x << 8) | y) as int
  {
  }

  lemma NothingAbove(y: bv32)
    ensures (0 << 8) | y == y
  {
  }

  /** A byte more at the end of a word. */
  lemma AppendByte(x: bv32, y: bv32)
    requires x < 0x100_0000 && y < 0x100
    ensures Number((x << 8) | y) == 256 * Number(x) + Number(y)
  {
    hide LowNumber, Spelled;
    AppendLow(x, y);
    LowIsNumber(y);
    SpelledEnds(x, y);
  }

  function WordOf(b: byte): bv32 { b as bv32 }

  lemma ByteAsWord(b: byte)
    ensures WordOf(b) < 0x100
  {
  }

  lemma ResidueBack(b: byte)
    ensures Number(WordOf(b)) == b % 0x1_0000_0000
  {
  }

  lemma ByteBack(b: byte)
    ensures Number(WordOf(b)) == b
  {
    hide Number, WordOf;
    ResidueBack(b);
  }

  lemma Nested(c0: bv32, c1: bv32, c2: bv32, c3: bv32)
    requires c0 < 0x100 && c1 < 0x100 && c2 < 0x100 && c3 < 0x100
    ensures (c0 << 8) | c1 < 0x1_0000
    ensures (((c0 << 8) | c1) << 8) | c2 < 0x100_0000
    ensures (((((c0 << 8) | c1) << 8) | c2) << 8) | c3 == (c0 << 24) | (c1 << 16) | (c2 << 8) | c3
  {
  }

  lemma AppendBytes(c0: bv32, c1: bv32, c2: bv32, c3: bv32)
    requires c0 < 0x100 && c1 < 0x100 && c2 < 0x100 && c3 < 0x100
    ensures Number((c0 << 24) | (c1 << 16) | (c2 << 8) | c3)
            == 0x100_0000 * Number(c0) + 0x1_0000 * Number(c1) + 0x100 * Number(c2) + Number(c3)
  {
    hide Number;
    var w1 := (c0 << 8) | c1;
    var w2 := (w1 << 8) | c2;
    Nested(c0, c1, c2, c3);
    AppendByte(c0, c1);
    AppendByte(w1, c2);
    AppendByte(w2, c3);
  }

  lemma BeWordIs(b0: byte, b1: byte, b2: byte, b3: byte)
    ensures Number(BeWord(b0, b1, b2, b3))
            == Number((WordOf(b0) << 24) | (WordOf(b1) << 16) | (WordOf(b2) << 8) | WordOf(b3))
  {
  }

  /** Four bytes are a word as a big-endian number. */
  lemma BeWordIsNumber(b0: byte, b1: byte, b2: byte, b3: byte)
    ensures Number(BeWord(b0, b1, b2, b3)) == BeValue([b0, b1, b2, b3])
  {
    hide BeValue, WordOf, Number, BeWord;
    BeFour([b0, b1, b2, b3]);
    ByteAsWord(b0);
    ByteAsWord(b1);
    ByteAsWord(b2);
    ByteAsWord(b3);
    BeWordIs(b0, b1, b2, b3);
    AppendBytes(WordOf(b0), WordOf(b1), WordOf(b2), WordOf(b3));
    ByteBack(b0);
    ByteBack(b1);
    ByteBack(b2);
    ByteBack(b3);
  }

  lemma Split(w: bv32)
    ensures (w >> 24) & 0xff < 0x100 && (w >> 16) & 0xff < 0x100 && (w >> 8) & 0xff < 0x100 && w & 0xff < 0x100
    ensures (((w >> 24) & 0xff) << 24) | (((w >> 16) & 0xff) << 16) | (((w >> 8) & 0xff) << 8) | (w & 0xff) == w
  {
  }

  lemma WordByte0(w: bv32)
    ensures WordByte(w, 0) == Number((w >> 24) & 0xff)
  {
    assert w >> (24 - 0 * 8) == w >> 24;
  }

  lemma WordByte1(w: bv32)
    ensures WordByte(w, 1) == Number((w >> 16) & 0xff)
  {
    assert w >> (24 - 1 * 8) == w >> 16;
  }

  lemma WordByte2(w: bv32)
    ensures WordByte(w, 2) == Number((w >> 8) & 0xff)
  {
    assert w >> (24 - 2 * 8) == w >> 8;
  }

  lemma WordByte3(w: bv32)
    ensures WordByte(w, 3) == Number(w & 0xff)
  {
  }

  lemma SameNumber(x: bv32, y: bv32)
    requires Number(x) == Number(y)
    ensures x == y
  {
    assert (x as int) as bv32 == x;
  }

  /** The four bytes of a word are its digits, and make it up again. */
  lemma WordBytesAreNumber(w: bv32)
    ensures BeValue([WordByte(w, 0), WordByte(w, 1), WordByte(w, 2), WordByte(w, 3)]) == Number(w)
    ensures BeWord(WordByte(w, 0), WordByte(w, 1), WordByte(w, 2), WordByte(w, 3)) == w
  {
    hide WordByte, BeValue, BeWord, Number;
    BeFour([WordByte(w, 0), WordByte(w, 1), WordByte(w, 2), WordByte(w, 3)]);
    WordByte0(w);
    WordByte1(w);
    WordByte2(w);
    WordByte3(w);
    Split(w);
    AppendBytes((w >> 24) & 0xff, (w >> 16) & 0xff, (w >> 8) & 0xff, w & 0xff);
    BeWordIsNumber(WordByte(w, 0), WordByte(w, 1), WordByte(w, 2), WordByte(w, 3));
    SameNumber(BeWord(WordByte(w, 0), WordByte(w, 1), WordByte(w, 2), WordByte(w, 3)), w);
  }

  /** The digest is the hash words one after the other as big-endian numbers. */
  lemma DigestWords(h: seq<bv32>, j: nat)
    requires |h| == 8 && j < 8
    ensures BeValue(DigestBytes(h)[4 * j..4 * j + 4]) == Number(h[j])
  {
    hide WordByte, BeValue;
    assert DigestBytes(h)[4 * j..4 * j + 4]
           == [WordByte(h[j], 0), WordByte(h[j], 1), WordByte(h[j], 2), WordByte(h[j], 3)];
    WordBytesAreNumber(h[j]);
  }

  //////////////////////////////////////////////////////////////////////////////
  // The one-block example
  //////////////////////////////////////////////////////////////////////////////

  /** "abc" */
  const Message: seq<byte> := [0x61, 0x62, 0x63]

  const Block: seq<byte> := Message + [0x80] + Zeros(59) + [24]

  lemma Word(t: nat, w2: bv32, w7: bv32, w15: bv32, w16: bv32, w: bv32)
    requires 16 <= t < 64
    requires ScheduleWord(Block, t - 2) == w2 && ScheduleWord(Block, t - 7) == w7
    requires ScheduleWord(Block, t - 15) == w15 && ScheduleWord(Block, t - 16) == w16
    requires Add4(SmallSigma1(w2), w7, SmallSigma0(w15), w16) == w
    ensures ScheduleWord(Block, t) == w
  {
  }

  lemma Words2()
    ensures ScheduleWord(Block, 16) == 0x61626380 && ScheduleWord(Block, 17) == 0x000f0000
    ensures ScheduleWord(Block, 18) == 0x7da86405 && ScheduleWord(Block, 19) == 0x600003c6
    ensures ScheduleWord(Block, 20) == 0x3e9d7b78 && ScheduleWord(Block, 21) == 0x0183fc00
    ensures ScheduleWord(Block, 22) == 0x12dcbfdb && ScheduleWord(Block, 23) == 0xe2e2c38e
  {
    hide ScheduleWord;
    Words0();
    Words1();
    Word(16, 0x00000000, 0x00000000, 0x00000000, 0x61626380, 0x61626380);
    Word(17, 0x00000018, 0x00000000, 0x00000000, 0x00000000, 0x000f0000);
    Word(18, 0x61626380, 0x00000000, 0x00000000, 0x00000000, 0x7da86405);
    Word(19, 0x000f0000, 0x00000000, 0x00000000, 0x00000000, 0x600003c6);
    Word(20, 0x7da86405, 0x00000000, 0x00000000, 0x00000000, 0x3e9d7b78);
    Word(21, 0x600003c6, 0x00000000, 0x00000000, 0x00000000, 0x0183fc00);
    Word(22, 0x3e9d7b78, 0x00000018, 0x00000000, 0x00000000, 0x12dcbfdb);
    Word(23, 0x0183fc00, 0x61626380, 0x00000000, 0x00000000, 0xe2e2c38e);
  }

  lemma Words3()
    ensures ScheduleWord(Block, 24) == 0xc8215c1a && ScheduleWord(Block, 25) == 0xb73679a2
    ensures ScheduleWord(Block, 26) == 0xe5bc3909 && ScheduleWord(Block, 27) == 0x32663c5b
    ensures ScheduleWord(Block, 28) == 0x9d209d67 && ScheduleWord(Block, 29) == 0xec8726cb
    ensures ScheduleWord(Block, 30) == 0x702138a4 && ScheduleWord(Block, 31) == 0xd3b7973b
  {
    hide ScheduleWord;
    Words1();
    Words2();
    Word(24, 0x12dcbfdb, 0x000f0000, 0x00000000, 0x00000000, 0xc8215c1a);
    Word(25, 0xe2e2c38e, 0x7da86405, 0x00000000, 0x00000000, 0xb73679a2);
    Word(26, 0xc8215c1a, 0x600003c6, 0x00000000, 0x00000000, 0xe5bc3909);
    Word(27, 0xb73679a2, 0x3e9d7b78, 0x00000000, 0x00000000, 0x32663c5b);
    Word(28, 0xe5bc3909, 0x0183fc00, 0x00000000, 0x00000000, 0x9d209d67);
    Word(29, 0x32663c5b, 0x12dcbfdb, 0x00000000, 0x00000000, 0xec8726cb);
    Word(30, 0x9d209d67, 0xe2e2c38e, 0x00000018, 0x00000000, 0x702138a4);
    Word(31, 0xec8726cb, 0xc8215c1a, 0x61626380, 0x00000018, 0xd3b7973b);
  }

  lemma Words4()
    ensures ScheduleWord(Block, 32) == 0x93f5997f && ScheduleWord(Block, 33) == 0x3b68ba73
    ensures ScheduleWord(Block, 34) == 0xaff4ffc1 && ScheduleWord(Block, 35) == 0xf10a5c62
    ensures ScheduleWord(Block, 36) == 0x0a8b3996 && ScheduleWord(Block, 37) == 0x72af830a
    ensures ScheduleWord(Block, 38) == 0x9409e33e && ScheduleWord(Block, 39) == 0x24641522
  {
    hide ScheduleWord;
    Words2();
    Words3();
    Word(32, 0x702138a4, 0xb73679a2, 0x000f0000, 0x61626380, 0x93f5997f);
    Word(33, 0xd3b7973b, 0xe5bc3909, 0x7da86405, 0x000f0000, 0x3b68ba73);
    Word(34, 0x93f5997f, 0x32663c5b, 0x600003c6, 0x7da86405, 0xaff4ffc1);
    Word(35, 0x3b68ba73, 0x9d209d67, 0x3e9d7b78, 0x600003c6, 0xf10a5c62);
    Word(36, 0xaff4ffc1, 0xec8726cb, 0x0183fc00, 0x3e9d7b78, 0x0a8b3996);
    Word(37, 0xf10a5c62, 0x702138a4, 0x12dcbfdb, 0x0183fc00, 0x72af830a);
    Word(38, 0x0a8b3996, 0xd3b7973b, 0xe2e2c38e, 0x12dcbfdb, 0x9409e33e);
    Word(39, 0x72af830a, 0x93f5997f, 0xc8215c1a, 0xe2e2c38e, 0x24641522);
  }

  lemma Words5()
    ensures ScheduleWord(Block, 40) == 0x9f47bf94 && ScheduleWord(Block, 41) == 0xf0a64f5a
    ensures ScheduleWord(Block, 42) == 0x3e246a79 && ScheduleWord(Block, 43) == 0x27333ba3
    ensures ScheduleWord(Block, 44) == 0x0c4763f2 && ScheduleWord(Block, 45) == 0x840abf27
    ensures ScheduleWord(Block, 46) == 0x7a290d5d && ScheduleWord(Block, 47) == 0x065c43da
  {
    hide ScheduleWord;
    Words3();
    Words4();
    Word(40, 0x9409e33e, 0x3b68ba73, 0xb73679a2, 0xc8215c1a, 0x9f47bf94);
    Word(41, 0x24641522, 0xaff4ffc1, 0xe5bc3909, 0xb73679a2, 0xf0a64f5a);
    Word(42, 0x9f47bf94, 0xf10a5c62, 0x32663c5b, 0xe5bc3909, 0x3e246a79);
    Word(43, 0xf0a64f5a, 0x0a8b3996, 0x9d209d67, 0x32663c5b, 0x27333ba3);
    Word(44, 0x3e246a79, 0x72af830a, 0xec8726cb, 0x9d209d67, 0x0c4763f2);
    Word(45, 0x27333ba3, 0x9409e33e, 0x702138a4, 0xec8726cb, 0x840abf27);
    Word(46, 0x0c4763f2, 0x24641522, 0xd3b7973b, 0x702138a4, 0x7a290d5d);
    Word(47, 0x840abf27, 0x9f47bf94, 0x93f5997f, 0xd3b7973b, 0x065c43da);
  }

  lemma Words6()
    ensures ScheduleWord(Block, 48) == 0xfb3e89cb && ScheduleWord(Block, 49) == 0xcc7617db
    ensures ScheduleWord(Block, 50) == 0xb9e66c34 && ScheduleWord(Block, 51) == 0xa9993667
    ensures ScheduleWord(Block, 52) == 0x84badedd && ScheduleWord(Block, 53) == 0xc21462bc
    ensures ScheduleWord(Block, 54) == 0x1487472c && ScheduleWord(Block, 55) == 0xb20f7a99
  {
    hide ScheduleWord;
    Words4();
    Words5();
    Word(48, 0x7a290d5d, 0xf0a64f5a, 0x3b68ba73, 0x93f5997f, 0xfb3e89cb);
    Word(49, 0x065c43da, 0x3e246a79, 0xaff4ffc1, 0x3b68ba73, 0xcc7617db);
    Word(50, 0xfb3e89cb, 0x27333ba3, 0xf10a5c62, 0xaff4ffc1, 0xb9e66c34);
    Word(51, 0xcc7617db, 0x0c4763f2, 0x0a8b3996, 0xf10a5c62, 0xa9993667);
    Word(52, 0xb9e66c34, 0x840abf27, 0x72af830a, 0x0a8b3996, 0x84badedd);
    Word(53, 0xa9993667, 0x7a290d5d, 0x9409e33e, 0x72af830a, 0xc21462bc);
    Word(54, 0x84badedd, 0x065c43da, 0x24641522, 0x9409e33e, 0x1487472c);
    Word(55, 0xc21462bc, 0xfb3e89cb, 0x9f47bf94, 0x24641522, 0xb20f7a99);
  }

  lemma Words7()
    ensures ScheduleWord(Block, 56) == 0xef57b9cd && ScheduleWord(Block, 57) == 0xebe6b238
    ensures ScheduleWord(Block, 58) == 0x9fe3095e && ScheduleWord(Block, 59) == 0x78bc8d4b
    ensures ScheduleWord(Block, 60) == 0xa43fcf15 && ScheduleWord(Block, 61) == 0x668b2ff8
    ensures ScheduleWord(Block, 62) == 0xeeaba2cc && ScheduleWord(Block, 63) == 0x12b1edeb
  {
    hide ScheduleWord;
    Words5();
    Words6();
    Word(56, 0x1487472c, 0xcc7617db, 0xf0a64f5a, 0x9f47bf94, 0xef57b9cd);
    Word(57, 0xb20f7a99, 0xb9e66c34, 0x3e246a79, 0xf0a64f5a, 0xebe6b238);
    Word(58, 0xef57b9cd, 0xa9993667, 0x27333ba3, 0x3e246a79, 0x9fe3095e);
    Word(59, 0xebe6b238, 0x84badedd, 0x0c4763f2, 0x27333ba3, 0x78bc8d4b);
    Word(60, 0x9fe3095e, 0xc21462bc, 0x840abf27, 0x0c4763f2, 0xa43fcf15);
    Word(61, 0x78bc8d4b, 0x1487472c, 0x7a290d5d, 0x840abf27, 0x668b2ff8);
    Word(62, 0xa43fcf15, 0xb20f7a99, 0x065c43da, 0x7a290d5d, 0xeeaba2cc);
    Word(63, 0x668b2ff8, 0xef57b9cd, 0xfb3e89cb, 0x065c43da, 0x12b1edeb);
  }

  lemma BlockWord(t: nat)
    requires t < 16
    ensures ScheduleWord(Block, t) == if t == 0 then 0x6162_6380 else if t == 15 then 24 else 0
  {
    hide BeWord;
    BlockWords();
    assert t == 0 ==> Block[0] == 0x61 && Block[1] == 0x62 && Block[2] == 0x63 && Block[3] == 0x80;
    assert t == 15 ==> Block[60] == 0 && Block[61] == 0 && Block[62] == 0 && Block[63] == 24;
  }

  lemma BlockWords()
    ensures BeWord(0x61, 0x62, 0x63, 0x80) == 0x6162_6380 && BeWord(0, 0, 0, 24) == 24 && BeWord(0, 0, 0, 0) == 0
  {
  }

  lemma Words0()
    ensures ScheduleWord(Block, 0) == 0x61626380 && ScheduleWord(Block, 1) == 0x00000000
    ensures ScheduleWord(Block, 2) == 0x00000000 && ScheduleWord(Block, 3) == 0x00000000
    ensures ScheduleWord(Block, 4) == 0x00000000 && ScheduleWord(Block, 5) == 0x00000000
    ensures ScheduleWord(Block, 6) == 0x00000000 && ScheduleWord(Block, 7) == 0x00000000
  {
    hide ScheduleWord;
    BlockWord(0);
    BlockWord(1);
    BlockWord(2);
    BlockWord(3);
    BlockWord(4);
    BlockWord(5);
    BlockWord(6);
    BlockWord(7);
  }

  lemma Words1()
    ensures ScheduleWord(Block, 8) == 0x00000000 && ScheduleWord(Block, 9) == 0x00000000
    ensures ScheduleWord(Block, 10) == 0x00000000 && ScheduleWord(Block, 11) == 0x00000000
    ensures ScheduleWord(Block, 12) == 0x00000000 && ScheduleWord(Block, 13) == 0x00000000
    ensures ScheduleWord(Block, 14) == 0x00000000 && ScheduleWord(Block, 15) == 0x00000018
  {
    hide ScheduleWord;
    BlockWord(8);
    BlockWord(9);
    BlockWord(10);
    BlockWord(11);
    BlockWord(12);
    BlockWord(13);
    BlockWord(14);
    BlockWord(15);
  }

  /** The working variables of the example after t rounds. */
  function State(t: nat): Vars
    requires t <= 64
  {
    Rounds(VarsOf(H0()), Block, t)
  }

  lemma NextState(t: nat, k: bv32, w: bv32, v: Vars)
    requires t < 64 && K()[t] == k && ScheduleWord(Block, t) == w
    requires Round(State(t), k, w) == v
    ensures State(t + 1) == v
  {
  }

  lemma States0()
    ensures State(8) == Vars(0x85a07b5f, 0xe5030380, 0x2b4209f5, 0x04409a6a, 0x0c657a79, 0x9b27a401, 0x714260ad, 0x43ada245)
  {
    hide K, ScheduleWord, State;
    KRow0();
    Words0();
    FirstState();
    NextState(0, 0x428a2f98, 0x61626380, Vars(0x5d6aebcd, 0x6a09e667, 0xbb67ae85, 0x3c6ef372, 0xfa2a4622, 0x510e527f, 0x9b05688c, 0x1f83d9ab));
    NextState(1, 0x71374491, 0x00000000, Vars(0x5a6ad9ad, 0x5d6aebcd, 0x6a09e667, 0xbb67ae85, 0x78ce7989, 0xfa2a4622, 0x510e527f, 0x9b05688c));
    NextState(2, 0xb5c0fbcf, 0x00000000, Vars(0xc8c347a7, 0x5a6ad9ad, 0x5d6aebcd, 0x6a09e667, 0xf92939eb, 0x78ce7989, 0xfa2a4622, 0x510e527f));
    NextState(3, 0xe9b5dba5, 0x00000000, Vars(0xd550f666, 0xc8c347a7, 0x5a6ad9ad, 0x5d6aebcd, 0x24e00850, 0xf92939eb, 0x78ce7989, 0xfa2a4622));
    NextState(4, 0x3956c25b, 0x00000000, Vars(0x04409a6a, 0xd550f666, 0xc8c347a7, 0x5a6ad9ad, 0x43ada245, 0x24e00850, 0xf92939eb, 0x78ce7989));
    NextState(5, 0x59f111f1, 0x00000000, Vars(0x2b4209f5, 0x04409a6a, 0xd550f666, 0xc8c347a7, 0x714260ad, 0x43ada245, 0x24e00850, 0xf92939eb));
    NextState(6, 0x923f82a4, 0x00000000, Vars(0xe5030380, 0x2b4209f5, 0x04409a6a, 0xd550f666, 0x9b27a401, 0x714260ad, 0x43ada245, 0x24e00850));
    NextState(7, 0xab1c5ed5, 0x00000000, Vars(0x85a07b5f, 0xe5030380, 0x2b4209f5, 0x04409a6a, 0x0c657a79, 0x9b27a401, 0x714260ad, 0x43ada245));
  }

  lemma States1()
    ensures State(16) == Vars(0xb0fa238e, 0xc0645fde, 0xd932eb16, 0x87912990, 0x07590dcd, 0x0b92f20c, 0x745a48de, 0x1e578218)
  {
    hide K, ScheduleWord, State;
    KRow1();
    Words1();
    States0();
    NextState(8, 0xd807aa98, 0x00000000, Vars(0x8e04ecb9, 0x85a07b5f, 0xe5030380, 0x2b4209f5, 0x32ca2d8c, 0x0c657a79, 0x9b27a401, 0x714260ad));
    NextState(9, 0x12835b01, 0x00000000, Vars(0x8c87346b, 0x8e04ecb9, 0x85a07b5f, 0xe5030380, 0x1cc92596, 0x32ca2d8c, 0x0c657a79, 0x9b27a401));
    NextState(10, 0x243185be, 0x00000000, Vars(0x4798a3f4, 0x8c87346b, 0x8e04ecb9, 0x85a07b5f, 0x436b23e8, 0x1cc92596, 0x32ca2d8c, 0x0c657a79));
    NextState(11, 0x550c7dc3, 0x00000000, Vars(0xf71fc5a9, 0x4798a3f4, 0x8c87346b, 0x8e04ecb9, 0x816fd6e9, 0x436b23e8, 0x1cc92596, 0x32ca2d8c));
    NextState(12, 0x72be5d74, 0x00000000, Vars(0x87912990, 0xf71fc5a9, 0x4798a3f4, 0x8c87346b, 0x1e578218, 0x816fd6e9, 0x436b23e8, 0x1cc92596));
    NextState(13, 0x80deb1fe, 0x00000000, Vars(0xd932eb16, 0x87912990, 0xf71fc5a9, 0x4798a3f4, 0x745a48de, 0x1e578218, 0x816fd6e9, 0x436b23e8));
    NextState(14, 0x9bdc06a7, 0x00000000, Vars(0xc0645fde, 0xd932eb16, 0x87912990, 0xf71fc5a9, 0x0b92f20c, 0x745a48de, 0x1e578218, 0x816fd6e9));
    NextState(15, 0xc19bf174, 0x00000018, Vars(0xb0fa238e, 0xc0645fde, 0xd932eb16, 0x87912990, 0x07590dcd, 0x0b92f20c, 0x745a48de, 0x1e578218));
  }

  lemma States2()
    ensures State(24) == Vars(0xc5d53d8d, 0xa7a3623f, 0xc2606d6d, 0x9dc68b63, 0xaa47c347, 0x49f5114a, 0xe1257970, 0x8ada8930)
  {
    hide K, ScheduleWord, State;
    KRow2();
    Words2();
    States1();
    NextState(16, 0xe49b69c1, 0x61626380, Vars(0x21da9a9b, 0xb0fa238e, 0xc0645fde, 0xd932eb16, 0x8034229c, 0x07590dcd, 0x0b92f20c, 0x745a48de));
    NextState(17, 0xefbe4786, 0x000f0000, Vars(0xc2fbd9d1, 0x21da9a9b, 0xb0fa238e, 0xc0645fde, 0x846ee454, 0x8034229c, 0x07590dcd, 0x0b92f20c));
    NextState(18, 0x0fc19dc6, 0x7da86405, Vars(0xfe777bbf, 0xc2fbd9d1, 0x21da9a9b, 0xb0fa238e, 0xcc899961, 0x846ee454, 0x8034229c, 0x07590dcd));
    NextState(19, 0x240ca1cc, 0x600003c6, Vars(0xe1f20c33, 0xfe777bbf, 0xc2fbd9d1, 0x21da9a9b, 0xb0638179, 0xcc899961, 0x846ee454, 0x8034229c));
    NextState(20, 0x2de92c6f, 0x3e9d7b78, Vars(0x9dc68b63, 0xe1f20c33, 0xfe777bbf, 0xc2fbd9d1, 0x8ada8930, 0xb0638179, 0xcc899961, 0x846ee454));
    NextState(21, 0x4a7484aa, 0x0183fc00, Vars(0xc2606d6d, 0x9dc68b63, 0xe1f20c33, 0xfe777bbf, 0xe1257970, 0x8ada8930, 0xb0638179, 0xcc899961));
    NextState(22, 0x5cb0a9dc, 0x12dcbfdb, Vars(0xa7a3623f, 0xc2606d6d, 0x9dc68b63, 0xe1f20c33, 0x49f5114a, 0xe1257970, 0x8ada8930, 0xb0638179));
    NextState(23, 0x76f988da, 0xe2e2c38e, Vars(0xc5d53d8d, 0xa7a3623f, 0xc2606d6d, 0x9dc68b63, 0xaa47c347, 0x49f5114a, 0xe1257970, 0x8ada8930));
  }

  lemma States3()
    ensures State(32) == Vars(0x73b33bf5, 0xea992a22, 0xa0060b30, 0x363482c9, 0xba591112, 0x0109ab3a, 0xade79437, 0x6112a3b7)
  {
    hide K, ScheduleWord, State;
    KRow3();
    Words3();
    States2();
    NextState(24, 0x983e5152, 0xc8215c1a, Vars(0x1c2c2838, 0xc5d53d8d, 0xa7a3623f, 0xc2606d6d, 0x2823ef91, 0xaa47c347, 0x49f5114a, 0xe1257970));
    NextState(25, 0xa831c66d, 0xb73679a2, Vars(0xcde8037d, 0x1c2c2838, 0xc5d53d8d, 0xa7a3623f, 0x14383d8e, 0x2823ef91, 0xaa47c347, 0x49f5114a));
    NextState(26, 0xb00327c8, 0xe5bc3909, Vars(0xb62ec4bc, 0xcde8037d, 0x1c2c2838, 0xc5d53d8d, 0xc74c6516, 0x14383d8e, 0x2823ef91, 0xaa47c347));
    NextState(27, 0xbf597fc7, 0x32663c5b, Vars(0x77d37528, 0xb62ec4bc, 0xcde8037d, 0x1c2c2838, 0xedffbff8, 0xc74c6516, 0x14383d8e, 0x2823ef91));
    NextState(28, 0xc6e00bf3, 0x9d209d67, Vars(0x363482c9, 0x77d37528, 0xb62ec4bc, 0xcde8037d, 0x6112a3b7, 0xedffbff8, 0xc74c6516, 0x14383d8e));
    NextState(29, 0xd5a79147, 0xec8726cb, Vars(0xa0060b30, 0x363482c9, 0x77d37528, 0xb62ec4bc, 0xade79437, 0x6112a3b7, 0xedffbff8, 0xc74c6516));
    NextState(30, 0x06ca6351, 0x702138a4, Vars(0xea992a22, 0xa0060b30, 0x363482c9, 0x77d37528, 0x0109ab3a, 0xade79437, 0x6112a3b7, 0xedffbff8));
    NextState(31, 0x14292967, 0xd3b7973b, Vars(0x73b33bf5, 0xea992a22, 0xa0060b30, 0x363482c9, 0xba591112, 0x0109ab3a, 0xade79437, 0x6112a3b7));
  }

  lemma States4()
    ensures State(40) == Vars(0x79ea687a, 0x6dc57a8a, 0x34df1604, 0x41a65cb1, 0x1efbc0a0, 0xf0781bc8, 0xa507a53d, 0x0772a26b)
  {
    hide K, ScheduleWord, State;
    KRow4();
    Words4();
    States3();
    NextState(32, 0x27b70a85, 0x93f5997f, Vars(0x98e12507, 0x73b33bf5, 0xea992a22, 0xa0060b30, 0x9cd9f5f6, 0xba591112, 0x0109ab3a, 0xade79437));
    NextState(33, 0x2e1b2138, 0x3b68ba73, Vars(0xfe604df5, 0x98e12507, 0x73b33bf5, 0xea992a22, 0x59249dd3, 0x9cd9f5f6, 0xba591112, 0x0109ab3a));
    NextState(34, 0x4d2c6dfc, 0xaff4ffc1, Vars(0xa9a7738c, 0xfe604df5, 0x98e12507, 0x73b33bf5, 0x085f3833, 0x59249dd3, 0x9cd9f5f6, 0xba591112));
    NextState(35, 0x53380d13, 0xf10a5c62, Vars(0x65a0cfe4, 0xa9a7738c, 0xfe604df5, 0x98e12507, 0xf4b002d6, 0x085f3833, 0x59249dd3, 0x9cd9f5f6));
    NextState(36, 0x650a7354, 0x0a8b3996, Vars(0x41a65cb1, 0x65a0cfe4, 0xa9a7738c, 0xfe604df5, 0x0772a26b, 0xf4b002d6, 0x085f3833, 0x59249dd3));
    NextState(37, 0x766a0abb, 0x72af830a, Vars(0x34df1604, 0x41a65cb1, 0x65a0cfe4, 0xa9a7738c, 0xa507a53d, 0x0772a26b, 0xf4b002d6, 0x085f3833));
    NextState(38, 0x81c2c92e, 0x9409e33e, Vars(0x6dc57a8a, 0x34df1604, 0x41a65cb1, 0x65a0cfe4, 0xf0781bc8, 0xa507a53d, 0x0772a26b, 0xf4b002d6));
    NextState(39, 0x92722c85, 0x24641522, Vars(0x79ea687a, 0x6dc57a8a, 0x34df1604, 0x41a65cb1, 0x1efbc0a0, 0xf0781bc8, 0xa507a53d, 0x0772a26b));
  }

  lemma States5()
    ensures State(48) == Vars(0x4172328d, 0xa14c14b0, 0x72ab4b91, 0x26628815, 0xfecf0bc6, 0xd57b94a9, 0xb7755da1, 0xa80f11f0)
  {
    hide K, ScheduleWord, State;
    KRow5();
    Words5();
    States4();
    NextState(40, 0xa2bfe8a1, 0x9f47bf94, Vars(0xd6670766, 0x79ea687a, 0x6dc57a8a, 0x34df1604, 0x26352d63, 0x1efbc0a0, 0xf0781bc8, 0xa507a53d));
    NextState(41, 0xa81a664b, 0xf0a64f5a, Vars(0xdf46652f, 0xd6670766, 0x79ea687a, 0x6dc57a8a, 0x838b2711, 0x26352d63, 0x1efbc0a0, 0xf0781bc8));
    NextState(42, 0xc24b8b70, 0x3e246a79, Vars(0x17aa0dfe, 0xdf46652f, 0xd6670766, 0x79ea687a, 0xdecd4715, 0x838b2711, 0x26352d63, 0x1efbc0a0));
    NextState(43, 0xc76c51a3, 0x27333ba3, Vars(0x9d4baf93, 0x17aa0dfe, 0xdf46652f, 0xd6670766, 0xfda24c2e, 0xdecd4715, 0x838b2711, 0x26352d63));
    NextState(44, 0xd192e819, 0x0c4763f2, Vars(0x26628815, 0x9d4baf93, 0x17aa0dfe, 0xdf46652f, 0xa80f11f0, 0xfda24c2e, 0xdecd4715, 0x838b2711));
    NextState(45, 0xd6990624, 0x840abf27, Vars(0x72ab4b91, 0x26628815, 0x9d4baf93, 0x17aa0dfe, 0xb7755da1, 0xa80f11f0, 0xfda24c2e, 0xdecd4715));
    NextState(46, 0xf40e3585, 0x7a290d5d, Vars(0xa14c14b0, 0x72ab4b91, 0x26628815, 0x9d4baf93, 0xd57b94a9, 0xb7755da1, 0xa80f11f0, 0xfda24c2e));
    NextState(47, 0x106aa070, 0x065c43da, Vars(0x4172328d, 0xa14c14b0, 0x72ab4b91, 0x26628815, 0xfecf0bc6, 0xd57b94a9, 0xb7755da1, 0xa80f11f0));
  }

  lemma States6()
    ensures State(56) == Vars(0x38cc9913, 0x3ec45cdb, 0xf5702fdb, 0x101fd28f, 0x54cb266b, 0xe50e1b4f, 0x9f4787c3, 0x529e7d00)
  {
    hide K, ScheduleWord, State;
    KRow6();
    Words6();
    States5();
    NextState(48, 0x19a4c116, 0xfb3e89cb, Vars(0x05757ceb, 0x4172328d, 0xa14c14b0, 0x72ab4b91, 0xbd714038, 0xfecf0bc6, 0xd57b94a9, 0xb7755da1));
    NextState(49, 0x1e376c08, 0xcc7617db, Vars(0xf11bfaa8, 0x05757ceb, 0x4172328d, 0xa14c14b0, 0x6e5c390c, 0xbd714038, 0xfecf0bc6, 0xd57b94a9));
    NextState(50, 0x2748774c, 0xb9e66c34, Vars(0x7a0508a1, 0xf11bfaa8, 0x05757ceb, 0x4172328d, 0x52f1ccf7, 0x6e5c390c, 0xbd714038, 0xfecf0bc6));
    NextState(51, 0x34b0bcb5, 0xa9993667, Vars(0x886e7a22, 0x7a0508a1, 0xf11bfaa8, 0x05757ceb, 0x49231c1e, 0x52f1ccf7, 0x6e5c390c, 0xbd714038));
    NextState(52, 0x391c0cb3, 0x84badedd, Vars(0x101fd28f, 0x886e7a22, 0x7a0508a1, 0xf11bfaa8, 0x529e7d00, 0x49231c1e, 0x52f1ccf7, 0x6e5c390c));
    NextState(53, 0x4ed8aa4a, 0xc21462bc, Vars(0xf5702fdb, 0x101fd28f, 0x886e7a22, 0x7a0508a1, 0x9f4787c3, 0x529e7d00, 0x49231c1e, 0x52f1ccf7));
    NextState(54, 0x5b9cca4f, 0x1487472c, Vars(0x3ec45cdb, 0xf5702fdb, 0x101fd28f, 0x886e7a22, 0xe50e1b4f, 0x9f4787c3, 0x529e7d00, 0x49231c1e));
    NextState(55, 0x682e6ff3, 0xb20f7a99, Vars(0x38cc9913, 0x3ec45cdb, 0xf5702fdb, 0x101fd28f, 0x54cb266b, 0xe50e1b4f, 0x9f4787c3, 0x529e7d00));
  }

  lemma States7()
    ensures State(64) == Vars(0x506e3058, 0xd39a2165, 0x04d24d6c, 0xb85e2ce9, 0x5ef50f24, 0xfb121210, 0x948d25b6, 0x961f4894)
  {
    hide K, ScheduleWord, State;
    KRow7();
    Words7();
    States6();
    NextState(56, 0x748f82ee, 0xef57b9cd, Vars(0xfcd1887b, 0x38cc9913, 0x3ec45cdb, 0xf5702fdb, 0x9b5e906c, 0x54cb266b, 0xe50e1b4f, 0x9f4787c3));
    NextState(57, 0x78a5636f, 0xebe6b238, Vars(0xc062d46f, 0xfcd1887b, 0x38cc9913, 0x3ec45cdb, 0x7e44008e, 0x9b5e906c, 0x54cb266b, 0xe50e1b4f));
    NextState(58, 0x84c87814, 0x9fe3095e, Vars(0xffb70472, 0xc062d46f, 0xfcd1887b, 0x38cc9913, 0x6d83bfc6, 0x7e44008e, 0x9b5e906c, 0x54cb266b));
    NextState(59, 0x8cc70208, 0x78bc8d4b, Vars(0xb6ae8fff, 0xffb70472, 0xc062d46f, 0xfcd1887b, 0xb21bad3d, 0x6d83bfc6, 0x7e44008e, 0x9b5e906c));
    NextState(60, 0x90befffa, 0xa43fcf15, Vars(0xb85e2ce9, 0xb6ae8fff, 0xffb70472, 0xc062d46f, 0x961f4894, 0xb21bad3d, 0x6d83bfc6, 0x7e44008e));
    NextState(61, 0xa4506ceb, 0x668b2ff8, Vars(0x04d24d6c, 0xb85e2ce9, 0xb6ae8fff, 0xffb70472, 0x948d25b6, 0x961f4894, 0xb21bad3d, 0x6d83bfc6));
    NextState(62, 0xbef9a3f7, 0xeeaba2cc, Vars(0xd39a2165, 0x04d24d6c, 0xb85e2ce9, 0xb6ae8fff, 0xfb121210, 0x948d25b6, 0x961f4894, 0xb21bad3d));
    NextState(63, 0xc67178f2, 0x12b1edeb, Vars(0x506e3058, 0xd39a2165, 0x04d24d6c, 0xb85e2ce9, 0x5ef50f24, 0xfb121210, 0x948d25b6, 0x961f4894));
  }

  lemma FirstState()
    ensures State(0) == Vars(0x6a09e667, 0xbb67ae85, 0x3c6ef372, 0xa54ff53a, 0x510e527f, 0x9b05688c, 0x1f83d9ab, 0x5be0cd19)
  {
  }

  lemma PaddedMessage()
    ensures Message + Padding(3) == Block
  {
    hide Padding, BeBytes;
    PaddingOfThree();
    assert Zeros(52) + Zeros(7) == Zeros(59);
  }

  lemma PaddingOfThree()
    ensures Padding(3) == [0x80] + Zeros(52) + (Zeros(7) + [24])
  {
    hide Zeros, BeBytes;
    assert ZeroPad(3) == 52 && BitCount(3) == 24;
    assert LengthBytes(24) == Zeros(7) + [24] by {
      BeBytes24();
    }
  }

  lemma BeBytes24()
    ensures BeBytes(24, 8) == Zeros(7) + [24]
  {
    BeBytesOfZero(7);
  }

  lemma {:induction false} BeBytesOfZero(k: nat)
    ensures BeBytes(0, k) == Zeros(k)
  {
    if k > 0 {
      BeBytesOfZero(k - 1);
    }
  }

  /** The hash words of the example. */
  lemma ExampleState()
    ensures FinalState(Message) == [0xba7816bf, 0x8f01cfea, 0x414140de, 0x5dae2223, 0xb00361a3, 0x96177a9c, 0xb410ff61, 0xf20015ad]
  {
    hide Compress, K, ScheduleWord, Round;
    PaddedMessage();
    OneBlock();
    States7();
    assert Compress(H0(), Block) == AddVars(H0(), State(64)) by { CompressIs(); }
  }

  lemma OneBlock()
    ensures Blocks(Block) == Compress(H0(), Block)
  {
    hide Compress;
    assert Block[..0] == [] && Block[0..] == Block;
  }

  lemma CompressIs()
    ensures Compress(H0(), Block) == AddVars(H0(), State(64))
  {
  }

  /** Its digest is ba7816bf 8f01cfea 414140de 5dae2223 b00361a3 96177a9c b410ff61
      f20015ad. */
  lemma ExampleDigest(j: nat)
    requires j < 8
    ensures BeValue(Digest(Message)[4 * j..4 * j + 4]) == Number([
              0xba7816bf, 0x8f01cfea, 0x414140de, 0x5dae2223,
              0xb00361a3, 0x96177a9c, 0xb410ff61, 0xf20015ad][j])
  {
    hide FinalState, DigestBytes, BeValue, Number;
    ExampleState();
    DigestWords(FinalState(Message), j);
  }
}
