/** SHA-256 as FIPS 180-4 defines it on a whole message, and as the boot loader computes
    it: byte by byte through a 64-byte buffer. */
module Sha256 {
  import opened Arithmetic
  import opened Bytes
  import opened Machine

  //////////////////////////////////////////////////////////////////////////////
  // FIPS 180-4: functions and constants (sections 4.1.2, 4.2.2, 5.3.3)
  //////////////////////////////////////////////////////////////////////////////

  function K(): (k: seq<bv32>)
    ensures |k| == 64
  {
    [0x428a2f98, 0x71374491, 0xb5c0fbcf, 0xe9b5dba5, 0x3956c25b, 0x59f111f1, 0x923f82a4, 0xab1c5ed5]
    + [0xd807aa98, 0x12835b01, 0x243185be, 0x550c7dc3, 0x72be5d74, 0x80deb1fe, 0x9bdc06a7, 0xc19bf174]
    + [0xe49b69c1, 0xefbe4786, 0x0fc19dc6, 0x240ca1cc, 0x2de92c6f, 0x4a7484aa, 0x5cb0a9dc, 0x76f988da]
    + [0x983e5152, 0xa831c66d, 0xb00327c8, 0xbf597fc7, 0xc6e00bf3, 0xd5a79147, 0x06ca6351, 0x14292967]
    + [0x27b70a85, 0x2e1b2138, 0x4d2c6dfc, 0x53380d13, 0x650a7354, 0x766a0abb, 0x81c2c92e, 0x92722c85]
    + [0xa2bfe8a1, 0xa81a664b, 0xc24b8b70, 0xc76c51a3, 0xd192e819, 0xd6990624, 0xf40e3585, 0x106aa070]
    + [0x19a4c116, 0x1e376c08, 0x2748774c, 0x34b0bcb5, 0x391c0cb3, 0x4ed8aa4a, 0x5b9cca4f, 0x682e6ff3]
    + [0x748f82ee, 0x78a5636f, 0x84c87814, 0x8cc70208, 0x90befffa, 0xa4506ceb, 0xbef9a3f7, 0xc67178f2]
  }

  function H0(): (h: seq<bv32>)
    ensures |h| == 8
  {[
    0x6a09e667, 0xbb67ae85, 0x3c6ef372, 0xa54ff53a,
    0x510e527f, 0x9b05688c, 0x1f83d9ab, 0x5be0cd19
  ]}

  /** Addition modulo 2^32. */
  function Add(x: bv32, y: bv32): bv32 { x + y }

  function Add5(v: bv32, w: bv32, x: bv32, y: bv32, z: bv32): bv32 { v + w + x + y + z }

  function Add4(w: bv32, x: bv32, y: bv32, z: bv32): bv32 { w + x + y + z }

  /** Four bytes as a word, most significant first. */
  function BeWord(b0: byte, b1: byte, b2: byte, b3: byte): bv32 {
    (b0 as bv32 << 24) | (b1 as bv32 << 16) | (b2 as bv32 << 8) | (b3 as bv32)
  }

  function Ch(x: bv32, y: bv32, z: bv32): bv32 { (x & y) ^ (!x & z) }

  function Maj(x: bv32, y: bv32, z: bv32): bv32 { (x & y) ^ (x & z) ^ (y & z) }

  function BigSigma0(x: bv32): bv32 {
    x.RotateRight(2) ^ x.RotateRight(13) ^ x.RotateRight(22)
  }

  function BigSigma1(x: bv32): bv32 {
    x.RotateRight(6) ^ x.RotateRight(11) ^ x.RotateRight(25)
  }

  function SmallSigma0(x: bv32): bv32 {
    x.RotateRight(7) ^ x.RotateRight(18) ^ (x >> 3)
  }

  function SmallSigma1(x: bv32): bv32 {
    x.RotateRight(17) ^ x.RotateRight(19) ^ (x >> 10)
  }

  //////////////////////////////////////////////////////////////////////////////
  // FIPS 180-4: padding (section 5.1.1) and hash computation (section 6.2)
  //////////////////////////////////////////////////////////////////////////////

  /** The low k bytes of a number, most significant first. */
  function BeBytes(x: nat, k: nat): (r: seq<byte>)
    ensures |r| == k
    decreases k, x
  {
    if k == 0 then [] else BeBytes(x / 256, k - 1) + [x % 256]
  }

  /** A 64-bit length as 8 bytes. */
  function LengthBytes(bits: uint64): (r: seq<byte>)
    ensures |r| == 8
  {
    BeBytes(bits, 8)
  }

  lemma {:induction false} BeBytesAt(x: nat, k: nat, i: nat)
    requires i < k
    ensures BeBytes(x, k)[i] == (x / Power256(k - 1 - i)) % 256
  {
    if i < k - 1 {
      BeBytesAt(x / 256, k - 1, i);
      DivDiv(x, Power256(k - 2 - i), 256);
    }
  }

  lemma PowerValues()
    ensures Power256(0) == 1 && Power256(1) == 0x100 && Power256(2) == 0x1_0000
    ensures Power256(3) == 0x100_0000 && Power256(4) == 0x1_0000_0000
    ensures Power256(5) == 0x100_0000_0000 && Power256(6) == 0x1_0000_0000_0000
    ensures Power256(7) == 0x100_0000_0000_0000
  {
  }

  /** The length field encodes the length. */
  lemma {:induction false} BeRoundTrip(x: nat, k: nat)
    requires x < Power256(k)
    ensures BeValue(BeBytes(x, k)) == x
  {
    if k > 0 {
      BeRoundTrip(x / 256, k - 1);
      var s := BeBytes(x, k);
      assert s[..|s| - 1] == BeBytes(x / 256, k - 1);
    }
  }

  /** The smallest number of zero bytes after the 0x80 byte that leaves 8 bytes free in
      the last 64-byte block. */
  function ZeroPad(len: nat): (k: nat)
    ensures k < 64 && (len + 1 + k) % 64 == 56
  {
    (119 - len % 64) % 64
  }

  function Zeros(k: nat): (z: seq<byte>)
    ensures |z| == k && forall i :: 0 <= i < k ==> z[i] == 0
  {
    seq(k, _ => 0)
  }

  /** The 64-bit bit counter of a message of len bytes. */
  function BitCount(len: nat): uint64 {
    (8 * len) % 0x1_0000_0000_0000_0000
  }

  function Padding(len: nat): (p: seq<byte>)
    ensures (len + |p|) % 64 == 0
  {
    var k := ZeroPad(len);
    assert (len + (1 + k + 8)) % 64 == 0;
    [0x80] + Zeros(k) + LengthBytes(BitCount(len))
  }

  function ScheduleWord(block: seq<byte>, t: nat): bv32
    requires |block| == 64 && t < 64
    decreases t, block
  {
    if t < 16 then
      BeWord(block[4 * t], block[4 * t + 1], block[4 * t + 2], block[4 * t + 3])
    else
      Add4(SmallSigma1(ScheduleWord(block, t - 2)), ScheduleWord(block, t - 7),
           SmallSigma0(ScheduleWord(block, t - 15)), ScheduleWord(block, t - 16))
  }

  datatype Vars = Vars(a: bv32, b: bv32, c: bv32, d: bv32, e: bv32, f: bv32, g: bv32, h: bv32)

  function Round(v: Vars, k: bv32, w: bv32): Vars {
    var t1 := Add5(v.h, BigSigma1(v.e), Ch(v.e, v.f, v.g), k, w);
    var t2 := Add(BigSigma0(v.a), Maj(v.a, v.b, v.c));
    Vars(Add(t1, t2), v.a, v.b, v.c, Add(v.d, t1), v.e, v.f, v.g)
  }

  /** The working variables after t rounds. */
  function Rounds(v: Vars, block: seq<byte>, t: nat): Vars
    requires |block| == 64 && t <= 64
    decreases t, block
  {
    if t == 0 then v else Round(Rounds(v, block, t - 1), K()[t - 1], ScheduleWord(block, t - 1))
  }

  function VarsOf(h: seq<bv32>): Vars
    requires |h| == 8
  {
    Vars(h[0], h[1], h[2], h[3], h[4], h[5], h[6], h[7])
  }

  function AddVars(h: seq<bv32>, v: Vars): (r: seq<bv32>)
    requires |h| == 8
    ensures |r| == 8
  {
    [Add(h[0], v.a), Add(h[1], v.b), Add(h[2], v.c), Add(h[3], v.d),
     Add(h[4], v.e), Add(h[5], v.f), Add(h[6], v.g), Add(h[7], v.h)]
  }

  function Compress(h: seq<bv32>, block: seq<byte>): (r: seq<bv32>)
    requires |h| == 8 && |block| == 64
    ensures |r| == 8
  {
    AddVars(h, Rounds(VarsOf(h), block, 64))
  }

  /** The hash value after all blocks of data, in order. */
  function Blocks(data: seq<byte>): (r: seq<bv32>)
    requires |data| % 64 == 0
    ensures |r| == 8
  {
    if data == [] then H0()
    else Compress(Blocks(data[..|data| - 64]), data[|data| - 64..])
  }

  /** Byte i of a word, most significant first. */
  function WordByte(w: bv32, i: nat): byte
    requires i < 4
  {
    ((w >> (24 - i * 8)) & 0xff) as int
  }

  /** Byte i of the digest: the hash words, each most significant byte first. */
  function DigestByte(h: seq<bv32>, i: nat): byte
    requires |h| == 8 && i < 32
  {
    WordByte(h[i / 4], i % 4)
  }

  function DigestBytes(h: seq<bv32>): (r: seq<byte>)
    requires |h| == 8
    ensures |r| == 32
  {
    seq(32, i requires 0 <= i < 32 => DigestByte(h, i))
  }

  /** The hash words after the padded message. */
  function FinalState(msg: seq<byte>): (r: seq<bv32>)
    ensures |r| == 8
  {
    Blocks(msg + Padding(|msg|))
  }

  /** The message digest, in one shot. */
  function Digest(msg: seq<byte>): (r: seq<byte>)
    ensures |r| == 32
  {
    DigestBytes(FinalState(msg))
  }

  /** Below 2^64 bits this is the padding of section 5.1.1: one 1 bit, then zero bits up
      to 448 modulo 512, as few as possible, then the message length as a 64-bit number. */
  lemma PaddingIsFips(len: nat, k: nat)
    requires 8 * len < 0x1_0000_0000_0000_0000
    requires (len + 1 + k) % 64 == 56
    ensures var p := Padding(len);
            && p[0] == 0x80
            && (forall i :: 1 <= i < |p| - 8 ==> p[i] == 0)
            && p[|p| - 8..] == LengthBytes(8 * len)
            && (len + |p|) % 64 == 0
            && |p| <= 1 + k + 8
  {
    hide LengthBytes, Zeros;
    ZeroPadLeast(len, k);
  }

  lemma ZeroPadLeast(len: nat, k: nat)
    requires (len + 1 + k) % 64 == 56
    ensures ZeroPad(len) <= k
  {
  }

  //////////////////////////////////////////////////////////////////////////////
  // The streaming implementation
  //////////////////////////////////////////////////////////////////////////////

  // The source's rotations and shifts.
  function Ep0(x: bv32): (r: bv32)
    ensures r == BigSigma0(x)
  {
    ((x >> 2) | (x << 30)) ^ ((x >> 13) | (x << 19)) ^ ((x >> 22) | (x << 10))
  }

  function Ep1(x: bv32): (r: bv32)
    ensures r == BigSigma1(x)
  {
    ((x >> 6) | (x << 26)) ^ ((x >> 11) | (x << 21)) ^ ((x >> 25) | (x << 7))
  }

  function Sig0(x: bv32): (r: bv32)
    ensures r == SmallSigma0(x)
  {
    ((x >> 7) | (x << 25)) ^ ((x >> 18) | (x << 14)) ^ (x >> 3)
  }

  function Sig1(x: bv32): (r: bv32)
    ensures r == SmallSigma1(x)
  {
    ((x >> 17) | (x << 15)) ^ ((x >> 19) | (x << 13)) ^ (x >> 10)
  }

  /** What a context holds of a message: whole blocks in the hash words, the rest in the
      buffer, and the bits of the whole blocks modulo 2^64 in the counter. */
  ghost predicate Holds(msg: seq<byte>, bufnxt: nat, buf: seq<byte>, state: seq<bv32>, bits: uint64) {
    && |buf| == 64 && bufnxt < 64 && bufnxt <= |msg|
    && (|msg| - bufnxt) % 64 == 0
    && buf[..bufnxt] == msg[|msg| - bufnxt..]
    && state == Blocks(msg[..|msg| - bufnxt])
    && bits == BitCount(|msg| - bufnxt)
  }

  lemma HoldsSize(msg: seq<byte>, bufnxt: nat, buf: seq<byte>, state: seq<bv32>, bits: uint64)
    requires Holds(msg, bufnxt, buf, state, bits)
    ensures |buf| == 64 && |state| == 8 && bufnxt < 64 && bufnxt <= |msg|
    ensures bits == BitCount(|msg| - bufnxt)
  {
  }

  lemma HoldsMore(msg: seq<byte>, bufnxt: nat, buf: seq<byte>, state: seq<bv32>, bits: uint64, x: byte)
    requires Holds(msg, bufnxt, buf, state, bits) && bufnxt < 63
    ensures Holds(msg + [x], bufnxt + 1, buf[bufnxt := x], state, bits)
  {
    hide Blocks;
    var m := msg + [x];
    assert m[|m| - (bufnxt + 1)..] == msg[|msg| - bufnxt..] + [x];
    assert m[..|m| - (bufnxt + 1)] == msg[..|msg| - bufnxt];
    assert buf[bufnxt := x][..bufnxt + 1] == buf[..bufnxt] + [x];
  }

  lemma HoldsBlock(msg: seq<byte>, buf: seq<byte>, state: seq<bv32>, bits: uint64, x: byte)
    requires Holds(msg, 63, buf, state, bits)
    ensures |state| == 8
    ensures Holds(msg + [x], 0, buf[63 := x], Compress(state, buf[63 := x]),
                  (bits + 512) % 0x1_0000_0000_0000_0000)
  {
    hide Compress, Blocks, BitCount;
    var m, b := msg + [x], buf[63 := x];
    var front := msg[..|msg| - 63];
    assert b == buf[..63] + [x] && |b| == 64;
    assert m == front + b;
    BlocksSnoc(front, b);
    BitCountAdd(|front|, 64);
    assert m[..|m| - 0] == m;
    assert m[|m| - 0..] == [] == b[..0];
  }

  method AddTo(s: array<bv32>, a: bv32, b: bv32, c: bv32, d: bv32, e: bv32, f: bv32, g: bv32, h: bv32)
    requires s.Length == 8
    modifies s
    ensures s[..] == old([Add(s[0], a), Add(s[1], b), Add(s[2], c), Add(s[3], d),
                          Add(s[4], e), Add(s[5], f), Add(s[6], g), Add(s[7], h)])
  {
    hide Add;
    s[0] := Add(s[0], a);
    s[1] := Add(s[1], b);
    s[2] := Add(s[2], c);
    s[3] := Add(s[3], d);
    s[4] := Add(s[4], e);
    s[5] := Add(s[5], f);
    s[6] := Add(s[6], g);
    s[7] := Add(s[7], h);
  }

  class Ctx {
    var bitsCount: uint64
    const state: array<bv32>
    var bufnxt: nat
    const buf: array<byte>
    /** Everything absorbed so far. */
    ghost var msg: seq<byte>

    ghost predicate Valid()
      reads this, state, buf
    {
      state.Length == 8 && Holds(msg, bufnxt, buf[..], state[..], bitsCount)
    }

    constructor ()
      ensures Valid() && msg == [] && fresh(state) && fresh(buf)
    {
      hide H0, Compress;
      bitsCount := 0;
      bufnxt := 0;
      state := new bv32[8](i requires 0 <= i < 8 => H0()[i]);
      buf := new byte[64](_ => 0);
      msg := [];
      new;
      assert state[..] == H0();
      assert Blocks([]) == H0();
      assert msg[..0] == [] && buf[..0] == [];
    }

    /** The 64 schedule words of the buffered block. */
    method Schedule() returns (m: array<bv32>)
      requires buf.Length == 64
      ensures fresh(m) && m.Length == 64
      ensures forall t :: 0 <= t < 64 ==> m[t] == ScheduleWord(buf[..], t)
    {
      hide Add4, BeWord, SmallSigma0, SmallSigma1, Sig0, Sig1;
      ghost var block := buf[..];
      m := new bv32[64];
      var i := 0;
      while i < 16
        invariant 0 <= i <= 16
        invariant forall t :: 0 <= t < i ==> m[t] == ScheduleWord(block, t)
      {
        var j := 4 * i;
        m[i] := BeWord(buf[j], buf[j + 1], buf[j + 2], buf[j + 3]);
        i := i + 1;
      }
      while i < 64
        invariant 16 <= i <= 64
        invariant forall t :: 0 <= t < i ==> m[t] == ScheduleWord(block, t)
      {
        m[i] := Add4(Sig1(m[i - 2]), m[i - 7], Sig0(m[i - 15]), m[i - 16]);
        i := i + 1;
      }
    }

    /** One block into the state. */
    method Transform()
      requires state.Length == 8 && buf.Length == 64
      modifies state
      ensures state[..] == Compress(old(state[..]), buf[..])
    {
      hide K, Add, Add5, Ch, Maj, BigSigma0, BigSigma1, Ep0, Ep1, ScheduleWord;
      ghost var block := buf[..];
      ghost var h0 := state[..];
      var m := Schedule();

      var a, b, c, d := state[0], state[1], state[2], state[3];
      var e, f, g, h := state[4], state[5], state[6], state[7];
      var i := 0;
      while i < 64
        invariant 0 <= i <= 64
        invariant Vars(a, b, c, d, e, f, g, h) == Rounds(VarsOf(h0), block, i)
      {
        var t1 := Add5(h, Ep1(e), Ch(e, f, g), K()[i], m[i]);
        var t2 := Add(Ep0(a), Maj(a, b, c));
        h := g;
        g := f;
        f := e;
        e := Add(d, t1);
        d := c;
        c := b;
        b := a;
        a := Add(t1, t2);
        i := i + 1;
      }
      AddTo(state, a, b, c, d, e, f, g, h);
    }

    /** Absorbing more bytes: however a message is split, the same bytes end up in it. */
    method Update(data: seq<byte>)
      requires Valid()
      modifies this, state, buf
      ensures Valid() && msg == old(msg) + data
    {
      hide Compress, Holds;
      for i := 0 to |data|
        invariant Valid() && msg == old(msg) + data[..i]
      {
        HoldsSize(msg, bufnxt, buf[..], state[..], bitsCount);
        ghost var was, st := buf[..], state[..];
        buf[bufnxt] := data[i];
        assert buf[..] == was[bufnxt := data[i]];
        bufnxt := bufnxt + 1;
        if bufnxt == 64 {
          HoldsBlock(msg, was, st, bitsCount, data[i]);
          Transform();
          bitsCount := (bitsCount + 512) % 0x1_0000_0000_0000_0000;
          bufnxt := 0;
        } else {
          HoldsMore(msg, bufnxt - 1, was, st, bitsCount, data[i]);
        }
        msg := msg + [data[i]];
      }
      assert data[..|data|] == data;
    }

    /** The branch for a tail that leaves no room for the length: 0x80 and zeros fill the
        block, which goes into the state. */
    method FlushTail()
      requires state.Length == 8 && buf.Length == 64 && 56 <= bufnxt < 64
      modifies state, buf
      ensures state[..] == Compress(old(state[..]), old(buf[..bufnxt]) + [0x80] + Zeros(63 - bufnxt))
    {
      hide Compress;
      ghost var tail, st := buf[..bufnxt], state[..];
      var i := bufnxt;
      buf[i] := 0x80;
      i := i + 1;
      while i < 64
        invariant bufnxt < i <= 64
        invariant buf[..i] == tail + [0x80] + Zeros(i - bufnxt - 1)
        modifies buf
      {
        buf[i] := 0;
        i := i + 1;
      }
      assert buf[..] == tail + [0x80] + Zeros(63 - bufnxt);
      assert state[..] == st;
      Transform();
    }

    /** Zeros up to byte 56, the bit count, and the last block goes into the state. */
    method LastBlock(from: nat)
      requires state.Length == 8 && buf.Length == 64 && from <= 56
      modifies `bitsCount, state, buf
      ensures bitsCount == (old(bitsCount) + bufnxt * 8) % 0x1_0000_0000_0000_0000
      ensures state[..] == Compress(old(state[..]),
                                    old(buf[..from]) + Zeros(56 - from) + LengthBytes(bitsCount))
    {
      hide Compress, LengthBytes;
      ghost var prefix, st := buf[..from], state[..];
      var i := from;
      while i < 56
        invariant from <= i <= 56
        invariant buf[..i] == prefix + Zeros(i - from)
        modifies buf
      {
        buf[i] := 0;
        i := i + 1;
      }
      bitsCount := (bitsCount + bufnxt * 8) % 0x1_0000_0000_0000_0000;
      WriteLength(buf, bitsCount);
      assert buf[..] == buf[..56] + buf[56..];
      assert state[..] == st;
      Transform();
    }

    /** Padding and output: the digest of everything absorbed. */
    method Hash() returns (hash: seq<byte>)
      requires Valid()
      modifies this, state, buf
      ensures hash == Digest(old(msg))
    {
      hide Compress, Blocks, Holds, LengthBytes, BitCount, DigestBytes, FinalState;
      HoldsSize(msg, bufnxt, buf[..], state[..], bitsCount);
      BitCountAdd(|msg| - bufnxt, bufnxt);
      ghost var tail := buf[..bufnxt];
      if bufnxt < 56 {
        PaddingShort(msg, bufnxt, buf[..], state[..], bitsCount);
        buf[bufnxt] := 0x80;
        assert buf[..bufnxt + 1] == tail + [0x80];
        LastBlock(bufnxt + 1);
      } else {
        PaddingLong(msg, bufnxt, buf[..], state[..], bitsCount);
        FlushTail();
        assert buf[..0] == [] && [] + Zeros(56) == Zeros(56);
        LastBlock(0);
      }
      assert state[..] == FinalState(msg);
      hash := Output(state[..]);
    }
  }

  lemma BitCountAdd(len: nat, rest: nat)
    ensures (BitCount(len) + rest * 8) % 0x1_0000_0000_0000_0000 == BitCount(len + rest)
  {
  }

  /** The last block, when the length still fits in it. */
  lemma PaddingShort(msg: seq<byte>, bufnxt: nat, buf: seq<byte>, state: seq<bv32>, bits: uint64)
    requires Holds(msg, bufnxt, buf, state, bits) && bufnxt < 56
    ensures |state| == 8
    ensures FinalState(msg) ==
            Compress(state, buf[..bufnxt] + [0x80] + Zeros(55 - bufnxt) + LengthBytes(BitCount(|msg|)))
  {
    hide Compress, Blocks, LengthBytes, BitCount, ZeroPad, Zeros;
    var n := |msg|;
    var front, tail := msg[..n - bufnxt], buf[..bufnxt];
    ZeroPadValue(n, bufnxt);
    var z, len := Zeros(55 - bufnxt), LengthBytes(BitCount(n));
    assert msg == front + tail;
    assert Padding(n) == [0x80] + z + len && |tail + [0x80] + z + len| == 64;
    Regroup(front, tail, [0x80], z, len);
    BlocksSnoc(front, tail + [0x80] + z + len);
  }

  lemma ZeroPadValue(n: nat, bufnxt: nat)
    requires bufnxt <= n && bufnxt < 64 && (n - bufnxt) % 64 == 0
    ensures ZeroPad(n) == if bufnxt < 56 then 55 - bufnxt else 119 - bufnxt
  {
  }

  lemma Regroup<T>(a: seq<T>, b: seq<T>, c: seq<T>, d: seq<T>, e: seq<T>)
    ensures (a + b) + (c + d + e) == a + (b + c + d + e)
  {
  }

  /** The last two blocks, when it does not. */
  lemma PaddingLong(msg: seq<byte>, bufnxt: nat, buf: seq<byte>, state: seq<bv32>, bits: uint64)
    requires Holds(msg, bufnxt, buf, state, bits) && bufnxt >= 56
    ensures |state| == 8
    ensures FinalState(msg) ==
            Compress(Compress(state, buf[..bufnxt] + [0x80] + Zeros(63 - bufnxt)),
                     Zeros(56) + LengthBytes(BitCount(|msg|)))
  {
    hide Compress, Blocks, LengthBytes, BitCount, Padding, Zeros;
    var n := |msg|;
    var front, tail := msg[..n - bufnxt], buf[..bufnxt];
    var z1, z2, len := Zeros(63 - bufnxt), Zeros(56), LengthBytes(BitCount(n));
    PaddingSplit(n, bufnxt);
    assert msg == front + tail;
    RegroupLong(front, tail, [0x80], z1, z2, len);
    TwoBlocks(front, tail + [0x80] + z1, z2 + len);
  }

  lemma PaddingSplit(n: nat, bufnxt: nat)
    requires 56 <= bufnxt < 64 && bufnxt <= n && (n - bufnxt) % 64 == 0
    ensures Padding(n) == [0x80] + (Zeros(63 - bufnxt) + Zeros(56)) + LengthBytes(BitCount(n))
  {
    hide LengthBytes, BitCount;
    ZeroPadValue(n, bufnxt);
    assert Zeros(119 - bufnxt) == Zeros(63 - bufnxt) + Zeros(56);
  }

  lemma TwoBlocks(data: seq<byte>, b1: seq<byte>, b2: seq<byte>)
    requires |data| % 64 == 0 && |b1| == 64 && |b2| == 64
    ensures |data + b1 + b2| % 64 == 0
    ensures Blocks(data + b1 + b2) == Compress(Compress(Blocks(data), b1), b2)
  {
    hide Compress, Blocks;
    BlocksSnoc(data, b1);
    BlocksSnoc(data + b1, b2);
  }

  lemma RegroupLong<T>(a: seq<T>, b: seq<T>, c: seq<T>, d: seq<T>, e: seq<T>, f: seq<T>)
    ensures (a + b) + (c + (d + e) + f) == (a + (b + c + d)) + (e + f)
  {
  }

  lemma BlocksSnoc(data: seq<byte>, block: seq<byte>)
    requires |data| % 64 == 0 && |block| == 64
    ensures |data + block| % 64 == 0
    ensures Blocks(data + block) == Compress(Blocks(data), block)
  {
    assert (data + block)[..|data|] == data && (data + block)[|data|..] == block;
  }

  method WriteLength(buf: array<byte>, bits: uint64)
    requires buf.Length == 64
    modifies buf
    ensures buf[..56] == old(buf[..56]) && buf[56..] == LengthBytes(bits)
  {
    hide BeBytes, Power256;
    forall i | 0 <= i < 8
      ensures LengthBytes(bits)[i] == (bits / Power256(7 - i)) % 256
    {
      BeBytesAt(bits, 8, i);
    }
    PowerValues();
    buf[56] := (bits / 0x0100_0000_0000_0000) % 256;
    buf[57] := (bits / 0x0001_0000_0000_0000) % 256;
    buf[58] := (bits / 0x0000_0100_0000_0000) % 256;
    buf[59] := (bits / 0x0000_0001_0000_0000) % 256;
    buf[60] := (bits / 0x0100_0000) % 256;
    buf[61] := (bits / 0x0001_0000) % 256;
    buf[62] := (bits / 0x0100) % 256;
    buf[63] := bits % 256;
  }

  /** The output loop: byte i of word j goes to position i + 4 * j. The inner loop stands
      for the eight assignments of the source's loop body. */
  method Output(state: seq<bv32>) returns (hash: seq<byte>)
    requires |state| == 8
    ensures hash == DigestBytes(state)
  {
    hide WordByte;
    var out := new byte[32];
    for i := 0 to 4
      invariant forall k :: 0 <= k < 32 && k % 4 < i ==> out[k] == DigestByte(state, k)
    {
      for j := 0 to 8
        invariant forall k :: 0 <= k < 32 && k % 4 < i ==> out[k] == DigestByte(state, k)
        invariant forall k :: 0 <= k < 4 * j && k % 4 == i ==> out[k] == DigestByte(state, k)
      {
        out[i + 4 * j] := WordByte(state[j], i);
      }
    }
    hash := out[..];
  }
}
