/** Bytes, C characters, and the numbers byte strings stand for. */
module Bytes {
  import opened Arithmetic

  type byte = x: int | 0 <= x < 256

  /** A char of a compiler whose plain char is signed. */
  type schar = x: int | -128 <= x < 128

  function CharOf(b: byte): (c: schar)
    ensures (c - b) % 256 == 0
  {
    if b < 128 then b else b - 256
  }

  /** char_to_u32_safe_convert: the byte a char holds, whatever its sign. */
  function ByteOf(c: schar): (b: byte)
    ensures (b - c) % 256 == 0
  {
    if c >= 0 then c else 256 + c
  }

  function Chars(s: seq<byte>): (r: seq<schar>)
    ensures |r| == |s|
  {
    seq(|s|, i requires 0 <= i < |s| => CharOf(s[i]))
  }

  function BytesOf(s: seq<schar>): (r: seq<byte>)
    ensures |r| == |s|
  {
    seq(|s|, i requires 0 <= i < |s| => ByteOf(s[i]))
  }

  lemma CharsRoundTrip(s: seq<byte>)
    ensures BytesOf(Chars(s)) == s
  {
  }

  function Power256(k: nat): (p: nat)
    ensures p > 0
  {
    if k == 0 then 1 else 256 * Power256(k - 1)
  }

  lemma {:induction false} Power256Add(i: nat, j: nat)
    ensures Power256(i + j) == Power256(i) * Power256(j)
  {
    if i > 0 {
      Power256Add(i - 1, j);
      assert Power256(i + j) == 256 * Power256(i - 1 + j);
      MulAssoc(256, Power256(i - 1), Power256(j), Power256(i - 1 + j));
    }
  }

  /** A byte string read as one number, most significant byte first. */
  function BeValue(s: seq<byte>): nat {
    if s == [] then 0 else 256 * BeValue(s[..|s| - 1]) + s[|s| - 1]
  }

  /** A byte string read as one number, least significant byte first. */
  function LeValue(s: seq<byte>): nat {
    if s == [] then 0 else s[0] + 256 * LeValue(s[1..])
  }

  lemma {:induction false} BeConcat(s: seq<byte>, t: seq<byte>)
    ensures BeValue(s + t) == BeValue(s) * Power256(|t|) + BeValue(t)
  {
    if t == [] {
      assert s + t == s;
    } else {
      var n := |t| - 1;
      BeConcat(s, t[..n]);
      assert (s + t)[..|s| + n] == s + t[..n];
      MulAssoc(256, BeValue(s), Power256(n), BeValue(s) * Power256(n));
      assert BeValue(s) * (256 * Power256(n)) == 256 * (BeValue(s) * Power256(n));
    }
  }

  lemma {:induction false} LeSnoc(s: seq<byte>, b: byte)
    ensures LeValue(s + [b]) == LeValue(s) + b * Power256(|s|)
  {
    if s == [] {
      assert s + [b] == [b];
      assert LeValue([b]) == b + 256 * LeValue([b][1..]);
    } else {
      LeSnoc(s[1..], b);
      assert (s + [b])[1..] == s[1..] + [b];
      assert b * (256 * Power256(|s| - 1)) == 256 * (b * Power256(|s| - 1));
    }
  }

  lemma BeFour(s: seq<byte>)
    requires |s| == 4
    ensures BeValue(s) == 0x100_0000 * (s[0] as int) + 0x1_0000 * (s[1] as int) + 0x100 * (s[2] as int) + (s[3] as int)
  {
    assert s[..3][..2] == s[..2] && s[..2][..1] == s[..1] && s[..1][..0] == [];
    assert BeValue(s[..1]) == s[0];
    assert BeValue(s[..2]) == 256 * BeValue(s[..1]) + s[1];
    assert BeValue(s[..3]) == 256 * BeValue(s[..2]) + s[2];
  }

  lemma {:induction false} LeBound(s: seq<byte>)
    ensures LeValue(s) < Power256(|s|)
  {
    if s != [] {
      LeBound(s[1..]);
    }
  }
}
