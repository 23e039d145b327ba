/** The kernel's integer printing and scanning. */
module NumberText {
  import opened Arithmetic
  import opened Numerals
  import opened Strtol
  import opened Machine

  const U32_VALUES: int := 0x1_0000_0000

  type int32 = x: int | -0x8000_0000 <= x < 0x8000_0000

  function ToU32(x: int): uint32 {
    x % U32_VALUES
  }

  function ToI32(x: int): int32 {
    var y := x % U32_VALUES;
    if y < 0x8000_0000 then y else y - U32_VALUES
  }

  predicate OfAlphabet(c: char, upper: bool) {
    '0' <= c <= '9' || if upper then 'A' <= c <= 'F' else 'a' <= c <= 'f'
  }

  /** The character of a digit below 16, in the alphabet of %x or of %X. */
  function DigitChar(d: nat, upper: bool): (c: char)
    requires d < 16
    ensures OfAlphabet(c, upper)
  {
    if d < 10 then '0' + d as char
    else if upper then 'A' + (d - 10) as char
    else 'a' + (d - 10) as char
  }

  lemma DigitCharValue(d: nat, upper: bool)
    requires d < 16
    ensures DigitValue(DigitChar(d, upper)) == d
  {
  }

  /** A number written out, most significant digit first. */
  function Text(v: nat, b: nat, upper: bool): string
    requires 2 <= b <= 16
  {
    if v < b then [DigitChar(v, upper)] else Text(v / b, b, upper) + [DigitChar(v % b, upper)]
  }

  lemma {:induction false} TextOfAlphabet(v: nat, b: nat, upper: bool)
    requires 2 <= b <= 16
    ensures forall i :: 0 <= i < |Text(v, b, upper)| ==> OfAlphabet(Text(v, b, upper)[i], upper)
  {
    hide DigitChar, OfAlphabet;
    if v >= b {
      TextOfAlphabet(v / b, b, upper);
    }
  }

  /** What is written reads back as the number, and has no zeroes to spare. */
  lemma {:induction false} TextReads(v: nat, b: nat, upper: bool)
    requires 2 <= b <= 16
    ensures var t := Text(v, b, upper);
      |t| > 0 && Digits(t, b) && Value(t, b) == v && (v > 0 ==> t[0] != '0')
  {
    hide Value, DigitChar, DigitValue;
    if v < b {
      DigitCharValue(v, upper);
      NoText(b);
      ValueSnoc("", DigitChar(v, upper), b);
      assert "" + [DigitChar(v, upper)] == [DigitChar(v, upper)];
      NotZero(v, upper);
    } else {
      var q, r := v / b, v % b;
      assert v == q * b + r;
      DivPositive(v, b);
      DivLess(v, b);
      TextReads(q, b, upper);
      DigitCharValue(r, upper);
      ValueSnoc(Text(q, b, upper), DigitChar(r, upper), b);
    }
  }

  lemma NoText(b: nat)
    ensures Value("", b) == 0
  {
  }

  lemma NotZero(d: nat, upper: bool)
    requires d < 16
    ensures d > 0 ==> DigitChar(d, upper) != '0'
  {
  }

  lemma DivPositive(v: nat, b: nat)
    requires 2 <= b <= v
    ensures v / b > 0
  {
    assert v == (v / b) * b + v % b;
    if v / b <= 0 {
      MulMonotone(v / b, 0, b);
    }
  }

  function Pow8(k: nat): nat {
    if k == 0 then 1 else 8 * Pow8(k - 1)
  }

  lemma DivAtMost(v: nat, b: nat, p: nat)
    requires b >= 8 && v < 8 * p
    ensures v / b < p
  {
    if v / b >= p {
      MulMonotone(p, v / b, b);
      MulMonotone(8, b, p);
    }
  }

  /** The digits of a positive number end up in the temporary buffer last first; nothing is
      left of the number. */
  function LastFirst(v: nat, b: nat, upper: bool): string
    requires 2 <= b <= 16
    decreases v
  {
    if v == 0 then "" else [DigitChar(v % b, upper)] + (DivLess(v, b); LastFirst(v / b, b, upper))
  }

  lemma DivLess(v: nat, b: nat)
    requires v > 0 && b >= 2
    ensures v / b < v
  {
    if v / b >= v {
      MulMonotone(v, v / b, b);
      MulMonotone(2, b, v);
    }
  }

  function Reversed(s: string): string {
    if s == [] then [] else Reversed(s[1..]) + [s[0]]
  }

  lemma {:induction false} LastFirstText(v: nat, b: nat, upper: bool)
    requires 2 <= b <= 16 && v > 0
    ensures Reversed(LastFirst(v, b, upper)) == Text(v, b, upper)
    decreases v
  {
    DivLess(v, b);
    var c := [DigitChar(v % b, upper)];
    assert (c + LastFirst(v / b, b, upper))[1..] == LastFirst(v / b, b, upper);
    if v >= b {
      DivPositive(v, b);
      LastFirstText(v / b, b, upper);
    } else {
      DivUnique(v, b, 0, v);
    }
  }

  /** The two loops that the printing functions share: digits into a buffer of 16, then out
      of it backwards. */
  method PutDigits(value0: uint32, b: nat, upper: bool, out0: string) returns (out: string)
    requires 8 <= b <= 16
    ensures out == out0 + Text(value0, b, upper)
  {
    hide Text, LastFirst, Reversed;
    var tmp := new char[16];
    var nxt := FillDigits(value0, b, upper, tmp);
    LastFirstZero(value0, b, upper);
    if nxt == 0 {
      return out0 + "0";
    }
    LastFirstText(value0, b, upper);
    out := out0;
    ghost var all := tmp[..nxt];
    ReversedNothing();
    assert all[..nxt] == all;
    while nxt != 0
      invariant 0 <= nxt <= |all| <= 16 && all == tmp[..|all|]
      invariant out + Reversed(all[..nxt]) == out0 + Reversed(all)
    {
      nxt := nxt - 1;
      ReversedLast(all[..nxt + 1]);
      assert all[..nxt + 1][..nxt] == all[..nxt];
      out := out + [tmp[nxt]];
    }
  }

  method FillDigits(value0: uint32, b: nat, upper: bool, tmp: array<char>) returns (nxt: nat)
    requires 8 <= b <= 16 && tmp.Length == 16
    modifies tmp
    ensures nxt <= 11 && tmp[..nxt] == LastFirst(value0, b, upper)
  {
    hide Pow8, LastFirst, DigitChar, Text;
    var value: nat := value0;
    nxt := 0;
    Pow8Eleven();
    while value > 0
      invariant nxt <= 11 && value < Pow8(11 - nxt)
      invariant tmp[..nxt] + LastFirst(value, b, upper) == LastFirst(value0, b, upper)
      decreases value
    {
      var rest, digit := value / b, value % b;
      ghost var put := tmp[..nxt];
      DigitStep(value, b, upper, nxt, rest, digit);
      tmp[nxt] := DigitChar(digit, upper);
      assert tmp[..nxt + 1] == put + [DigitChar(digit, upper)];
      nxt := nxt + 1;
      value := rest;
    }
    LastFirstZero(value, b, upper);
  }

  lemma DigitStep(value: nat, b: nat, upper: bool, nxt: nat, rest: nat, digit: int)
    requires 8 <= b <= 16 && nxt <= 11 && 0 < value < Pow8(11 - nxt) && rest == value / b && digit == value % b
    ensures nxt < 11 && rest < value && rest < Pow8(10 - nxt) && 0 <= digit < 16
    ensures LastFirst(value, b, upper) == [DigitChar(digit, upper)] + LastFirst(rest, b, upper)
  {
    hide Pow8, LastFirst, DigitChar;
    DivLess(value, b);
    Counted(value, nxt);
    DivAtMost(value, b, Pow8(10 - nxt));
    LastFirstStep(value, b, upper);
  }

  lemma Pow8Eleven()
    ensures Pow8(11) == 0x2_0000_0000
  {
  }

  lemma LastFirstStep(v: nat, b: nat, upper: bool)
    requires 2 <= b <= 16 && v > 0
    ensures LastFirst(v, b, upper) == [DigitChar(v % b, upper)] + LastFirst(v / b, b, upper)
  {
  }

  lemma LastFirstZero(v: nat, b: nat, upper: bool)
    requires 2 <= b <= 16
    ensures LastFirst(v, b, upper) == "" <==> v == 0
    ensures v == 0 ==> Text(v, b, upper) == "0"
  {
  }

  lemma ReversedNothing()
    ensures Reversed("") == ""
  {
  }

  lemma Counted(value: nat, nxt: nat)
    requires nxt <= 11 && 0 < value < Pow8(11 - nxt)
    ensures nxt < 11 && Pow8(11 - nxt) == 8 * Pow8(10 - nxt)
  {
  }

  lemma {:induction false} ReversedLast(s: string)
    requires s != []
    ensures Reversed(s) == [s[|s| - 1]] + Reversed(s[..|s| - 1])
  {
    if |s| > 1 {
      ReversedLast(s[1..]);
      assert s[1..][..|s| - 2] == s[..|s| - 1][1..];
    }
  }

  /** _printf_u32 */
  method PrintU32(value: uint32, out0: string) returns (out: string)
    ensures out == out0 + Text(value, 10, false)
  {
    out := PutDigits(value, 10, false, out0);
  }

  /** _printf_hex32_impl, with either alphabet. */
  method PrintHex32(value: uint32, upper: bool, out0: string) returns (out: string)
    ensures out == out0 + ("0x" + Text(value, 16, upper))
  {
    out := out0 + "0" + "x";
    out := PutDigits(value, 16, upper, out);
  }

  /** What _printf_i32 writes. */
  function Printed(v: int32): string {
    if v < 0 then "-" + Text(-(v as int), 10, false) else Text(v, 10, false)
  }

  lemma Magnitude(v: int32)
    ensures v < 0 ==> ToU32(ToI32(-(v as int))) == -(v as int)
    ensures v >= 0 ==> ToU32(v) == v
  {
  }

  /** _printf_i32: the negation of the least int wraps around to itself, and is then read as
      unsigned. */
  method PrintI32(value0: int32, out0: string) returns (out: string)
    ensures out == out0 + Printed(value0)
  {
    hide Text, ToU32, ToI32;
    var value := value0;
    out := out0;
    Magnitude(value);
    if value < 0 {
      out := out + "-";
      value := ToI32(-(value as int));
    }
    out := PrintU32(ToU32(value), out);
  }

  //////////////////////////////////////////////////////////////////////////////
  // Scanning
  //////////////////////////////////////////////////////////////////////////////

  /** _scanf_u32: every digit is consumed; the value wraps around. */
  method ScanU32(s: string, pos: nat) returns (read: nat, val: uint32)
    requires pos <= |s|
    ensures read == Run(s[pos..], 10) && val == ToU32(Value(s[pos..][..read], 10))
  {
    hide Value, Run, ToU32, Digits;
    read := 0;
    val := 0;
    ScanNothing(s, pos);
    while '0' <= At(s, pos + read) <= '9'
      invariant Scanned(s, pos, read, val)
      decreases |s| - pos - read
    {
      ScanStep(s, pos, read, val);
      var res := val * 10 % U32_VALUES;
      val := (res + (s[pos + read] as int - '0' as int)) % U32_VALUES;
      read := read + 1;
    }
    ScanEnd(s, pos, read, val);
  }

  /** The state after `read` digits. */
  predicate Scanned(s: string, pos: nat, read: nat, val: uint32) {
    && pos + read <= |s| && read <= Run(s[pos..], 10)
    && Digits(s[pos..pos + read], 10) && val == ToU32(Value(s[pos..pos + read], 10))
  }

  lemma ScanNothing(s: string, pos: nat)
    requires pos <= |s|
    ensures Scanned(s, pos, 0, 0)
  {
    NoDigits(s, pos, 10);
  }

  lemma ScanStep(s: string, pos: nat, read: nat, val: uint32)
    requires Scanned(s, pos, read, val) && '0' <= At(s, pos + read) <= '9'
    ensures pos + read < |s|
    ensures var d := s[pos + read] as int - '0' as int;
      d >= 0 && Scanned(s, pos, read + 1, (val * 10 % U32_VALUES + d) % U32_VALUES)
  {
    hide Value, Run;
    RunTail(s, pos, 10, pos + read);
    NoDigitHere(s, pos + read);
    OneMore(s, pos, pos + read, 10);
    WrapDigit(Value(s[pos..pos + read], 10), DigitValue(s[pos + read]));
  }

  lemma ScanEnd(s: string, pos: nat, read: nat, val: uint32)
    requires Scanned(s, pos, read, val) && !('0' <= At(s, pos + read) <= '9')
    ensures read == Run(s[pos..], 10) && val == ToU32(Value(s[pos..][..read], 10))
  {
    hide Value, Run;
    RunTail(s, pos, 10, pos + read);
    if pos + read < |s| {
      NoDigitHere(s, pos + read);
    }
  }

  lemma NoDigitHere(s: string, p: nat)
    requires p < |s|
    ensures IsDigit(s[p], 10) <==> '0' <= s[p] <= '9'
  {
  }

  lemma WrapDigit(v: nat, d: nat)
    ensures (ToU32(v) * 10 % U32_VALUES + d) % U32_VALUES == ToU32(v * 10 + d)
  {
    var u: int := ToU32(v);
    var k, k' := v / U32_VALUES, u * 10 / U32_VALUES;
    assert u == v - k * U32_VALUES && u * 10 % U32_VALUES == u * 10 - k' * U32_VALUES;
    ModOfMultiple(v * 10 + d, -(10 * k + k'), U32_VALUES);
  }

  /** _scanf_i32: a sign, then digits. Without digits nothing is stored, though a sign has
      been taken. */
  method ScanI32(s: string, pos: nat, val0: int32) returns (read: nat, val: int32, next: nat)
    requires pos <= |s|
    ensures (read, val) == ScannedI32(s[pos..], val0)
    ensures next == pos + (if read == 0 then SignLength(s[pos..]) else read)
  {
    hide Value, Run;
    var negative := false;
    next := pos;
    read := 0;
    AtSuffix(s, pos, 0);
    if At(s, next) == '-' {
      negative := true;
      next := next + 1;
      read := read + 1;
    }
    assert s[next..] == s[pos..][SignLength(s[pos..])..];
    var imm, tmpU32 := ScanU32(s, next);
    if imm == 0 {
      return 0, val0, next;
    }
    next := next + imm;
    read := read + imm;
    val := ToI32(tmpU32);
    if negative {
      val := ToI32(-(val as int));
    }
    SignedWrap(Value(s[pos..][SignLength(s[pos..])..][..imm], 10));
  }

  function SignLength(s: string): (n: nat)
    ensures n <= |s|
  {
    if At(s, 0) == '-' then 1 else 0
  }

  /** What scanning a text gives: the number of characters read, and the value of all its
      digits, signed and wrapped around once; or nothing. */
  function ScannedI32(s: string, otherwise: int32): (nat, int32) {
    var sign := SignLength(s);
    var run := Run(s[sign..], 10);
    var v := Value(s[sign..][..run], 10);
    if run == 0 then (0, otherwise) else (sign + run, ToI32(if sign == 1 then -(v as int) else v))
  }

  lemma SignedWrap(v: nat)
    ensures ToI32(ToU32(v)) == ToI32(v)
    ensures ToI32(-(ToI32(v) as int)) == ToI32(-(v as int))
  {
    var x: int := ToI32(v);
    var k := v / U32_VALUES + if v % U32_VALUES < 0x8000_0000 then 0 else 1;
    assert x == v - k * U32_VALUES;
    ModOfMultiple(-(v as int), k, U32_VALUES);
  }

  //////////////////////////////////////////////////////////////////////////////
  // Round trips
  //////////////////////////////////////////////////////////////////////////////

  predicate NoDigitFirst(rest: string, b: nat) {
    |rest| > 0 ==> !IsDigit(rest[0], b)
  }

  lemma {:induction false} RunOfText(t: string, rest: string, b: nat)
    requires Digits(t, b) && NoDigitFirst(rest, b)
    ensures Run(t + rest, b) == |t|
    decreases |t|
  {
    if t == [] {
      assert t + rest == rest;
    } else {
      assert (t + rest)[1..] == t[1..] + rest;
      assert Digits(t[1..], b);
      RunOfText(t[1..], rest, b);
    }
  }

  /** Every 32-bit integer that is printed is scanned back, whatever non-digit follows. */
  lemma PrintScanI32(v: int32, rest: string, otherwise: int32)
    requires NoDigitFirst(rest, 10)
    ensures ScannedI32(Printed(v) + rest, otherwise) == (|Printed(v)|, v)
  {
    hide Value, Text, Run, Digits, NoDigitFirst;
    var t := PrintedDigits(v);
    var s := Printed(v) + rest;
    SignThenDigits(v, rest);
    RunOfText(t, rest, 10);
    assert (t + rest)[..|t|] == t;
    assert Printed(v) == s[..SignLength(s)] + t;
  }

  function PrintedDigits(v: int32): string {
    Text(if v < 0 then -(v as int) else v, 10, false)
  }

  lemma SignThenDigits(v: int32, rest: string)
    ensures var t, s := PrintedDigits(v), Printed(v) + rest;
            && |t| > 0 && Digits(t, 10) && Value(t, 10) == (if v < 0 then -(v as int) else v)
            && IsDigit(t[0], 10) && SignLength(s) == (if v < 0 then 1 else 0) == |Printed(v)| - |t|
            && s[SignLength(s)..] == t + rest
  {
    hide Value, Text, Run;
    TextReads(if v < 0 then -(v as int) else v, 10, false);
    assert IsDigit(PrintedDigits(v)[0], 10);
  }

  lemma PrintScanU32(v: uint32, rest: string)
    requires NoDigitFirst(rest, 10)
    ensures var s := Text(v, 10, false) + rest;
      Run(s, 10) == |Text(v, 10, false)| && ToU32(Value(s[..Run(s, 10)], 10)) == v
  {
    hide Value, Text;
    var t := Text(v, 10, false);
    TextReads(v, 10, false);
    RunOfText(t, rest, 10);
    assert (t + rest)[..|t|] == t;
  }

  /** What the kernel prints, strtol reads: decimal in base 10, and hexadecimal in base 16
      or in base 0. */
  lemma PrintStrtolHex(v: uint32, upper: bool, base: nat, rest: string)
    requires (base == 16 || base == 0) && NoDigitFirst(rest, 16)
    ensures var t := "0x" + Text(v, 16, upper);
      Start(t + rest) == 0 && Longest((t + rest)[0..], base, |t|) && Meant(t + rest, base, |t|) == v
  {
    hide Value, Text, NumeralValue, Longest;
    var d := Text(v, 16, upper);
    var t := "0x" + d;
    var u := t + rest;
    TextReads(v, 16, upper);
    RunOfText(d, rest, 16);
    assert u[2..] == d + rest && (d + rest)[..|d|] == d && u[0] == '0';
    assert u[0..] == u && PlanFor(u, base) == Plan(2, 16, 1) && Start(u) == 0 && !Negative(u);
    hide Run, Digits, PlanFor, Start, Negative;
    PlanRight(u, base);
  }

  lemma PrintStrtolI32(v: int32, rest: string)
    requires NoDigitFirst(rest, 10)
    ensures var s := Printed(v) + rest;
      var m := |Printed(v)| - Start(s);
      m >= 0 && Longest(s[Start(s)..], 10, m) && Meant(s, 10, m) == v
  {
    hide Value, Text, NumeralValue, Longest, Digits, NoDigitFirst, PrintedDigits, Printed;
    var t := PrintedDigits(v);
    var s := Printed(v) + rest;
    SignThenDigits(v, rest);
    DecimalPlan(t, rest);
    StartsWithDigit(s, t, rest);
  }

  lemma StartsWithDigit(s: string, t: string, rest: string)
    requires |t| > 0 && IsDigit(t[0], 10) && s[SignLength(s)..] == t + rest
    ensures Start(s) == SignLength(s) && (Negative(s) <==> SignLength(s) == 1)
  {
    assert s[SignLength(s)] == t[0];
  }

  lemma DecimalPlan(t: string, rest: string)
    requires |t| > 0 && Digits(t, 10) && NoDigitFirst(rest, 10)
    ensures Longest(t + rest, 10, |t|)
    ensures NumeralValue((t + rest)[..|t|], 10) == Value(t, 10)
  {
    hide Value;
    var u := t + rest;
    assert u[..|t|] == t;
    assert !Prefixed(t, 10) && PlainBase(t, 10) == 10;
    forall k | |t| < k <= |u|
      ensures !Numeral(u[..k], 10)
    {
      assert u[..k][|t|] == rest[0];
    }
  }
}
