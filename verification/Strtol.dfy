/** Numerals: text that stands for a number in some base. */
module Numerals {
  import opened Arithmetic

  /** What a character counts as a digit; -1 for none. */
  function DigitValue(c: char): int {
    if '0' <= c <= '9' then c as int - '0' as int
    else if 'a' <= c <= 'z' then c as int - 'a' as int + 10
    else if 'A' <= c <= 'Z' then c as int - 'A' as int + 10
    else -1
  }

  const LOWER: string := "0123456789" + "abcdefghi" + "jklmnopqr" + "stuvwxyz"
  const UPPER: string := "0123456789" + "ABCDEFGHI" + "JKLMNOPQR" + "STUVWXYZ"

  lemma LowerAt(d: nat)
    requires d < 36
    ensures |LOWER| == 36 && LOWER[d] as int == d + if d < 10 then '0' as int else 'a' as int - 10
  {
  }

  lemma UpperAt(d: nat)
    requires d < 36
    ensures |UPPER| == 36 && UPPER[d] as int == d + if d < 10 then '0' as int else 'A' as int - 10
  {
  }

  /** The digits of base 36, in either case. */
  lemma DigitAlphabet(c: char, d: nat)
    requires d < 36
    ensures |LOWER| == |UPPER| == 36
    ensures DigitValue(c) == d <==> c == LOWER[d] || c == UPPER[d]
  {
    LowerAt(d);
    UpperAt(d);
    hide LOWER, UPPER;
  }

  predicate IsDigit(c: char, b: nat) {
    0 <= DigitValue(c) < b
  }

  predicate Digits(t: string, b: nat) {
    forall i :: 0 <= i < |t| ==> IsDigit(t[i], b)
  }

  function Value(t: string, b: nat): nat
    requires Digits(t, b)
  {
    if t == [] then 0 else Value(t[..|t| - 1], b) * b + DigitValue(t[|t| - 1])
  }

  lemma ValueSnoc(t: string, c: char, b: nat)
    requires Digits(t, b) && IsDigit(c, b)
    ensures Digits(t + [c], b) && Value(t + [c], b) == Value(t, b) * b + DigitValue(c)
  {
    assert (t + [c])[..|t|] == t;
  }

  /** Longer texts stand for larger numbers. */
  lemma {:induction false} ValueGrows(t: string, n: nat, b: nat)
    requires Digits(t, b) && n <= |t| && b >= 1
    ensures Digits(t[..n], b) && Value(t[..n], b) <= Value(t, b)
  {
    if n == |t| {
      assert t[..n] == t;
    } else {
      var m := |t| - 1;
      ValueGrows(t[..m], n, b);
      assert t[..m][..n] == t[..n];
      MulMonotone(1, b, Value(t[..m], b));
    }
  }

  lemma {:induction false} ValueLeadingZero(t: string, b: nat)
    requires Digits(t, b) && b >= 1
    ensures Digits("0" + t, b) && Value("0" + t, b) == Value(t, b)
  {
    if t == [] {
      assert "0" + t == "0";
      assert "0"[..0] == [];
    } else {
      var m := |t| - 1;
      ValueLeadingZero(t[..m], b);
      assert "0" + t == ("0" + t[..m]) + [t[m]];
      ValueSnoc("0" + t[..m], t[m], b);
    }
  }

  /** How many digits a text begins with. */
  function Run(t: string, b: nat): (n: nat)
    ensures n <= |t| && Digits(t[..n], b)
    ensures n < |t| ==> !IsDigit(t[n], b)
  {
    if t == [] || !IsDigit(t[0], b) then 0
    else
      var n := Run(t[1..], b);
      assert forall i :: 0 < i <= n ==> t[i] == t[1..][..n][i - 1];
      1 + n
  }
}

/** strtol */
module Strtol {
  import opened Arithmetic
  import opened Numerals

  const LONG_MAX: int := 0x7fff_ffff_ffff_ffff
  const LONG_MIN: int := -0x8000_0000_0000_0000
  const ULONG_VALUES: int := 0x1_0000_0000_0000_0000
  const EINVAL: int := 22
  const ERANGE: int := 34
  const UNTOUCHED: int := -1

  //////////////////////////////////////////////////////////////////////////////
  // What counts as a numeral
  //////////////////////////////////////////////////////////////////////////////

  /** "0x" and hexadecimal digits, where the base allows it. */
  predicate Prefixed(t: string, base: nat) {
    && (base == 16 || base == 0)
    && |t| >= 3 && t[0] == '0' && (t[1] == 'x' || t[1] == 'X') && Digits(t[2..], 16)
  }

  /** The base of a numeral without that prefix. */
  function PlainBase(t: string, base: nat): nat
    requires |t| > 0
  {
    if base != 0 then base else if t[0] == '0' then 8 else 10
  }

  /** The whole of t is a numeral without sign. */
  predicate Numeral(t: string, base: nat) {
    Prefixed(t, base) || (|t| > 0 && Digits(t, PlainBase(t, base)))
  }

  function NumeralValue(t: string, base: nat): nat
    requires Numeral(t, base)
  {
    if Prefixed(t, base) then Value(t[2..], 16) else Value(t, PlainBase(t, base))
  }

  /** m is the length of the longest numeral that u begins with, 0 if there is none. */
  predicate Longest(u: string, base: nat, m: nat) {
    && m <= |u| && (m > 0 ==> Numeral(u[..m], base))
    && forall k :: m < k <= |u| ==> !Numeral(u[..k], base)
  }

  /** isspace */
  predicate IsSpace(c: char) {
    9 <= c as int <= 13 || c == ' '
  }

  /** Space, tab, line feed, vertical tab, form feed, carriage return. */
  lemma SpaceCharacters(c: char)
    ensures IsSpace(c) <==> c in [' ', '\t', '\n', 11 as char, 12 as char, '\r']
  {
  }

  function Spaces(s: string): (n: nat)
    ensures n <= |s| && (forall i :: 0 <= i < n ==> IsSpace(s[i]))
    ensures n < |s| ==> !IsSpace(s[n])
  {
    if s == [] || !IsSpace(s[0]) then 0 else 1 + Spaces(s[1..])
  }

  function At(s: string, i: nat): char {
    if i < |s| then s[i] else '\0'
  }

  /** Where the digits may begin: past spaces and one sign. */
  function Start(s: string): (n: nat)
    ensures n <= |s|
  {
    var i := Spaces(s);
    if At(s, i) == '+' || At(s, i) == '-' then i + 1 else i
  }

  predicate Negative(s: string) {
    At(s, Spaces(s)) == '-'
  }

  /** The value a text stands for: the longest numeral it begins with, or 0. */
  function Meant(s: string, base: nat, m: nat): int
    requires Longest(s[Start(s)..], base, m)
  {
    var v := if m == 0 then 0 else NumeralValue(s[Start(s)..][..m], base);
    if Negative(s) then -v else v
  }

  function Clamp(x: int): int {
    if x > LONG_MAX then LONG_MAX else if x < LONG_MIN then LONG_MIN else x
  }

  predicate BaseOk(base: int) {
    base == 0 || 2 <= base <= 36
  }

  //////////////////////////////////////////////////////////////////////////////
  // How the program finds it
  //////////////////////////////////////////////////////////////////////////////

  /** How the program decides: where digits begin in u, in which base, and how much of u it
      has accepted by then. */
  datatype Plan = Plan(from: nat, base: nat, accepted: nat)

  function PlanFor(u: string, base: nat): (p: Plan)
    requires BaseOk(base)
    ensures p.from <= |u| && 2 <= p.base <= 36 && p.accepted <= 1
  {
    if At(u, 0) == '0' then
      if (base == 16 || base == 0) && (At(u, 1) == 'x' || At(u, 1) == 'X') then Plan(2, 16, 1)
      else Plan(1, if base == 0 then 8 else base, 1)
    else Plan(0, if base == 0 then 10 else base, 0)
  }

  /** What the program accepts is the longest numeral, and the digits it sums give its
      value. */
  lemma PlanRight(u: string, base: nat)
    requires BaseOk(base)
    ensures var p := PlanFor(u, base);
      var run := Run(u[p.from..], p.base);
      var m := if run == 0 then p.accepted else p.from + run;
      && Longest(u, base, m)
      && (if m == 0 then 0 else NumeralValue(u[..m], base)) == Value(u[p.from..][..run], p.base)
  {
    var p := PlanFor(u, base);
    if p.from == 2 {
      PlanHex(u, base);
    } else if p.from == 1 {
      PlanZero(u, base);
    } else {
      PlanPlain(u, base);
    }
  }

  lemma PlanHex(u: string, base: nat)
    requires BaseOk(base) && PlanFor(u, base).from == 2
    ensures var run := Run(u[2..], 16);
      var m := if run == 0 then 1 else 2 + run;
      && Longest(u, base, m)
      && NumeralValue(u[..m], base) == Value(u[2..][..run], 16)
  {
    var run := Run(u[2..], 16);
    var m := if run == 0 then 1 else 2 + run;
    forall k | m < k <= |u|
      ensures !Numeral(u[..k], base)
    {
      assert u[..k][1] == u[1] && !IsDigit(u[1], 16);
      if k >= 3 {
        assert u[..k][2..][run] == u[2..][run];
      }
    }
    if run == 0 {
      assert u[..1] == "0";
      assert Digits("0", PlainBase("0", base));
      ValueLeadingZero("", PlainBase("0", base));
      assert "0" + "" == "0";
    } else {
      assert u[..m][2..] == u[2..][..run];
      assert Prefixed(u[..m], base);
    }
  }

  lemma PlanZero(u: string, base: nat)
    requires BaseOk(base) && PlanFor(u, base).from == 1
    ensures var b := PlanFor(u, base).base;
      var run := Run(u[1..], b);
      && Longest(u, base, 1 + run)
      && NumeralValue(u[..1 + run], base) == Value(u[1..][..run], b)
  {
    var b := PlanFor(u, base).base;
    var run := Run(u[1..], b);
    var m := 1 + run;
    assert u[..m] == "0" + u[1..][..run];
    ValueLeadingZero(u[1..][..run], b);
    assert PlainBase(u[..m], base) == b;
    NotPrefixed(u, base, m);
    forall k | m < k <= |u|
      ensures !Numeral(u[..k], base)
    {
      NotPrefixed(u, base, k);
      assert u[..k][m] == u[1..][run];
    }
  }

  lemma NotPrefixed(u: string, base: nat, k: nat)
    requires BaseOk(base) && PlanFor(u, base).from != 2 && k <= |u|
    ensures !Prefixed(u[..k], base)
  {
    if k >= 3 {
      assert u[..k][0] == u[0] && u[..k][1] == u[1];
    }
  }

  lemma PlanPlain(u: string, base: nat)
    requires BaseOk(base) && PlanFor(u, base).from == 0
    ensures var b := PlanFor(u, base).base;
      var run := Run(u, b);
      && u[0..] == u && Longest(u, base, run)
      && (if run == 0 then 0 else NumeralValue(u[..run], base)) == Value(u[..run], b)
  {
    var b := PlanFor(u, base).base;
    var run := Run(u, b);
    assert u[0..] == u;
    if run > 0 {
      NotPrefixed(u, base, run);
      assert u[..run][0] == u[0];
    }
    forall k | run < k <= |u|
      ensures !Numeral(u[..k], base)
    {
      NotPrefixed(u, base, k);
      assert u[..k][run] == u[run] && u[..k][0] == u[0];
    }
  }

  //////////////////////////////////////////////////////////////////////////////
  // The function
  //////////////////////////////////////////////////////////////////////////////

  /** The largest magnitude that fits with the given sign. */
  function Limit(negative: bool): nat {
    if negative then -LONG_MIN else LONG_MAX
  }

  lemma CutIff(n: nat, d: nat, b: nat, limit: nat)
    requires d < b
    ensures n > limit / b || (n == limit / b && d > limit % b) <==> n * b + d > limit
  {
    var q, r := limit / b, limit % b;
    assert limit == q * b + r;
    if n > q {
      MulMonotone(q + 1, n, b);
      assert (q + 1) * b == q * b + b;
    } else if n < q {
      MulMonotone(n + 1, q, b);
      assert (n + 1) * b == n * b + b;
    }
  }

  lemma RunTail(s: string, from: nat, b: nat, p: nat)
    requires from <= p <= |s| && p <= from + Run(s[from..], b)
    ensures Digits(s[from..p], b)
    ensures p == from + Run(s[from..], b) <==> p == |s| || !IsDigit(s[p], b)
    ensures s[from..p] == s[from..][..p - from]
  {
    var run := Run(s[from..], b);
    assert s[from..p] == s[from..][..run][..p - from];
    if p < from + run {
      assert s[p] == s[from..][..run][p - from];
    }
  }

  /** The digit loop. Without an end pointer it may stop at the first overflow. */
  method ReadDigits(s: string, from: nat, b: nat, negative: bool, wantEnd: bool, endp0: nat) returns (n: nat, overflow: bool, endp: nat)
    requires from <= |s| && 2 <= b <= 36
    ensures var run := Run(s[from..], b);
      var v := Value(s[from..][..run], b);
      && (overflow <==> v > Limit(negative))
      && (!overflow ==> n == v)
      && (wantEnd ==> endp == if run == 0 then endp0 else from + run)
  {
    hide Value, Run;
    n, overflow, endp := 0, false, endp0;
    var p := from;
    // C's division truncates, so -(LONG_MIN / base) is the magnitude divided.
    var cutoff, cutlim := Limit(negative) / b, Limit(negative) % b;
    ghost var run := Run(s[from..], b);
    NoDigits(s, from, b);
    while true
      invariant from <= p <= from + run <= |s| && Digits(s[from..p], b)
      invariant if overflow then Value(s[from..p], b) > Limit(negative) else n == Value(s[from..p], b) <= Limit(negative)
      invariant endp == if p == from then endp0 else p
      decreases |s| - p
    {
      RunTail(s, from, b, p);
      var digit;
      var c := At(s, p);
      if c >= 'a' {
        digit := c as int - 'a' as int + 10;
      } else if c >= 'A' {
        digit := c as int - 'A' as int + 10;
      } else if c <= '9' {
        digit := c as int - '0' as int;
      } else {
        break;
      }
      if digit < 0 || digit >= b {
        break;
      }
      assert IsDigit(s[p], b) && DigitValue(s[p]) == digit;
      OneMore(s, from, p, b);
      p := p + 1;
      endp := p;
      if overflow {
        if wantEnd {
          continue;
        }
        break;
      }
      CutIff(n, digit, b, Limit(negative));
      if n > cutoff || (n == cutoff && digit > cutlim) {
        overflow := true;
        continue;
      }
      n := n * b + digit;
    }
    WholeRun(s, from, p, b);
  }

  lemma NoDigits(s: string, from: nat, b: nat)
    requires from <= |s|
    ensures from + Run(s[from..], b) <= |s| && s[from..from] == "" && Value("", b) == 0
  {
  }

  lemma OneMore(s: string, from: nat, p: nat, b: nat)
    requires from <= p < |s| && p < from + Run(s[from..], b) && b >= 1
    ensures Digits(s[from..p], b) && Digits(s[from..p + 1], b) && IsDigit(s[p], b)
    ensures Value(s[from..p + 1], b) == Value(s[from..p], b) * b + DigitValue(s[p])
    ensures Value(s[from..p + 1], b) >= Value(s[from..p], b)
  {
    hide Value;
    RunTail(s, from, b, p);
    assert s[from..p + 1] == s[from..p] + [s[p]];
    ValueSnoc(s[from..p], s[p], b);
    MulMonotone(1, b, Value(s[from..p], b));
  }

  lemma WholeRun(s: string, from: nat, p: nat, b: nat)
    requires from <= p <= |s| && p <= from + Run(s[from..], b) && b >= 1
    ensures Digits(s[from..p], b)
    ensures Value(s[from..p], b) <= Value(s[from..][..Run(s[from..], b)], b)
    ensures p == from + Run(s[from..], b) ==> s[from..p] == s[from..][..Run(s[from..], b)]
  {
    hide Value;
    var run := Run(s[from..], b);
    ValueGrows(s[from..][..run], p - from, b);
    assert s[from..][..run][..p - from] == s[from..p];
  }

  /** strtol: the value meant, clamped to the range of long; errno tells when it was
      clamped; the end pointer, when asked for, is set past the last character used. The
      length m of the longest numeral is given for reference. */
  method Strtol(s: string, wantEnd: bool, base0: int) returns (v: int, endp: int, errno: int, ghost m: nat)
    ensures !BaseOk(base0) ==> v == 0 && errno == EINVAL && endp == UNTOUCHED
    ensures BaseOk(base0) ==>
              && Longest(s[Start(s)..], base0, m)
              && v == Clamp(Meant(s, base0, m))
              && errno == (if Clamp(Meant(s, base0, m)) == Meant(s, base0, m) then 0 else ERANGE)
              && endp == if !wantEnd then UNTOUCHED else if m == 0 then 0 else Start(s) + m
  {
    hide Value, Run, Longest, NumeralValue, PlanFor, Spaces, Start, Negative, Digits;
    if base0 < 0 || base0 == 1 || base0 > 36 {
      return 0, UNTOUCHED, EINVAL, 0;
    }
    var p, base, negative, endp1 := Prefix(s, base0);
    ghost var u := s[Start(s)..];
    ghost var plan := PlanFor(u, base0);
    PlanRight(u, base0);
    assert u[plan.from..] == s[p..];
    ghost var run := Run(s[p..], base);
    m := if run == 0 then plan.accepted else plan.from + run;
    var n, overflow, endp2 := ReadDigits(s, p, base, negative, wantEnd, endp1);
    endp := if wantEnd then endp2 else UNTOUCHED;
    assert Meant(s, base0, m) == var x: int := Value(s[p..][..run], base); if negative then -x else x;
    if overflow {
      return if negative then LONG_MIN else LONG_MAX, endp, ERANGE, m;
    }
    v := AsLong(if negative then (ULONG_VALUES - n) % ULONG_VALUES else n);
    AsLongNegated(n, negative);
    errno := 0;
  }

  lemma AsLongNegated(n: nat, negative: bool)
    requires n <= Limit(negative)
    ensures AsLong(if negative then (ULONG_VALUES - n) % ULONG_VALUES else n) == if negative then -(n as int) else n
  {
  }

  lemma AtSuffix(s: string, k: nat, i: nat)
    requires k <= |s|
    ensures At(s[k..], i) == At(s, k + i)
  {
  }

  /** Spaces, sign and base prefix. */
  method Prefix(s: string, base0: nat) returns (p: nat, base: nat, negative: bool, endp: nat)
    requires BaseOk(base0)
    ensures var plan := PlanFor(s[Start(s)..], base0);
      p == Start(s) + plan.from && base == plan.base && endp == (if plan.accepted == 0 then 0 else Start(s) + 1)
    ensures p <= |s| && negative == Negative(s)
  {
    base := base0;
    p := SkipSpaces(s);
    negative := false;
    if At(s, p) == '+' {
      p := p + 1;
    } else if At(s, p) == '-' {
      negative := true;
      p := p + 1;
    }
    AtSuffix(s, p, 0);
    AtSuffix(s, p, 1);
    endp := 0;
    if At(s, p) == '0' {
      p := p + 1;
      endp := p;
      if base == 16 && (At(s, p) == 'X' || At(s, p) == 'x') {
        p := p + 1;
      } else if base == 0 {
        if At(s, p) == 'X' || At(s, p) == 'x' {
          base, p := 16, p + 1;
        } else {
          base := 8;
        }
      }
    } else if base == 0 {
      base := 10;
    }
  }

  /** The conversion of an unsigned long to a long. */
  function AsLong(x: nat): int {
    if x > LONG_MAX then x - ULONG_VALUES else x
  }

  method SkipSpaces(s: string) returns (p: nat)
    ensures p == Spaces(s)
  {
    p := 0;
    while p < |s| && IsSpace(s[p])
      invariant p <= |s| && forall i :: 0 <= i < p ==> IsSpace(s[i])
      invariant p <= Spaces(s)
    {
      p := p + 1;
    }
  }
}
