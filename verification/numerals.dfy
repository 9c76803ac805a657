/**
 * Integers as JavaScript writes and reads them: the decimal rendering of a
 * template literal `${n}` and the global `parseInt` with its default radix.
 */
module Numerals {
  import opened Base
  import opened Text

  function DigitChar(d: nat): (c: char)
    requires d < 10
    ensures IsDigit(c)
  {
    ('0' as int + d) as char
  }

  /** Decimal digits of `n`, most significant first, without leading zeros. */
  function NatToString(n: nat): (r: string)
    ensures |r| >= 1 && AllDigits(r)
    ensures r[0] == '0' ==> n == 0
    decreases n
  {
    if n < 10 then [DigitChar(n)] else NatToString(n / 10) + [DigitChar(n % 10)]
  }

  /** `String(n)` / `${n}` for an integral number. */
  function IntToString(n: int): string {
    if n < 0 then "-" + NatToString(-n) else NatToString(n)
  }

  /** The digit value `parseInt` gives a character: 0-9, then a-z (either case) as 10-35; 36 for anything else. */
  function DigitValue(c: char): (v: nat)
    ensures v <= 36
  {
    if '0' <= c <= '9' then c as int - '0' as int
    else if 'a' <= c <= 'z' then c as int - 'a' as int + 10
    else if 'A' <= c <= 'Z' then c as int - 'A' as int + 10
    else 36
  }

  predicate IsRadixDigit(c: char, radix: nat) {
    DigitValue(c) < radix
  }

  /** Length of the longest prefix of `s` made of radix digits. */
  function RadixRun(s: string, radix: nat): (k: nat)
    ensures k <= |s|
    ensures forall i :: 0 <= i < k ==> IsRadixDigit(s[i], radix)
    ensures k < |s| ==> !IsRadixDigit(s[k], radix)
  {
    if s == [] || !IsRadixDigit(s[0], radix) then 0 else 1 + RadixRun(s[1..], radix)
  }

  /** The number the digit string `ds` denotes in base `radix`. */
  function RadixValue(ds: string, radix: nat): nat {
    if ds == [] then 0
    else RadixValue(ds[..|ds| - 1], radix) * radix + DigitValue(ds[|ds| - 1])
  }

  /**
   * `parseInt(s)` with no radix argument: skip leading white space, take an
   * optional sign, then read the unsigned part; `None` is `NaN`.
   */
  function ParseInt(s: string): Option<int> {
    var t := TrimStart(s);
    if |t| > 0 && t[0] == '-' then
      match ParseUnsigned(t[1..])
      case None => None
      case Some(v) => Some(-v)
    else if |t| > 0 && t[0] == '+' then ParseUnsigned(t[1..])
    else ParseUnsigned(t)
  }

  /**
   * The unsigned part of `parseInt`: base 16 after a `0x`/`0X` prefix, base 10
   * otherwise, reading the longest run of digits; `None` when there is none.
   */
  function ParseUnsigned(u: string): Option<int> {
    var hex := |u| >= 2 && u[0] == '0' && (u[1] == 'x' || u[1] == 'X');
    var radix := if hex then 16 else 10;
    var w := if hex then u[2..] else u;
    var k := RadixRun(w, radix);
    if k == 0 then None else Some(RadixValue(w[..k], radix))
  }

  lemma {:induction false} DecimalRun(ds: string, rest: string)
    requires AllDigits(ds)
    requires rest == [] || !IsDigit(rest[0])
    ensures RadixRun(ds + rest, 10) == |ds|
  {
    if ds != [] {
      assert (ds + rest)[1..] == ds[1..] + rest;
      DecimalRun(ds[1..], rest);
    } else {
      assert ds + rest == rest;
    }
  }

  lemma {:induction false} DecimalValue(n: nat)
    ensures RadixValue(NatToString(n), 10) == n
    decreases n
  {
    if n >= 10 {
      var ds := NatToString(n);
      assert ds[..|ds| - 1] == NatToString(n / 10);
      DecimalValue(n / 10);
    }
  }

  lemma DecimalUnsigned(m: nat, rest: string)
    requires rest == [] || (!IsDigit(rest[0]) && rest[0] != 'x' && rest[0] != 'X')
    ensures ParseUnsigned(NatToString(m) + rest) == Some(m)
  {
    var ds := NatToString(m);
    var body := ds + rest;
    assert !(|body| >= 2 && body[0] == '0' && (body[1] == 'x' || body[1] == 'X')) by {
      if |body| >= 2 && body[0] == '0' {
        assert m == 0 && |ds| == 1;
        assert body[1] == rest[0];
      }
    }
    DecimalRun(ds, rest);
    assert body[..|ds|] == ds;
    DecimalValue(m);
  }

  lemma ParseIntUnsigned(s: string)
    requires s != [] && IsDigit(s[0])
    ensures ParseInt(s) == ParseUnsigned(s)
  {
    assert !IsJsSpace(s[0]);
  }

  lemma ParseIntMinus(body: string, m: int)
    requires ParseUnsigned(body) == Some(m)
    ensures ParseInt("-" + body) == Some(-m)
  {
    var s := "-" + body;
    assert s[1..] == body;
    assert !IsJsSpace(s[0]);
  }

  /**
   * `parseInt` reads back the integer a template literal wrote, whatever
   * non-digit text follows it (so `parseInt("12 Hours") == 12`).
   */
  lemma ParseIntAfterIntToString(n: int, rest: string)
    requires rest == [] || (!IsDigit(rest[0]) && rest[0] != 'x' && rest[0] != 'X')
    ensures ParseInt(IntToString(n) + rest) == Some(n)
  {
    if n < 0 {
      NegativeAfterIntToString(n, rest);
    } else {
      DecimalUnsigned(n, rest);
      ParseIntUnsigned(NatToString(n) + rest);
    }
  }

  lemma NegativeAfterIntToString(n: int, rest: string)
    requires n < 0
    requires rest == [] || (!IsDigit(rest[0]) && rest[0] != 'x' && rest[0] != 'X')
    ensures ParseInt(IntToString(n) + rest) == Some(n)
  {
    NegativeSplit(n, rest);
    NegativeParse(NatToString(-n) + rest, -n, rest);
  }

  lemma NegativeSplit(n: int, rest: string)
    requires n < 0
    ensures IntToString(n) + rest == "-" + (NatToString(-n) + rest)
  {
    AppendAssoc("-", NatToString(-n), rest);
  }

  lemma NegativeParse(body: string, m: nat, rest: string)
    requires body == NatToString(m) + rest
    requires rest == [] || (!IsDigit(rest[0]) && rest[0] != 'x' && rest[0] != 'X')
    ensures ParseInt("-" + body) == Some(-(m as int))
  {
    DecimalUnsigned(m, rest);
    ParseIntMinus(body, m);
  }

  /** The plain round trip: `parseInt(String(n)) == n`. */
  lemma ParseIntRoundTrip(n: int)
    ensures ParseInt(IntToString(n)) == Some(n)
  {
    ParseIntAfterIntToString(n, "");
    assert IntToString(n) + "" == IntToString(n);
  }
}
