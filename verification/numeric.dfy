/** Decimal integer text, as the sample programs read their size argument:
    Python's `int(text)` accepts only a whole numeral, while C's `strtol`,
    `strtoull` and `atoll` take the longest numeral at the front and yield 0
    when there is none. */
module Numeric {
  import opened Common

  predicate IsDigit(c: char)
  {
    '0' <= c <= '9'
  }

  predicate AllDigits(s: string)
  {
    forall i :: 0 <= i < |s| ==> IsDigit(s[i])
  }

  function DigitValue(c: char): nat
    requires IsDigit(c)
  {
    c as int - '0' as int
  }

  function DigitChar(d: nat): (c: char)
    requires d < 10
    ensures IsDigit(c) && DigitValue(c) == d
  {
    ('0' as int + d) as char
  }

  /** Value of a run of decimal digits, most significant first. */
  function DigitsValue(ds: string): nat
    requires AllDigits(ds)
  {
    if |ds| == 0 then 0 else DigitsValue(ds[..|ds| - 1]) * 10 + DigitValue(ds[|ds| - 1])
  }

  /** Shortest decimal numeral of n. */
  function ShowNat(n: nat): (s: string)
    ensures |s| >= 1 && AllDigits(s)
  {
    if n < 10 then [DigitChar(n)] else ShowNat(n / 10) + [DigitChar(n % 10)]
  }

  /** Decimal numeral of x, with a leading '-' when x is negative. */
  function ShowInt(x: int): string
  {
    if x < 0 then "-" + ShowNat(-x) else ShowNat(x)
  }

  lemma {:induction false} ShowNatRoundTrip(n: nat)
    ensures DigitsValue(ShowNat(n)) == n
  {
    if n >= 10 {
      ShowNatRoundTrip(n / 10);
      var s := ShowNat(n);
      assert s[..|s| - 1] == ShowNat(n / 10);
    }
  }

  /** White space that both C's `isspace` and Python's `str.strip` skip. */
  predicate IsSpace(c: char)
  {
    c == ' ' || c == '\t' || c == '\n' || c == '\r' || c == '\U{0B}' || c == '\U{0C}'
  }

  /** Drops leading white space. */
  function SkipSpace(s: string): (t: string)
    ensures |t| <= |s| && t == s[|s| - |t|..]
    ensures |t| == 0 || !IsSpace(t[0])
    ensures forall i :: 0 <= i < |s| - |t| ==> IsSpace(s[i])
  {
    if |s| > 0 && IsSpace(s[0]) then
      var t := SkipSpace(s[1..]);
      assert s[1..][|s| - 1 - |t|..] == s[|s| - |t|..];
      t
    else s
  }

  /** Drops trailing white space. */
  function TrimEnd(s: string): (t: string)
    ensures |t| <= |s| && t == s[..|t|]
    ensures |t| == 0 || !IsSpace(t[|t| - 1])
    ensures forall i :: |t| <= i < |s| ==> IsSpace(s[i])
  {
    if |s| > 0 && IsSpace(s[|s| - 1]) then TrimEnd(s[..|s| - 1]) else s
  }

  /** Length of the run of digits at the front of s. */
  function LeadingDigitCount(s: string): (k: nat)
    ensures k <= |s| && AllDigits(s[..k])
    ensures k < |s| ==> !IsDigit(s[k])
  {
    if |s| == 0 || !IsDigit(s[0]) then 0
    else
      var k := 1 + LeadingDigitCount(s[1..]);
      assert s[..k] == [s[0]] + s[1..][..k - 1];
      k
  }

  /** Splits an optional leading sign off a numeral: (negative?, rest). */
  function SplitSign(t: string): (bool, string)
  {
    if |t| > 0 && (t[0] == '-' || t[0] == '+') then (t[0] == '-', t[1..]) else (false, t)
  }

  /** Python's `int(text)` in base 10: surrounding white space, an optional
      sign and at least one digit; anything else is a ValueError (None). */
  function ParseStrictInt(s: string): Option<int>
  {
    var signed := SplitSign(TrimEnd(SkipSpace(s)));
    if |signed.1| == 0 || !AllDigits(signed.1) then None
    else
      var v: int := DigitsValue(signed.1);
      Some(if signed.0 then -v else v)
  }

  /** C's `strtol` in base 10 before range clamping: leading white space, an
      optional sign and the longest run of digits; 0 when there are none. */
  function ParseLeadingInt(s: string): int
  {
    var signed := SplitSign(SkipSpace(s));
    var v: int := DigitsValue(signed.1[..LeadingDigitCount(signed.1)]);
    if signed.0 then -v else v
  }

  /** `int(str(x)) == x`. */
  lemma StrictParsesShown(x: int)
    ensures ParseStrictInt(ShowInt(x)) == Some(x)
  {
    if x < 0 {
      ShowNatRoundTrip(-x);
      StrictParsesSigned(ShowNat(-x), -x);
    } else {
      ShowNatRoundTrip(x);
      StrictParsesDigits(ShowNat(x), x);
    }
  }

  /** A bare run of digits worth v parses to v. */
  lemma StrictParsesDigits(d: string, v: nat)
    requires |d| >= 1 && AllDigits(d) && DigitsValue(d) == v
    ensures ParseStrictInt(d) == Some(v as int)
  {
    UntrimmedNumeral(d, d);
    assert IsDigit(d[0]);
    var signed := SplitSign(TrimEnd(SkipSpace(d)));
    assert !signed.0 && signed.1 == d;
  }

  /** '-' and a run of digits worth v parses to -v. */
  lemma StrictParsesSigned(d: string, v: nat)
    requires |d| >= 1 && AllDigits(d) && DigitsValue(d) == v
    ensures ParseStrictInt("-" + d) == Some(-(v as int))
  {
    var s := "-" + d;
    UntrimmedNumeral(s, d);
    assert s[1..] == d;
    var signed := SplitSign(TrimEnd(SkipSpace(s)));
    assert signed.0 && signed.1 == d;
  }

  /** A numeral that starts with a sign or digit and ends in a digit has no
      white space to trim. */
  lemma UntrimmedNumeral(s: string, d: string)
    requires |d| >= 1 && AllDigits(d)
    requires s == d || s == "-" + d
    ensures TrimEnd(SkipSpace(s)) == s
  {
    assert !IsSpace(s[0]);
    assert SkipSpace(s) == s;
    assert s[|s| - 1] == d[|d| - 1];
    assert !IsSpace(s[|s| - 1]);
  }

  /** A character that is neither white space, a digit nor a sign makes the
      whole text invalid. */
  lemma StrictRejectsNonNumerals(s: string, i: nat)
    requires i < |s| && !IsDigit(s[i]) && !IsSpace(s[i]) && s[i] != '-' && s[i] != '+'
    ensures ParseStrictInt(s) == None
  {
    var u := SkipSpace(s);
    var t := TrimEnd(u);
    var k := |s| - |u|;
    assert i >= k;
    assert u[i - k] == s[i];
    assert i - k < |t|;
    assert t[i - k] == s[i];
    var body := SplitSign(t).1;
    if body == t {
      assert !IsDigit(body[i - k]);
    } else {
      assert i - k >= 1;
      assert !IsDigit(body[i - k - 1]);
    }
  }

  lemma {:induction false} LeadingDigitsOfNumeral(d: string, rest: string)
    requires AllDigits(d)
    requires |rest| == 0 || !IsDigit(rest[0])
    ensures LeadingDigitCount(d + rest) == |d|
  {
    if |d| > 0 {
      assert (d + rest)[1..] == d[1..] + rest;
      LeadingDigitsOfNumeral(d[1..], rest);
    } else {
      assert d + rest == rest;
    }
  }

  /** `strtol(str(x) + rest)` reads back x when rest does not continue the numeral. */
  lemma LeadingParsesShown(x: int, rest: string)
    requires |rest| == 0 || !IsDigit(rest[0])
    ensures ParseLeadingInt(ShowInt(x) + rest) == x
  {
    if x < 0 {
      LeadingParsesNegative(x, rest);
    } else {
      LeadingParsesNonNegative(x, rest);
    }
  }

  lemma LeadingParsesNegative(x: int, rest: string)
    requires x < 0 && (|rest| == 0 || !IsDigit(rest[0]))
    ensures ParseLeadingInt(ShowInt(x) + rest) == x
  {
    ShowNatRoundTrip(-x);
    LeadingParsesSigned(ShowNat(-x), rest, -x);
  }

  /** '-' and a run of digits worth v, then text that does not continue
      the run, reads as -v. */
  lemma LeadingParsesSigned(d: string, rest: string, v: nat)
    requires |d| >= 1 && AllDigits(d) && DigitsValue(d) == v
    requires |rest| == 0 || !IsDigit(rest[0])
    ensures ParseLeadingInt("-" + d + rest) == -(v as int)
  {
    var s := "-" + d + rest;
    var body := s[1..];
    assert body == d + rest;
    LeadingDigitsValue(d, rest);
    LeadingBehindSign(s);
    assert body[..LeadingDigitCount(body)] == d;
  }

  lemma LeadingParsesNonNegative(x: int, rest: string)
    requires x >= 0 && (|rest| == 0 || !IsDigit(rest[0]))
    ensures ParseLeadingInt(ShowInt(x) + rest) == x
  {
    var s := ShowInt(x) + rest;
    var d := ShowNat(x);
    ShowNatRoundTrip(x);
    assert s == d + rest;
    LeadingDigitsValue(d, rest);
    LeadingUnsigned(s);
    assert s[..LeadingDigitCount(s)] == d;
  }

  /** The digits at the front of d + rest are exactly d. */
  lemma LeadingDigitsValue(d: string, rest: string)
    requires |d| >= 1 && AllDigits(d)
    requires |rest| == 0 || !IsDigit(rest[0])
    ensures IsDigit((d + rest)[0]) && (d + rest)[..LeadingDigitCount(d + rest)] == d
  {
    LeadingDigitsOfNumeral(d, rest);
    assert (d + rest)[..|d|] == d;
  }

  /** Text that starts with a digit is read without sign. */
  lemma LeadingUnsigned(body: string)
    requires |body| >= 1 && IsDigit(body[0])
    ensures ParseLeadingInt(body) == DigitsValue(body[..LeadingDigitCount(body)])
  {
    var signed := SplitSign(SkipSpace(body));
    assert signed.0 == false && signed.1 == body;
  }

  /** Text that starts with '-' and then a digit is read negated. */
  lemma LeadingBehindSign(s: string)
    requires |s| >= 2 && s[0] == '-' && IsDigit(s[1])
    ensures ParseLeadingInt(s) == -(DigitsValue(s[1..][..LeadingDigitCount(s[1..])]) as int)
  {
    assert SkipSpace(s) == s;
    var signed := SplitSign(SkipSpace(s));
    assert signed.0 && signed.1 == s[1..];
  }

  /** Text whose first non-blank, non-sign character is not a digit reads as 0. */
  lemma LeadingWithoutDigitsIsZero(s: string)
    requires var body := SplitSign(SkipSpace(s)).1; |body| == 0 || !IsDigit(body[0])
    ensures ParseLeadingInt(s) == 0
  {
    var body := SplitSign(SkipSpace(s)).1;
    assert body[..0] == "";
  }

  /** Range of a 64-bit C long. */
  const LongMin: int := -0x8000_0000_0000_0000
  const LongMax: int := 0x7FFF_FFFF_FFFF_FFFF

  /** `strtol(text, NULL, 10)` with a 64-bit long, and `strtoll` / `atoll`
      with a 64-bit long long: out-of-range values clamp. */
  function StrToLong(s: string): (v: int)
    ensures LongMin <= v <= LongMax
  {
    var x := ParseLeadingInt(s);
    if x > LongMax then LongMax else if x < LongMin then LongMin else x
  }

  /** `strtol(str(x))` is x clamped into the long range. */
  lemma StrToLongOfShown(x: int)
    ensures StrToLong(ShowInt(x)) == (if x > LongMax then LongMax else if x < LongMin then LongMin else x)
  {
    LeadingParsesShown(x, "");
    assert ShowInt(x) + "" == ShowInt(x);
  }
}
