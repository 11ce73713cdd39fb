/** The number formatting and parsing of the Java library that the utilities
    call: Integer.toString(n, radix), String.valueOf(byte), Arrays.toString(byte[])
    and Long.parseUnsignedLong, on ASCII digits. */
module JavaNumber {
  import opened Java
  import opened JavaString

  // ------------------------------------------------------------- digits

  predicate IsDigit(c: char) { '0' <= c <= '9' }

  predicate AllDigits(s: string) {
    forall i :: 0 <= i < |s| ==> IsDigit(s[i])
  }

  /** Character.forDigit(d, radix): '0'-'9', then lower-case 'a'-'f'. */
  function DigitChar(d: nat): (c: char)
    requires d < 16
    ensures d < 10 ==> IsDigit(c)
  {
    if d < 10 then ('0' as int + d) as char else ('a' as int + d - 10) as char
  }

  /** Integer.toString(n, radix) for n >= 0: the most significant digit first,
      no leading zeros. */
  function NatToString(n: nat, radix: nat): (s: string)
    requires 2 <= radix <= 16
    ensures |s| >= 1
    ensures radix == 10 ==> AllDigits(s)
    decreases n
  {
    if n < radix then [DigitChar(n)]
    else
      LastDigit(n, radix);
      NatToString(n / radix, radix) + [DigitChar(n % radix)]
  }

  /** Splitting off the last digit in base `radix` leaves a smaller number. */
  lemma LastDigit(n: nat, radix: nat)
    requires 2 <= radix <= n
    ensures n % radix < radix && 1 <= n / radix < n
  {
  }

  /** The value of a string of decimal digits, most significant first. */
  function DigitsValue(ds: string): nat
    requires AllDigits(ds)
  {
    if ds == [] then 0 else 10 * DigitsValue(ds[..|ds| - 1]) + (ds[|ds| - 1] as int - '0' as int)
  }

  function Pow10(n: nat): nat {
    if n == 0 then 1 else 10 * Pow10(n - 1)
  }

  /** Powers of ten multiply by adding exponents. */
  lemma {:induction false} Pow10Add(a: nat, b: nat)
    ensures Pow10(a + b) == Pow10(a) * Pow10(b)
    decreases b
  {
    if b > 0 {
      Pow10Add(a, b - 1);
    }
  }

  /** Powers of ten grow with the exponent. */
  lemma {:induction false} Pow10Monotone(m: nat, n: nat)
    requires m <= n
    ensures Pow10(m) <= Pow10(n)
    decreases n
  {
    if m < n {
      Pow10Monotone(m, n - 1);
    }
  }

  /** k digits have a value below 10^k. */
  lemma {:induction false} DigitsValueBelow(ds: string)
    requires AllDigits(ds)
    ensures DigitsValue(ds) < Pow10(|ds|)
  {
    if ds != [] {
      DigitsValueBelow(ds[..|ds| - 1]);
    }
  }

  /** k digits led by a non-zero digit have a value of at least 10^(k-1). */
  lemma {:induction false} DigitsValueAtLeast(ds: string)
    requires AllDigits(ds) && ds != [] && ds[0] != '0'
    ensures DigitsValue(ds) >= Pow10(|ds| - 1)
  {
    if |ds| > 1 {
      DigitsValueAtLeast(ds[..|ds| - 1]);
    }
  }

  /** Reading back the decimal text of a number gives the number. */
  lemma {:induction false} DigitsValueOfDecimal(n: nat)
    ensures DigitsValue(NatToString(n, 10)) == n
    decreases n
  {
    var s := NatToString(n, 10);
    if n >= 10 {
      DigitsValueOfDecimal(n / 10);
      assert s[..|s| - 1] == NatToString(n / 10, 10);
    }
  }

  /** Leading zeros add nothing to the value of a digit string. */
  lemma {:induction false} LeadingZerosValue(zeros: nat, ds: string)
    requires AllDigits(ds)
    ensures AllDigits(Repeat('0', zeros) + ds)
    ensures DigitsValue(Repeat('0', zeros) + ds) == DigitsValue(ds)
    decreases zeros + |ds|
  {
    var s := Repeat('0', zeros) + ds;
    if ds != [] {
      LeadingZerosValue(zeros, ds[..|ds| - 1]);
      assert s[..|s| - 1] == Repeat('0', zeros) + ds[..|ds| - 1];
    } else if zeros > 0 {
      LeadingZerosValue(zeros - 1, []);
      assert s == Repeat('0', zeros);
      assert s[..|s| - 1] == Repeat('0', zeros - 1) + [];
    }
  }

  // ------------------------------------------------- Long.parseUnsignedLong

  const UNSIGNED_LONG_MAX: nat := 0xFFFF_FFFF_FFFF_FFFF

  /** Long.parseUnsignedLong(s) (radix 10): None where Java throws
      NumberFormatException. Accepted: an optional single '+', then one or
      more digits whose value fits in 64 unsigned bits. A leading '-' is
      rejected outright. */
  function ParseUnsignedLong(s: string): (r: Option<nat>)
    ensures r.Some? <==> var d := UnsignedDigits(s);
                         d != [] && AllDigits(d) && DigitsValue(d) <= UNSIGNED_LONG_MAX
    ensures r.Some? ==> r.value == DigitsValue(UnsignedDigits(s))
    ensures r.Some? ==> r.value <= UNSIGNED_LONG_MAX
    ensures r.Some? ==> |s| >= 1 && (IsDigit(s[0]) || s[0] == '+') && AllDigits(s[1..])
    ensures r.Some? ==> s != "+"
  {
    if s == [] || s[0] == '-' then None
    else
      var digits := if s[0] == '+' then s[1..] else s;
      if digits == [] || !AllDigits(digits) then None
      else if DigitsValue(digits) <= UNSIGNED_LONG_MAX then Some(DigitsValue(digits))
      else None
  }

  /** The digits parseUnsignedLong reads: the string without one leading '+'. */
  function UnsignedDigits(s: string): (d: string)
    ensures |d| <= |s| && d == s[|s| - |d|..]
  {
    if s != [] && s[0] == '+' then s[1..] else s
  }

  /** The decimal text of every 64-bit unsigned value parses back to it. */
  lemma ParseUnsignedLongOfDecimal(n: nat)
    requires n <= UNSIGNED_LONG_MAX
    ensures ParseUnsignedLong(NatToString(n, 10)) == Some(n)
  {
    DigitsValueOfDecimal(n);
  }

  // --------------------------------------------------- Arrays.toString(byte[])

  /** String.valueOf(byte): decimal, with a '-' for negative values. */
  function ByteToString(b: int8): (s: string)
    ensures |s| >= 1 && (s[0] == '-' || IsDigit(s[0]))
    ensures b >= 0 ==> AllDigits(s) && DigitsValue(s) == b as int
    ensures b < 0 ==> s[0] == '-' && AllDigits(s[1..]) && DigitsValue(s[1..]) == -(b as int)
  {
    if b < 0 then
      DigitsValueOfDecimal(-(b as int));
      assert ("-" + NatToString(-(b as int), 10))[1..] == NatToString(-(b as int), 10);
      "-" + NatToString(-(b as int), 10)
    else
      DigitsValueOfDecimal(b as int);
      NatToString(b as int, 10)
  }

  /** The elements of a byte array, separated by ", ". */
  function ElementsToString(a: seq<int8>): string
  {
    if a == [] then []
    else if |a| == 1 then ByteToString(a[0])
    else ByteToString(a[0]) + ", " + ElementsToString(a[1..])
  }

  /** Arrays.toString(byte[]) for a non-null array: "[" elements "]". */
  function ArraysToString(a: seq<int8>): (s: string)
    ensures |s| >= 2 && s[0] == '[' && s[|s| - 1] == ']'
    ensures a == [] <==> s == "[]"
  {
    assert a != [] ==> |ElementsToString(a)| >= 1;
    "[" + ElementsToString(a) + "]"
  }
}
