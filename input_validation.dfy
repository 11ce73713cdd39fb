/** InputValidation.java: checks that a string or byte array holds content,
    and format checks for phone numbers and e-mail addresses. Each check is a
    total boolean function; `None` stands for a null argument. */
module InputValidation {
  import opened Java
  import opened JavaString
  import opened JavaNumber

  // ------------------------------------------------------------ isNullOrEmpty

  /** isNullOrEmpty(String): null, or nothing left after trim(). That is, every
      character is at most U+0020 (spaces, but also tabs, newlines and the other
      control characters). */
  function IsNullOrEmpty(value: Option<string>): (r: bool)
    ensures r <==> value.None? || forall i :: 0 <= i < |value.value| ==> value.value[i] <= ' '
  {
    value == None || Trim(value.value) == []
  }

  /** isNullOrEmpty(byte[]): null or of length zero. The third test, on the text
      of Arrays.toString, never succeeds: that text starts with '['. In
      particular an array of space bytes (32) is not "empty". */
  function IsNullOrEmptyBytes(value: Option<seq<int8>>): (r: bool)
    ensures r <==> value.None? || |value.value| == 0
  {
    value == None || |value.value| == 0 || IsNullOrEmpty(Some(ArraysToString(value.value)))
  }

  /** The text of a byte array is never blank, so the third disjunct of
      isNullOrEmpty(byte[]) is dead. */
  lemma ArrayTextNeverBlank(a: seq<int8>)
    ensures !IsNullOrEmpty(Some(ArraysToString(a)))
  {
  }

  // -------------------------------------------------------- isValidPhoneNumber

  /** isValidPhoneNumber: not blank, and Long.parseUnsignedLong accepts it. The
      blank test adds nothing: no blank string parses. */
  function IsValidPhoneNumber(phoneNumber: Option<string>): (valid: bool)
    ensures valid <==> phoneNumber.Some? && ParseUnsignedLong(phoneNumber.value).Some?
  {
    !IsNullOrEmpty(phoneNumber) && ParseUnsignedLong(phoneNumber.value).Some?
  }

  /** A valid phone number is an optional single '+' followed by one or more
      digits: no '-', no space, no second '+'. */
  lemma ValidPhoneNumberShape(s: string)
    requires IsValidPhoneNumber(Some(s))
    ensures s != "" && s != "+"
    ensures s[0] == '+' || IsDigit(s[0])
    ensures forall i :: 1 <= i < |s| ==> IsDigit(s[i])
    ensures '-' !in s && ' ' !in s
  {
    assert ParseUnsignedLong(s).Some?;
    DigitsAfterFirst(s);
    forall i | 0 <= i < |s| ensures s[i] != '-' && s[i] != ' ' {
      assert s[i] == '+' || IsDigit(s[i]);
    }
  }

  lemma DigitsAfterFirst(s: string)
    requires s != [] && AllDigits(s[1..])
    ensures forall i :: 1 <= i < |s| ==> IsDigit(s[i])
  {
    forall i | 1 <= i < |s| ensures IsDigit(s[i]) {
      assert s[i] == s[1..][i - 1];
    }
  }

  /** Every string of 1 to 19 digits, with or without a leading '+', is a valid
      phone number: 19 digits stay below 10^19 <= 2^64 - 1. */
  lemma ShortDigitStringsAreValid(digits: string)
    requires AllDigits(digits) && 1 <= |digits| <= 19
    ensures IsValidPhoneNumber(Some(digits))
    ensures IsValidPhoneNumber(Some("+" + digits))
  {
    DigitsValueBelow(digits);
    Pow10Monotone(|digits|, 19);
    Pow10Values();
    assert DigitsValue(digits) <= UNSIGNED_LONG_MAX;
    assert ParseUnsignedLong(digits).Some?;
    assert ("+" + digits)[1..] == digits;
    assert ParseUnsignedLong("+" + digits).Some?;
  }

  /** A number of 21 or more digits without a leading zero is too large for an
      unsigned long and is rejected. */
  lemma LongDigitStringsAreInvalid(digits: string)
    requires AllDigits(digits) && |digits| >= 21 && digits[0] != '0'
    ensures !IsValidPhoneNumber(Some(digits))
  {
    DigitsValueAtLeast(digits);
    Pow10Monotone(20, |digits| - 1);
    Pow10Values();
    assert DigitsValue(digits) > UNSIGNED_LONG_MAX;
    assert UnsignedDigits(digits) == digits;
  }

  /** 10^19 is below 2^64 - 1 and 10^20 above it. */
  lemma Pow10Values()
    ensures Pow10(19) == 10_000_000_000_000_000_000
    ensures Pow10(20) == 100_000_000_000_000_000_000
  {
    assert Pow10(2) == 100;
    Pow10Add(2, 2);
    Pow10Add(4, 4);
    Pow10Add(8, 8);
    Pow10Add(16, 2);
    Pow10Add(18, 1);
    Pow10Add(19, 1);
  }

  /** A phone number is valid exactly when, after one optional '+', it is one
      or more digits whose value is at most 2^64 - 1; its length as such does
      not matter. */
  lemma PhoneNumberCharacterization(s: string)
    ensures IsValidPhoneNumber(Some(s)) <==>
            var d := UnsignedDigits(s);
            d != [] && AllDigits(d) && DigitsValue(d) <= UNSIGNED_LONG_MAX
  {
    assert !IsNullOrEmpty(Some(s)) <== ParseUnsignedLong(s).Some? by {
      if ParseUnsignedLong(s).Some? {
        assert s[|s| - 1] > ' ';
      }
    }
  }

  /** The decimal text of a number is a valid phone number exactly when the
      number is at most 2^64 - 1: "18446744073709551615" is the largest. */
  lemma DecimalTextIsValidPhoneNumber(n: nat)
    ensures IsValidPhoneNumber(Some(NatToString(n, 10))) <==> n <= UNSIGNED_LONG_MAX
  {
    DigitsValueOfDecimal(n);
    PhoneNumberCharacterization(NatToString(n, 10));
  }

  /** One or more digits, with or without a '+' before them, are a valid
      phone number exactly when their value is at most 2^64 - 1. */
  lemma DigitStringPhoneNumber(digits: string)
    requires AllDigits(digits) && digits != []
    ensures IsValidPhoneNumber(Some(digits)) <==> DigitsValue(digits) <= UNSIGNED_LONG_MAX
    ensures IsValidPhoneNumber(Some("+" + digits)) <==> DigitsValue(digits) <= UNSIGNED_LONG_MAX
  {
    assert UnsignedDigits(digits) == digits by {
      assert IsDigit(digits[0]);
    }
    PhoneNumberCharacterization(digits);
    assert UnsignedDigits("+" + digits) == digits by {
      assert ("+" + digits)[1..] == digits;
    }
    PhoneNumberCharacterization("+" + digits);
  }

  /** Leading zeros, and a '+' before them, are accepted whatever the length:
      any number of zeros followed by the decimal text of n is valid exactly
      when n is at most 2^64 - 1. */
  lemma ZeroPaddedPhoneNumbers(zeros: nat, n: nat)
    ensures IsValidPhoneNumber(Some(Repeat('0', zeros) + NatToString(n, 10))) <==> n <= UNSIGNED_LONG_MAX
    ensures IsValidPhoneNumber(Some("+" + Repeat('0', zeros) + NatToString(n, 10))) <==> n <= UNSIGNED_LONG_MAX
  {
    var t := NatToString(n, 10);
    var padded := Repeat('0', zeros) + t;
    LeadingZerosValue(zeros, t);
    DigitsValueOfDecimal(n);
    DigitStringPhoneNumber(padded);
    assert "+" + Repeat('0', zeros) + t == "+" + padded;
  }

  /** null, "" and a lone "+" are rejected. */
  lemma DegeneratePhoneNumbersRejected()
    ensures !IsValidPhoneNumber(None)
    ensures !IsValidPhoneNumber(Some(""))
    ensures !IsValidPhoneNumber(Some("+"))
  {
  }

  // -------------------------------------------------------------- isValidEmail

  /** isValidEmail: not blank; split("@") gives exactly two parts; the local
      part is not empty; the domain contains '.' and is longer than 3; neither
      part starts or ends with '.', contains "..", or contains a space. */
  function IsValidEmail(email: Option<string>): (valid: bool)
    ensures valid ==> email.Some? && '@' in email.value
  {
    !IsNullOrEmpty(email) &&
    var parts := Split(email.value, '@');
    |parts| == 2 && PartChecks(parts[0], parts[1])
  }

  /** The eleven tests isValidEmail makes on the parts split("@") gave.
      `length()` counts UTF-16 code units. They hold exactly when the local
      part is not empty, the domain has at least 4 code units and a '.', and
      neither part starts or ends with '.', has two dots side by side or has
      a space. */
  predicate PartChecks(local: string, domain: string): (ok: bool)
    ensures ok <==>
              && local != [] && local[0] != '.' && local[|local| - 1] != '.'
              && NoDoubleDot(local) && ' ' !in local
              && |Utf16(domain)| >= 4 && '.' in domain
              && domain[0] != '.' && domain[|domain| - 1] != '.'
              && NoDoubleDot(domain) && ' ' !in domain
  {
    ContainsChar(domain, '.');
    ContainsChar(local, ' ');
    ContainsChar(domain, ' ');
    ContainsDoubleDot(local);
    ContainsDoubleDot(domain);
    && |Utf16(local)| > 0
    && Contains(domain, ".")
    && |Utf16(domain)| > 3
    && !StartsWith(local, ".")
    && !EndsWith(local, ".")
    && !StartsWith(domain, ".")
    && !EndsWith(domain, ".")
    && !Contains(local, "..")
    && !Contains(domain, "..")
    && !Contains(local, " ")
    && !Contains(domain, " ")
  }

  /** No two dots side by side. */
  predicate NoDoubleDot(p: string) {
    forall i :: 0 <= i < |p| - 1 ==> !(p[i] == '.' && p[i + 1] == '.')
  }

  /** What the checks demand of the part before the '@'. */
  predicate WellFormedLocalPart(p: string) {
    && p != []
    && p[0] != '.' && p[|p| - 1] != '.'
    && NoDoubleDot(p)
    && ' ' !in p
    && '@' !in p
  }

  /** What the checks demand of the part after the '@': at least 4 UTF-16 code
      units (the code tests `length() > 3`), at least one dot, not at either end. */
  predicate WellFormedDomain(d: string) {
    && |Utf16(d)| >= 4
    && '.' in d
    && d[0] != '.' && d[|d| - 1] != '.'
    && NoDoubleDot(d)
    && ' ' !in d
    && '@' !in d
  }

  /** The tests on the two parts say the same as the two predicates above. */
  lemma PartChecksWellFormed(local: string, domain: string)
    requires '@' !in local && '@' !in domain
    ensures PartChecks(local, domain) <==> WellFormedLocalPart(local) && WellFormedDomain(domain)
  {
  }

  /** A string that split("@") cuts into two pieces is those pieces joined by
      an '@', followed by nothing but '@'s. */
  lemma SplitIntoTwo(email: string)
    requires |Split(email, '@')| == 2
    ensures var parts := Split(email, '@');
            email == parts[0] + "@" + parts[1] + Repeat('@', |email| - |parts[0]| - |parts[1]| - 1)
  {
    var parts := Split(email, '@');
    assert Join(parts, '@') == parts[0] + "@" + parts[1] by {
      assert parts[1..] == [parts[1]];
    }
  }

  /** Every valid address is a well-formed local part, one '@', a well-formed
      domain, and then nothing but '@' characters: split drops the empty pieces
      that trailing '@'s produce. */
  lemma ValidEmailShape(email: string)
    requires IsValidEmail(Some(email))
    ensures var parts := Split(email, '@');
            && |parts| == 2
            && WellFormedLocalPart(parts[0]) && WellFormedDomain(parts[1])
            && email == parts[0] + "@" + parts[1] + Repeat('@', |email| - |parts[0]| - |parts[1]| - 1)
  {
    var parts := Split(email, '@');
    PartChecksWellFormed(parts[0], parts[1]);
    SplitIntoTwo(email);
  }

  /** Conversely, every well-formed local part and domain joined by '@', with any
      number of '@'s after them, is accepted. */
  lemma WellFormedEmailIsValid(local: string, domain: string, trailingAts: nat)
    requires WellFormedLocalPart(local) && WellFormedDomain(domain)
    ensures IsValidEmail(Some(local + "@" + domain + Repeat('@', trailingAts)))
  {
    var email := local + "@" + domain + Repeat('@', trailingAts);
    assert Join([local, domain], '@') == local + "@" + domain;
    SplitOfJoin([local, domain], trailingAts, '@');
    assert !IsNullOrEmpty(Some(email)) by {
      assert email[|local|] > ' ';
    }
    PartChecksWellFormed(local, domain);
  }

  /** A trailing '@' is tolerated: "a@b.cd@" is accepted. */
  lemma TrailingAtIsAccepted()
    ensures IsValidEmail(Some("a@b.cd@"))
  {
    assert "a@b.cd@" == "a" + "@" + "b.cd" + Repeat('@', 1);
    assert WellFormedDomain("b.cd") by {
      assert "b.cd"[1] == '.';
    }
    WellFormedEmailIsValid("a", "b.cd", 1);
  }

  /** The domain length counts UTF-16 code units, as `length()` does: a domain of
      three characters, one of them above U+FFFF, passes the `> 3` test. */
  lemma SupplementaryDomainAccepted()
    ensures IsValidEmail(Some("a@\U{1F600}.b"))
  {
    SupplementaryCountsTwice();
    var domain := "\U{1F600}.b";
    assert "a@\U{1F600}.b" == "a" + "@" + domain + Repeat('@', 0);
    assert WellFormedDomain(domain) by {
      assert domain[1] == '.';
    }
    WellFormedEmailIsValid("a", domain, 0);
  }

  /** A valid address has a domain of at least four UTF-16 code units, one more
      than the comment beside the test promises. */
  lemma ValidEmailDomainLength(email: string)
    requires IsValidEmail(Some(email))
    ensures |Utf16(Split(email, '@')[1])| >= 4
  {
  }

  /** null, blank strings and strings without '@' are rejected, without any
      exception escaping. */
  lemma InvalidEmailInputs(email: Option<string>)
    requires email.None? || IsNullOrEmpty(email) || '@' !in email.value
    ensures !IsValidEmail(email)
  {
  }
}
