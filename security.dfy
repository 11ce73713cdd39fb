/** Security.java: salt generation, salted hashing into lower-case hex,
    validation of a string against a stored hash and salt, and user-friendly
    disposable passwords.

    The digest algorithm itself (SHA-256, FIPS 180-4) is not modelled: the
    platform's MessageDigest registry is a parameter. Feeding the salt with
    update() and then the text bytes with digest() is one digest of their
    concatenation, salt first. */
module Security {
  import opened Java
  import opened JavaString
  import opened JavaNumber
  import Randomize

  const DEFAULT_HASH_ALGORITHM: string := "SHA-256"
  const DEFAULT_SALT_LENGTH: int32 := 128

  /** MessageDigest.getInstance(name): the one-shot digest of the named
      algorithm, or None where Java throws NoSuchAlgorithmException. */
  type DigestProvider = string -> Option<seq<int8> -> seq<int8>>

  // ---------------------------------------------------------- hex encoding

  predicate IsLowerHexDigit(c: char) {
    '0' <= c <= '9' || 'a' <= c <= 'f'
  }

  predicate IsLowerHex(s: string) {
    forall i :: 0 <= i < |s| ==> IsLowerHexDigit(s[i])
  }

  /** Character.digit(c, 16) for a lower-case hex digit. */
  function HexValue(c: char): (v: nat)
    requires IsLowerHexDigit(c)
    ensures v < 16 && DigitChar(v) == c
  {
    if c <= '9' then c as int - '0' as int else c as int - 'a' as int + 10
  }

  /** One byte as the hashing loop writes it:
      Integer.toString((b & 0xff) + 0x100, 16).substring(1). The number lies in
      [256, 511], so its base-16 text has three digits and starts with '1';
      the two that remain are the high and the low nibble of the byte. */
  function HexOfByte(b: int8): (s: string)
    ensures |s| == 2 && IsLowerHex(s)
    ensures 16 * HexValue(s[0]) + HexValue(s[1]) == Unsigned(b)
  {
    var text := NatToString(Unsigned(b) + 0x100, 16);
    HexOfByteDigits(b);
    text[1..]
  }

  lemma HexOfByteDigits(b: int8)
    ensures NatToString(Unsigned(b) + 0x100, 16) == [DigitChar(1), DigitChar(Unsigned(b) / 16), DigitChar(Unsigned(b) % 16)]
  {
    var u := Unsigned(b);
    var n := u + 0x100;
    assert n / 16 == 16 + u / 16 && n % 16 == u % 16;
    assert (16 + u / 16) / 16 == 1 && (16 + u / 16) % 16 == u / 16;
    assert NatToString(16 + u / 16, 16) == NatToString(1, 16) + [DigitChar(u / 16)];
  }

  /** The hex text of a byte sequence: two lower-case hex digits per byte. */
  function HexEncode(bytes: seq<int8>): (s: string)
    ensures |s| == 2 * |bytes|
    ensures IsLowerHex(s)
  {
    if bytes == [] then [] else HexEncode(bytes[..|bytes| - 1]) + HexOfByte(bytes[|bytes| - 1])
  }

  /** The bytes a lower-case hex text of even length stands for. */
  function HexDecode(s: string): (bytes: seq<int8>)
    requires |s| % 2 == 0 && IsLowerHex(s)
    ensures |bytes| == |s| / 2
  {
    if s == [] then []
    else HexDecode(s[..|s| - 2]) + [Signed(16 * HexValue(s[|s| - 2]) + HexValue(s[|s| - 1]))]
  }

  /** Decoding the hex text of a byte sequence gives the sequence back. */
  lemma {:induction false} HexDecodeEncode(bytes: seq<int8>)
    ensures HexDecode(HexEncode(bytes)) == bytes
  {
    if bytes != [] {
      var front := bytes[..|bytes| - 1];
      var s := HexEncode(bytes);
      HexDecodeEncode(front);
      assert s[..|s| - 2] == HexEncode(front);
      SignedUnsigned(bytes[|bytes| - 1]);
    }
  }

  /** Encoding the bytes a hex text stands for gives the text back. */
  lemma {:induction false} HexEncodeDecode(s: string)
    requires |s| % 2 == 0 && IsLowerHex(s)
    ensures HexEncode(HexDecode(s)) == s
  {
    if s != [] {
      var bytes := HexDecode(s);
      var front := s[..|s| - 2];
      var c0, c1 := s[|s| - 2], s[|s| - 1];
      var last := Signed(16 * HexValue(c0) + HexValue(c1));
      HexEncodeDecode(front);
      HexEncodeSnoc(HexDecode(front), last);
      HexOfPair(c0, c1);
      calc {
        HexEncode(bytes);
        HexEncode(HexDecode(front) + [last]);
        HexEncode(HexDecode(front)) + HexOfByte(last);
        front + [c0, c1];
        s;
      }
    }
  }

  /** Appending a byte appends its two hex digits. */
  lemma HexEncodeSnoc(front: seq<int8>, b: int8)
    ensures HexEncode(front + [b]) == HexEncode(front) + HexOfByte(b)
  {
    assert (front + [b])[..|front|] == front;
  }

  /** The byte two hex digits stand for is written back as those digits. */
  lemma HexOfPair(c0: char, c1: char)
    requires IsLowerHexDigit(c0) && IsLowerHexDigit(c1)
    ensures HexOfByte(Signed(16 * HexValue(c0) + HexValue(c1))) == [c0, c1]
  {
    var h := HexOfByte(Signed(16 * HexValue(c0) + HexValue(c1)));
    assert 16 * HexValue(h[0]) + HexValue(h[1]) == 16 * HexValue(c0) + HexValue(c1);
    assert HexValue(h[0]) == HexValue(c0) && HexValue(h[1]) == HexValue(c1);
    assert DigitChar(HexValue(h[0])) == h[0] && DigitChar(HexValue(h[1])) == h[1];
  }

  /** Different byte sequences never share a hex text. */
  lemma HexEncodeInjective(a: seq<int8>, b: seq<int8>)
    requires HexEncode(a) == HexEncode(b)
    ensures a == b
  {
    HexDecodeEncode(a);
    HexDecodeEncode(b);
  }

  // --------------------------------------------------------------- hashing

  /** What hash(text, salt, algorithm) returns: the hex text of the digest of
      the salt followed by the UTF-8 bytes of the text; the empty string when
      the algorithm is unknown. A non-empty result can be decoded back into
      the digest. */
  function SaltedHash(provider: DigestProvider, text: string, salt: seq<int8>, algorithm: string): (h: string)
    ensures provider(algorithm).None? ==> h == []
    ensures provider(algorithm).Some? ==>
              var digest := provider(algorithm).value(salt + GetBytesUtf8(text));
              |h| == 2 * |digest| && IsLowerHex(h) && HexDecode(h) == digest
  {
    match provider(algorithm)
    case None => []
    case Some(digest) =>
      var bytes := digest(salt + GetBytesUtf8(text));
      HexDecodeEncode(bytes);
      HexEncode(bytes)
  }

  /** hash(unhashedString, salt, algorithm): looks the algorithm up, feeds the
      salt and then the UTF-8 bytes of the text, and appends two hex digits per
      digest byte to a StringBuilder. A failed lookup is caught and leaves the
      builder empty. */
  method HashWithAlgorithm(provider: DigestProvider, unhashedString: string, salt: seq<int8>, algorithm: string)
    returns (hashedString: string)
    ensures hashedString == SaltedHash(provider, unhashedString, salt, algorithm)
  {
    hashedString := "";
    var md := provider(algorithm);
    if md.Some? {
      var stringBytes := md.value(salt + GetBytesUtf8(unhashedString));
      for i := 0 to |stringBytes|
        invariant hashedString == HexEncode(stringBytes[..i])
      {
        var text := NatToString(Unsigned(stringBytes[i]) + 0x100, 16);
        HexOfByteDigits(stringBytes[i]);
        hashedString := hashedString + text[1..];
        assert stringBytes[..i + 1][..i] == stringBytes[..i];
      }
      assert stringBytes[..|stringBytes|] == stringBytes;
    }
  }

  /** hash(unhashedString, salt): the same with the default algorithm, SHA-256. */
  method Hash(provider: DigestProvider, unhashedString: string, salt: seq<int8>) returns (hashedString: string)
    ensures hashedString == SaltedHash(provider, unhashedString, salt, DEFAULT_HASH_ALGORITHM)
  {
    hashedString := HashWithAlgorithm(provider, unhashedString, salt, DEFAULT_HASH_ALGORITHM);
  }

  /** The hash depends on the text and the salt only through their
      concatenation: moving bytes across the boundary changes nothing. */
  lemma HashDependsOnlyOnDigestInput(provider: DigestProvider, text1: string, salt1: seq<int8>,
                                     text2: string, salt2: seq<int8>, algorithm: string)
    requires salt1 + GetBytesUtf8(text1) == salt2 + GetBytesUtf8(text2)
    ensures SaltedHash(provider, text1, salt1, algorithm) == SaltedHash(provider, text2, salt2, algorithm)
  {
  }

  /** An instance of that: the text "b" with the salt "a" hashes like the text
      "ab" with an empty salt. */
  lemma SaltTextBoundaryIsInvisible(provider: DigestProvider, algorithm: string)
    ensures SaltedHash(provider, "b", [97], algorithm) == SaltedHash(provider, "ab", [], algorithm)
  {
    assert GetBytesUtf8("b") == [98];
    assert GetBytesUtf8("ab") == [97] + GetBytesUtf8("b");
    HashDependsOnlyOnDigestInput(provider, "b", [97], "ab", [], algorithm);
  }

  /** With SHA-256's 32-byte digests the hash is 64 hex digits. */
  lemma HashLengthFromDigestLength(provider: DigestProvider, text: string, salt: seq<int8>)
    requires provider(DEFAULT_HASH_ALGORITHM).Some?
    requires |provider(DEFAULT_HASH_ALGORITHM).value(salt + GetBytesUtf8(text))| == 32
    ensures |SaltedHash(provider, text, salt, DEFAULT_HASH_ALGORITHM)| == 64
  {
  }

  // ------------------------------------------------------------ validation

  /** validateHash(providedString, hashedString, salt): true exactly when the
      hash of the provided string with that salt and the default algorithm
      equals the stored one. Put without recomputing the hash: either the
      stored text is lower-case hex that decodes to the digest of the salt and
      the provided string, or the default algorithm is missing and the stored
      text is empty. */
  function ValidateHash(provider: DigestProvider, providedString: string, hashedString: string, salt: seq<int8>)
    : (matches: bool)
    ensures matches <==>
              match provider(DEFAULT_HASH_ALGORITHM)
              case None => hashedString == []
              case Some(digest) =>
                |hashedString| % 2 == 0 && IsLowerHex(hashedString) &&
                HexDecode(hashedString) == digest(salt + GetBytesUtf8(providedString))
  {
    HashEqualsIffDecodes(SaltedHash(provider, providedString, salt, DEFAULT_HASH_ALGORITHM), hashedString);
    SaltedHash(provider, providedString, salt, DEFAULT_HASH_ALGORITHM) == hashedString
  }

  /** Two hex texts are equal exactly when the second is hex that decodes to
      the bytes of the first. */
  lemma HashEqualsIffDecodes(computed: string, stored: string)
    requires |computed| % 2 == 0 && IsLowerHex(computed)
    ensures computed == stored <==>
              |stored| % 2 == 0 && IsLowerHex(stored) && HexDecode(stored) == HexDecode(computed)
  {
    if |stored| % 2 == 0 && IsLowerHex(stored) && HexDecode(stored) == HexDecode(computed) {
      HexEncodeDecode(stored);
      HexEncodeDecode(computed);
    }
  }

  /** Round trip: a string always validates against its own hash and salt. */
  lemma ValidateOwnHash(provider: DigestProvider, password: string, salt: seq<int8>)
    ensures ValidateHash(provider, password, SaltedHash(provider, password, salt, DEFAULT_HASH_ALGORITHM), salt)
  {
  }

  /** A different string is rejected whenever the digest tells the two apart. */
  lemma ValidateRejectsOtherDigest(provider: DigestProvider, password: string, other: string, salt: seq<int8>)
    requires provider(DEFAULT_HASH_ALGORITHM).Some?
    requires var digest := provider(DEFAULT_HASH_ALGORITHM).value;
             digest(salt + GetBytesUtf8(other)) != digest(salt + GetBytesUtf8(password))
    ensures !ValidateHash(provider, other, SaltedHash(provider, password, salt, DEFAULT_HASH_ALGORITHM), salt)
  {
  }

  /** Without the default algorithm every hash is empty, and every string then
      validates against an empty stored hash. */
  lemma MissingAlgorithmAcceptsEverything(provider: DigestProvider, providedString: string, salt: seq<int8>)
    requires provider(DEFAULT_HASH_ALGORITHM).None?
    ensures ValidateHash(provider, providedString, "", salt)
  {
  }

  // -------------------------------------------------------------------- salt

  /** SecureRandom.nextBytes: fills the array with the next bytes of the
      generator, `random`, which the model does not determine. */
  method NextBytes(bytes: array<int8>, random: seq<int8>)
    requires |random| == bytes.Length
    modifies bytes
    ensures bytes[..] == random
  {
    for i := 0 to bytes.Length
      invariant bytes[..i] == random[..i]
    {
      bytes[i] := random[i];
    }
  }

  /** generateSalt(length): a new array of `length` bytes (NegativeArraySize for
      a negative length). When the platform has a strong SecureRandom the bytes
      are random; when getInstanceStrong() throws, the exception is caught and
      the array is returned as allocated, all zeros. */
  method GenerateSalt(length: int32, strongRandomAvailable: bool) returns (r: Outcome<array<int8>>)
    ensures r.Threw? <==> length < 0
    ensures r.Threw? ==> r.exception == NegativeArraySize
    ensures r.Returned? ==> fresh(r.value) && r.value.Length == length as int
    ensures r.Returned? && !strongRandomAvailable ==> forall i :: 0 <= i < r.value.Length ==> r.value[i] == 0
  {
    if length < 0 {
      return Threw(NegativeArraySize);
    }
    var salt := new int8[length](_ => 0);
    if strongRandomAvailable {
      assert |salt[..]| == salt.Length;
      var random: seq<int8> :| |random| == salt.Length;
      NextBytes(salt, random);
    }
    r := Returned(salt);
  }

  /** generateSalt(): a salt of the default length, 128 bytes. */
  method GenerateDefaultSalt(strongRandomAvailable: bool) returns (salt: array<int8>)
    ensures fresh(salt) && salt.Length == 128
  {
    var r := GenerateSalt(DEFAULT_SALT_LENGTH, strongRandomAvailable);
    salt := r.value;
  }

  // ------------------------------------------------------ friendly password

  /** The alphabet of generateFriendlyPassword. Contrary to its documentation it
      contains the letter 'O'; it does leave out the digit '0'. */
  const FRIENDLY_CHARACTERS: string := "ABCDEFGHIJKLMNOPQRSTUVWXYZ123456789"

  /** 6 to 8 characters, each from the friendly alphabet. */
  predicate IsFriendlyPassword(p: string) {
    6 <= |p| <= 8 && forall i :: 0 <= i < |p| ==> p[i] in FRIENDLY_CHARACTERS
  }

  /** The alphabet is ASCII, so each of its characters is one UTF-16 code unit. */
  lemma FriendlyAlphabetIsAscii()
    ensures forall i :: 0 <= i < |FRIENDLY_CHARACTERS| ==> FRIENDLY_CHARACTERS[i] as int < 0x80
  {
  }

  /** The alphabet is the upper-case ASCII letters and the digits 1-9. */
  lemma FriendlyAlphabetCharacters()
    ensures forall i :: 0 <= i < |FRIENDLY_CHARACTERS| ==>
              IsAsciiUpper(FRIENDLY_CHARACTERS[i]) || ('1' <= FRIENDLY_CHARACTERS[i] <= '9')
  {
  }

  /** What drawing from the alphabet needs: it is not empty, its length fits
      in an int and it lies below the surrogates, so that `length()` is its
      number of characters. */
  lemma FriendlyAlphabetDrawable()
    ensures 0 < |FRIENDLY_CHARACTERS| <= INT_MAX
    ensures forall i :: 0 <= i < |FRIENDLY_CHARACTERS| ==> FRIENDLY_CHARACTERS[i] as int < 0xD800
  {
    FriendlyAlphabetIsAscii();
  }

  /** A friendly password consists of upper-case letters and the digits 1-9. */
  lemma FriendlyPasswordCharacters(p: string)
    requires IsFriendlyPassword(p)
    ensures forall i :: 0 <= i < |p| ==> IsAsciiUpper(p[i]) || ('1' <= p[i] <= '9')
    ensures '0' !in p
  {
    FriendlyAlphabetCharacters();
    forall i | 0 <= i < |p| ensures IsAsciiUpper(p[i]) || ('1' <= p[i] <= '9') {
      var k :| 0 <= k < |FRIENDLY_CHARACTERS| && FRIENDLY_CHARACTERS[k] == p[i];
    }
  }

  /** The loop of generateFriendlyPassword: appends `count` results of
      randomCharFromString(alphabet) to an empty StringBuilder. Below the
      surrogates every code unit drawn is one of the alphabet's characters. */
  method DrawCharacters(alphabet: string, count: nat) returns (drawn: string)
    requires 0 < |alphabet| <= INT_MAX
    requires forall i :: 0 <= i < |alphabet| ==> alphabet[i] as int < 0xD800
    ensures |drawn| == count
    ensures forall j :: 0 <= j < count ==> drawn[j] in alphabet
  {
    Utf16OfBmp(alphabet);
    drawn := "";
    for i := 0 to count
      invariant |drawn| == i
      invariant forall j :: 0 <= j < i ==> drawn[j] in alphabet
    {
      var c := Randomize.RandomCharFromString(alphabet);
      BmpUnitIsChar(alphabet, c.value);
      drawn := drawn + [c.value as char];
    }
  }

  /** generateFriendlyPassword(): draws a length in [6, 8], then that many
      characters from the alphabet. */
  method GenerateFriendlyPassword() returns (password: string)
    ensures IsFriendlyPassword(password)
    ensures '0' !in password
  {
    var validCharacters := FRIENDLY_CHARACTERS;
    var passwordLength := Randomize.RandomBetween(6, 8);
    assert passwordLength.Returned? && 6 <= passwordLength.value <= 8;
    FriendlyAlphabetDrawable();
    password := DrawCharacters(validCharacters, passwordLength.value as int);
    FriendlyPasswordCharacters(password);
  }
}
