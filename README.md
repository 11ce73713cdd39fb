# Java utility classes, modelled in Dafny

This project models four small static and utility classes of a Java library. Their contracts are proved in Dafny 4.11.

- **InputValidation**: checks that a string or a byte array holds content. It also has format checks for phone numbers and e-mail addresses. Each check is a total boolean function over strings; `None` stands for a null argument.
- **Security**: generates salts. It hashes a string with a salt into lower-case hex. It validates a string against a stored hash and salt. It also produces user-friendly disposable passwords.
- **Password**: a fluent builder object with one mutable `password` field. Every mutator replaces that field and returns the same object.
- **Randomize**: `randomBetween` and `randomCharFromString`, built on `java.util.Random`.

The project also models the parts of the Java library these classes depend on:

- `String.trim`, `split`, `contains`, `startsWith`, `endsWith`, `toUpperCase`, `toLowerCase` and `getBytes("UTF-8")` (module `JavaString`).
- `Long.parseUnsignedLong`, `Integer.toString(n, radix)` and `Arrays.toString(byte[])` (module `JavaNumber`).
- Java `int` arithmetic with wrap-around, and the signed `byte` (module `Java`).

Each is written out as a function, so their Java-specific behaviour is part of the model:

- `trim` strips every character up to U+0020.
- `split` drops trailing empty pieces.
- `int` arithmetic wraps at 32 bits.

Three things come from outside the model:

- The digest algorithm. The platform's `MessageDigest` registry is a parameter, `DigestProvider`. It maps an algorithm name to a digest function, or to `None` where Java throws `NoSuchAlgorithmException`.
- Random choices. `Random.nextInt` and `SecureRandom.nextBytes` are nondeterministic choices inside the methods.
- Whether `SecureRandom.getInstanceStrong()` succeeds. This is a boolean parameter.

Where the code and its comments disagree, the model follows the code:

- **The letter 'O'.** The friendly-password alphabet `"ABCDEFGHIJKLMNOPQRSTUVWXYZ123456789"` contains 'O', although the comment says it is excluded. It does leave out '0'.
- **Domain length.** `isValidEmail` requires the domain to be longer than 3 (so at least 4). The comment says "at least 3". `length()` counts UTF-16 code units, so a character above U+FFFF counts twice: `"a@\U{1F600}.b"` is accepted.
- **Trailing '@'.** `split("@")` drops trailing empty pieces, so an address followed by `@` characters, such as `"a@b.cd@"`, is accepted.
- **Blank strings.** `isNullOrEmpty(String)` treats as blank every string whose characters are all at most U+0020. That includes tabs and newlines, not only spaces.
- **Byte arrays.** `isNullOrEmpty(byte[])` is true only for null or length 0. Its test on the text of `Arrays.toString` can never succeed, because that text starts with `[`.
- **Reversed bounds.** `randomBetween(min, max)` does not always throw when `max < min`. The bound `max - min + 1` is computed in `int` arithmetic. When `max - min <= -2^31 - 2`, it wraps round to a positive number. For example, `randomBetween(Integer.MAX_VALUE, Integer.MIN_VALUE)` draws with the bound 2 and returns one of the two arguments. It throws in exactly two cases: when `max < min` with `max - min >= -2^31 - 1`, and when `max - min >= 2^31 - 1`.
- **Silent failures in hashing.** When the algorithm lookup fails, `hash` returns the empty string. Every string then validates against an empty stored hash.
- **Silent failures in salts.** When no strong random source exists, `generateSalt` returns an array of zeros.

## Model

| member | source | states |
|---|---|---|
| `Java.Wrap32` | Randomize.java:21 | Java `int` arithmetic: the result is congruent to the exact value modulo 2^32, and equals it when it fits in an `int` |
| `Java.Unsigned` | Security.java:119 | `b & 0xff` is below 256 and congruent to the signed byte modulo 256 |
| `Java.Signed` | Security.java:119 | narrowing an unsigned value below 256 to a byte is undone by `& 0xff` |
| `JavaString.Trim` | InputValidation.java:23 | `trim()` is the slice of the input between its leading and its trailing characters at most U+0020: every character before and after the slice is at most U+0020, the slice is empty exactly when every character is, and otherwise it starts and ends with a character above U+0020 |
| `JavaString.LeadingBlanks` | InputValidation.java:23 | the number of leading characters at most U+0020: all of them are, and the next one, if any, is above U+0020 |
| `JavaString.TrimEnd` | InputValidation.java:23 | the end of the trimmed slice: every character from it on is at most U+0020, and the one before it, if after the start, is above U+0020 |
| `JavaString.SplitAll` | InputValidation.java:81 | the pieces between separators contain no separator, and joining them with it gives the string back |
| `JavaString.SplitAllOfJoin` | InputValidation.java:81 | splitting a join of separator-free pieces gives back those pieces (the other half of the round trip) |
| `JavaString.Split` | InputValidation.java:81 | `split` of a string without the separator is the string itself; otherwise no piece contains the separator, the last piece is not empty, and the string is the pieces joined by the separator followed only by separators; no pieces at all means the string is nothing but separators |
| `JavaString.SplitOfJoin` | InputValidation.java:81 | the inverse: separator-free pieces whose last one is not empty, joined and followed by any number of separators, split back into exactly those pieces |
| `JavaString.DropTrailingEmptyJoin` | InputValidation.java:81 | the empty pieces that `split` drops come back as separators at the end of the join |
| `JavaString.DroppedAreEmpties` | InputValidation.java:81 | the pieces are what dropping trailing empties kept, followed by empty pieces only |
| `JavaString.DropTrailingEmptyOfEmpties` | InputValidation.java:81 | pieces ending in a non-empty one, followed by k empty ones, lose exactly those k |
| `JavaString.DropTrailingEmpty` | InputValidation.java:81 | the result is a prefix of the pieces, does not end in an empty piece, and only empty pieces were dropped |
| `JavaString.JoinTrailingEmpty` | InputValidation.java:81 | pieces followed by k empty pieces join to the same text followed by k separators |
| `JavaString.StartsWith` | InputValidation.java:88-90 | `startsWith` holds exactly when the prefix is no longer than the string and matches its first characters |
| `JavaString.EndsWith` | InputValidation.java:89-91 | `endsWith` holds exactly when the suffix is no longer than the string and matches its last characters |
| `JavaString.Contains` | InputValidation.java:86-95 | `contains` holds exactly when the text occurs at some index of the string |
| `JavaString.OccursInTail` | InputValidation.java:86-95 | a text occurs in a non-empty string exactly when it occurs at index 0 or somewhere in the string's tail |
| `JavaString.ContainsChar` | InputValidation.java:86 | `contains` of a one-character string is membership of that character |
| `JavaString.ContainsDoubleDot` | InputValidation.java:92-93 | `contains("..")` holds exactly when two dots stand side by side |
| `JavaString.ToUpperCase` | Password.java:101 | same length, no lower-case ASCII letter left, each character changed at most in case, non-letters unchanged |
| `JavaString.ToLowerCase` | Password.java:113 | same length, no upper-case ASCII letter left, each character changed at most in case, non-letters unchanged |
| `JavaString.ToUpperCaseIdempotent` | Password.java:101 | upper-casing twice equals upper-casing once |
| `JavaString.UpperCaseAt` | Password.java:101 | the i-th character of the upper-cased string is the upper case of the i-th character |
| `JavaString.LowerCaseAt` | Password.java:113 | the i-th character of the lower-cased string is the lower case of the i-th character |
| `JavaString.LowerAfterUpper` | Password.java:101-115 | `toUpperCase()` followed by `toLowerCase()` gives what `toLowerCase()` alone gives |
| `JavaString.GetBytesUtf8` | Security.java:115 | the UTF-8 bytes of a string number between one and four per character |
| `JavaString.GetBytesAscii` | Security.java:115 | an ASCII string encodes to its own code points, one byte per character |
| `JavaString.Utf16Char` | InputValidation.java:87 | a character below U+10000 is one code unit equal to its code; a character above is a high surrogate and a low surrogate that together give its code back |
| `JavaString.Supplementaries` | InputValidation.java:87 | the number of characters above U+FFFF is at most the length, and zero for text below U+10000 |
| `JavaString.Utf16` | InputValidation.java:87 | `length()` is the number of characters plus the number of characters above U+FFFF, each code unit below 2^16 |
| `JavaString.Utf16OfBmp` | Randomize.java:32-33 | text below the surrogates has one code unit per character, each the character's code |
| `JavaString.BmpUnitIsChar` | Randomize.java:33 | a code unit drawn from text below the surrogates is the code of one of its characters |
| `JavaString.SupplementaryCountsTwice` | InputValidation.java:87 | `"\U{1F600}.b".length()` is 4, not 3 |
| `JavaNumber.LastDigit` | Security.java:119 | for n at least the radix, the last digit is below the radix and the rest is between 1 and n - 1 |
| `JavaNumber.NatToString` | Security.java:119 | `Integer.toString(n, radix)` is non-empty, and in radix 10 it has only digits |
| `JavaNumber.DigitsValueOfDecimal` | InputValidation.java:56 | reading back the decimal text of a number gives the number |
| `JavaNumber.ParseUnsignedLong` | InputValidation.java:56 | a string is accepted exactly when, after one optional '+', it is one or more digits whose value is at most 2^64 - 1, and the result is that value; so an accepted string is never "+" and holds nothing but its optional '+' and digits |
| `JavaNumber.LeadingZerosValue` | InputValidation.java:56 | leading zeros add nothing to the value of a digit string |
| `JavaNumber.ParseUnsignedLongOfDecimal` | InputValidation.java:56 | the decimal text of every value up to 2^64 - 1 parses back to that value |
| `JavaNumber.DigitsValueBelow` | InputValidation.java:56 | k digits have a value below 10^k |
| `JavaNumber.DigitsValueAtLeast` | InputValidation.java:56 | k digits led by a non-zero digit have a value of at least 10^(k-1) |
| `JavaNumber.Pow10Add` | InputValidation.java:56 | 10^(a+b) is 10^a times 10^b |
| `JavaNumber.Pow10Monotone` | InputValidation.java:56 | 10^a is at most 10^b when a <= b |
| `JavaNumber.ByteToString` | InputValidation.java:37 | the decimal text of a byte: its digits read back to the byte, after a '-' exactly when it is negative |
| `JavaNumber.ArraysToString` | InputValidation.java:37 | `Arrays.toString` of a byte array starts with '[' and ends with ']'; it is `"[]"` exactly for the empty array |
| `InputValidation.IsNullOrEmpty` | InputValidation.java:22-24 | true exactly for null or a string whose characters are all at most U+0020 |
| `InputValidation.IsNullOrEmptyBytes` | InputValidation.java:36-38 | true exactly for null or an array of length 0 |
| `InputValidation.ArrayTextNeverBlank` | InputValidation.java:37 | the third disjunct, on the text of the array, is never true |
| `InputValidation.IsValidPhoneNumber` | InputValidation.java:50-63 | true exactly when the argument is non-null and `parseUnsignedLong` accepts it; the blank test adds nothing |
| `InputValidation.ValidPhoneNumberShape` | InputValidation.java:50-63 | a valid number is an optional single '+' and then one or more digits: it is not `""` or `"+"`, and has no '-' and no space |
| `InputValidation.ShortDigitStringsAreValid` | InputValidation.java:50-63 | every string of 1 to 19 digits is valid, with or without a leading '+' |
| `InputValidation.LongDigitStringsAreInvalid` | InputValidation.java:50-63 | 21 or more digits without a leading zero exceed 2^64 - 1 and are rejected |
| `InputValidation.Pow10Values` | InputValidation.java:56 | 10^19 and 10^20, the powers that sit on either side of 2^64 - 1 |
| `InputValidation.PhoneNumberCharacterization` | InputValidation.java:50-63 | a phone number is valid exactly when, after one optional '+', it is one or more digits whose value is at most 2^64 - 1 |
| `InputValidation.DigitStringPhoneNumber` | InputValidation.java:50-63 | digits, with or without a '+' in front, are valid exactly when their value is at most 2^64 - 1 |
| `InputValidation.DecimalTextIsValidPhoneNumber` | InputValidation.java:50-63 | the decimal text of n is valid exactly when n is at most 2^64 - 1, so "18446744073709551616" is rejected |
| `InputValidation.ZeroPaddedPhoneNumbers` | InputValidation.java:50-63 | any number of leading zeros, with or without a '+', before the decimal text of n: valid exactly when n is at most 2^64 - 1, however long the string |
| `InputValidation.DegeneratePhoneNumbersRejected` | InputValidation.java:53-60 | null, `""` and `"+"` are rejected |
| `InputValidation.IsValidEmail` | InputValidation.java:75-104 | a valid address is non-null and contains '@' |
| `InputValidation.PartChecks` | InputValidation.java:84-95 | the eleven tests pass exactly when the local part is non-empty, the domain has at least 4 UTF-16 code units and a '.', neither part starts or ends with '.', and neither contains ".." or a space |
| `InputValidation.PartChecksWellFormed` | InputValidation.java:85-95 | the eleven tests on the two parts are equivalent to: local part non-empty, domain of at least 4 UTF-16 code units containing '.', neither part starting or ending with '.', containing ".." or containing a space |
| `InputValidation.SplitIntoTwo` | InputValidation.java:81-84 | a string that `split("@")` cuts into two pieces is those pieces joined by '@', followed by nothing but '@'s |
| `InputValidation.ValidEmailShape` | InputValidation.java:78-98 | a valid address splits into exactly two parts, a well-formed local part and a well-formed domain, followed only by '@'s |
| `InputValidation.WellFormedEmailIsValid` | InputValidation.java:78-98 | any well-formed local part, '@', well-formed domain, and any number of trailing '@'s is accepted |
| `InputValidation.TrailingAtIsAccepted` | InputValidation.java:81-98 | `"a@b.cd@"` is a valid address |
| `InputValidation.SupplementaryDomainAccepted` | InputValidation.java:87 | `"a@\U{1F600}.b"` is valid: its three-character domain is four code units long |
| `InputValidation.ValidEmailDomainLength` | InputValidation.java:87 | the domain of a valid address has at least 4 UTF-16 code units |
| `InputValidation.InvalidEmailInputs` | InputValidation.java:76-103 | null, blank or '@'-free input yields false, with no exception |
| `Security.HexValue` | Security.java:119 | the value of a lower-case hex digit is below 16, and writing it as a digit gives the character back |
| `Security.HexOfByte` | Security.java:119 | each digest byte becomes two lower-case hex digits whose value 16·high + low is the unsigned byte |
| `Security.HexOfByteDigits` | Security.java:119 | `Integer.toString((b & 0xff) + 0x100, 16)` is '1' followed by the high and the low nibble |
| `Security.HexEncode` | Security.java:118-120 | the hex text has two lower-case hex digits per byte |
| `Security.HexDecode` | Security.java:118-120 | an even-length hex text decodes to half as many bytes |
| `Security.HexEncodeSnoc` | Security.java:118-120 | appending a byte appends its two hex digits |
| `Security.HexOfPair` | Security.java:119 | the byte read from two lower-case hex digits is written back as those digits |
| `Security.HexDecodeEncode` | Security.java:118-120 | decoding the hex text of bytes gives the bytes back |
| `Security.HexEncodeDecode` | Security.java:118-120 | encoding the decoded bytes of a hex text gives the text back |
| `Security.HexEncodeInjective` | Security.java:118-120 | two byte sequences with the same hex text are equal |
| `Security.SaltedHash` | Security.java:108-128 | an unknown algorithm gives ""; otherwise the result is 2·n lower-case hex digits that decode to the digest of salt followed by the UTF-8 text |
| `Security.HashWithAlgorithm` | Security.java:108-128 | the StringBuilder loop computes exactly `SaltedHash`, including "" after a failed lookup |
| `Security.Hash` | Security.java:90-92 | the two-argument overload is `SaltedHash` with "SHA-256" |
| `Security.HashDependsOnlyOnDigestInput` | Security.java:113-115 | the hash depends on text and salt only through salt followed by the UTF-8 text |
| `Security.SaltTextBoundaryIsInvisible` | Security.java:113-115 | text "b" with salt [97] hashes like text "ab" with an empty salt |
| `Security.HashLengthFromDigestLength` | Security.java:118-120 | a 32-byte digest (SHA-256) gives a 64-character hash |
| `Security.ValidateHash` | Security.java:143-152 | true exactly when the stored text is lower-case hex that decodes to the digest of salt and string; or when the default algorithm is missing and the stored text is empty |
| `Security.HashEqualsIffDecodes` | Security.java:147 | a hex text equals another exactly when the other is hex with the same decoded bytes |
| `Security.ValidateOwnHash` | Security.java:143-152 | `validateHash(p, hash(p, s), s)` is always true |
| `Security.ValidateRejectsOtherDigest` | Security.java:143-152 | a string is rejected whenever its salted digest differs from the hashed string's |
| `Security.MissingAlgorithmAcceptsEverything` | Security.java:122-127 | if the default algorithm is missing, every string validates against an empty stored hash |
| `Security.NextBytes` | Security.java:65 | `nextBytes` fills the whole array with the drawn bytes |
| `Security.GenerateSalt` | Security.java:62-72 | a fresh array of exactly `length` bytes, all zero when the strong random source is missing; a negative length throws |
| `Security.GenerateDefaultSalt` | Security.java:51-53 | a fresh array of exactly 128 bytes |
| `Security.FriendlyPasswordCharacters` | Security.java:171 | a friendly password holds only A-Z and 1-9, and never '0' |
| `Security.FriendlyAlphabetIsAscii` | Security.java:171 | every character of the alphabet is ASCII |
| `Security.FriendlyAlphabetCharacters` | Security.java:171 | every character of the alphabet is an upper-case ASCII letter or a digit 1-9 |
| `Security.FriendlyAlphabetDrawable` | Security.java:171 | the alphabet is non-empty, its length fits in an `int`, and every character is below the surrogates |
| `Security.DrawCharacters` | Security.java:179-181 | the loop appends exactly `count` characters, each one of the alphabet's |
| `Security.GenerateFriendlyPassword` | Security.java:170-184 | 6 to 8 characters, each from the alphabet, never '0' |
| `Randomize.NextIntBound` | Randomize.java:21 | the bound equals `max - min + 1` modulo 2^32 |
| `Randomize.RandomBetween` | Randomize.java:20-22 | throws exactly when the wrapped bound is not positive; for 0 <= max - min <= 2^31 - 2 it returns a value in [min, max] |
| `Randomize.NextIntBoundPositive` | Randomize.java:21 | the bound is positive exactly for 0 <= max - min <= 2^31 - 2 or max - min <= -2^31 - 2 |
| `Randomize.ReversedWideRangeDoesNotThrow` | Randomize.java:21 | `randomBetween(MAX_VALUE, MIN_VALUE)` computes the bound 2 and does not throw |
| `Randomize.RandomCharFromString` | Randomize.java:31-34 | returns one of the input's UTF-16 code units (half of a surrogate pair for a character above U+FFFF); throws exactly for "" |
| `PasswordBuilder.Password.constructor` | Password.java:20-24 | a new password object holds "" and no injected hasher yet |
| `PasswordBuilder.Password.Set` | Password.java:88-91 | the password becomes the argument; the same object is returned; only the `password` field changes |
| `PasswordBuilder.Password.ToUpperCase` | Password.java:100-103 | the password is upper-cased in place: same length, no lower-case letter; `this` is returned |
| `PasswordBuilder.Password.ToLowerCase` | Password.java:112-115 | the password is lower-cased in place: same length, no upper-case letter; `this` is returned |
| `PasswordBuilder.Password.GenerateFriendly` | Password.java:53-65 | the password becomes 6 to 8 characters from A-Z and 1-9; `this` is returned |
| `PasswordBuilder.Password.GenerateSecure` | Password.java:75-78 | the password becomes the 36-character UUID text; `this` is returned |
| `PasswordBuilder.Password.ToString` | Password.java:119-121 | returns the current password and reads the object without changing it |
| `PasswordBuilder.SampleUpperCase` | Password.java:100-103 | "Secret-1" upper-cases to "SECRET-1" |
| `PasswordBuilder.SampleLowerCase` | Password.java:112-115 | "SECRET-1" lower-cases to "secret-1" |
| `PasswordBuilder.ChainedCalls` | Password.java:88-121 | `set("Secret-1").toUpperCase().toString()` is "SECRET-1"; a later `toLowerCase()` on the returned reference shows "secret-1" through the original one; `generateSecure` leaves a 36-character password |

## Left out

- The digest computation (`MessageDigest`, SHA-256 per FIPS 180-4) is a parameter. Nothing about collision resistance is proved. The properties "different strings or salts give different hashes" hold only as far as the digest tells its inputs apart.
- Random sources (`Random`, `SecureRandom.getInstanceStrong`, `UUID.randomUUID`) are nondeterministic choices or parameters. Nothing is said about their distribution, unpredictability or uniqueness.
- `Security.generateToken` returns the text of a random UUID, which is foreign output. It is not modelled.
- `Password.hash()` calls the injected `Pbkdf2PasswordHash`, a foreign library. It is not modelled. The injected field is a reference that no modelled method touches.
- The logging and `System.err` output in the catch blocks are I/O and are not modelled.
- Null values are modelled only in `InputValidation`. Elsewhere the parameters and the `password` field take non-null values, so these Java behaviours are not modelled:
  - `set(null)` stores null, and `toString()` then returns null. A later `toUpperCase()`, `toLowerCase()` or `hash()` throws `NullPointerException`.
  - `validateHash(p, null, salt)` returns false without throwing, because `equals(null)` is false.
  - A null `unhashedString` or `salt` in `hash`, and a null `input` in `randomCharFromString`, throw `NullPointerException`.
- The salt reaches `hash` as a sequence of bytes rather than an array. `hash` only reads it.
- `UnsupportedEncodingException` cannot happen for "UTF-8", which every Java platform supports.
- Strings are sequences of Unicode scalar values. `length()` and `charAt` are modelled through their UTF-16 code units (`JavaString.Utf16`). A Java string that holds a lone surrogate cannot be represented.
- `JavaString.GetBytesUtf8`: encodes strings of Unicode scalar values. Lone UTF-16 surrogates, which Java replaces with '?', are not modelled.
- `JavaString.ToUpperCase`: maps only ASCII letters. Locale- and Unicode-dependent case mapping is not modelled.
- `JavaString.ToLowerCase`: maps only ASCII letters, for the same reason.
- `JavaNumber.ParseUnsignedLong`: accepts only ASCII digits. `Character.digit` also accepts other Unicode decimal digits.
- `PasswordBuilder.Password.GenerateSecure`: receives the UUID text as a parameter whose format is that of `UUID.toString()`.
- `Security.GenerateSalt`: with a strong source available, the bytes are unconstrained. The model does not capture the thread-safety of the shared random source.
- No code here is concurrent.
