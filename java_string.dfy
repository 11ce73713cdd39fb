/** The java.lang.String operations the utilities call, on strings of Unicode
    scalar values: trim, startsWith, endsWith, contains, split on one
    character, toUpperCase/toLowerCase (ASCII letters) and getBytes("UTF-8"). */
module JavaString {
  import opened Java

  // ---------------------------------------------------------------- trim

  /** How many leading characters <= U+0020 `s` has: where trim() starts. */
  function LeadingBlanks(s: string): (k: nat)
    ensures k <= |s|
    ensures forall i :: 0 <= i < k ==> s[i] <= ' '
    ensures k == |s| || s[k] > ' '
  {
    if s != [] && s[0] <= ' ' then 1 + LeadingBlanks(s[1..]) else 0
  }

  /** Where trim() ends: the end of `s` moved back over characters <= U+0020,
      but never before the start `k`. */
  function TrimEnd(s: string, k: nat): (e: nat)
    requires k <= |s|
    ensures k <= e <= |s|
    ensures forall i :: e <= i < |s| ==> s[i] <= ' '
    ensures e == k || s[e - 1] > ' '
  {
    if k < |s| && s[|s| - 1] <= ' ' then TrimEnd(s[..|s| - 1], k) else |s|
  }

  /** String.trim(): drops every leading and trailing character <= U+0020
      (control characters as well as the space). */
  function Trim(s: string): (r: string)
    ensures r == [] <==> forall i :: 0 <= i < |s| ==> s[i] <= ' '
    ensures r == [] || (r[0] > ' ' && r[|r| - 1] > ' ')
    ensures |r| <= |s|
    ensures LeadingBlanks(s) + |r| <= |s|
    ensures forall i :: 0 <= i < |r| ==> r[i] == s[LeadingBlanks(s) + i]
    ensures forall i :: 0 <= i < LeadingBlanks(s) ==> s[i] <= ' '
    ensures forall i :: LeadingBlanks(s) + |r| <= i < |s| ==> s[i] <= ' '
  {
    var k := LeadingBlanks(s);
    s[k..TrimEnd(s, k)]
  }

  // -------------------------------------------- startsWith, endsWith, contains

  /** String.startsWith: the first |prefix| characters of `s` are `prefix`. */
  predicate StartsWith(s: string, prefix: string): (b: bool)
    ensures b <==> |prefix| <= |s| && forall i :: 0 <= i < |prefix| ==> s[i] == prefix[i]
  {
    |prefix| <= |s| && s[..|prefix|] == prefix
  }

  /** String.endsWith: the last |suffix| characters of `s` are `suffix`. */
  predicate EndsWith(s: string, suffix: string): (b: bool)
    ensures b <==> |suffix| <= |s| && forall i :: 0 <= i < |suffix| ==> s[|s| - |suffix| + i] == suffix[i]
  {
    |suffix| <= |s| && s[|s| - |suffix|..] == suffix
  }

  /** `t` stands in `s` from index `i` on. */
  predicate OccursAt(s: string, t: string, i: nat) {
    i + |t| <= |s| && forall j :: 0 <= j < |t| ==> s[i + j] == t[j]
  }

  /** String.contains: `t` occurs in `s` at some index (the empty string
      occurs everywhere). */
  predicate Contains(s: string, t: string): (b: bool)
    ensures b <==> exists i: nat :: OccursAt(s, t, i)
    decreases |s|
  {
    if s == [] then
      assert forall i: nat :: OccursAt(s, t, i) ==> i == 0 && StartsWith(s, t);
      assert StartsWith(s, t) ==> OccursAt(s, t, 0);
      StartsWith(s, t)
    else
      OccursInTail(s, t);
      StartsWith(s, t) || Contains(s[1..], t)
  }

  /** An occurrence of `t` in a non-empty `s` is at its start or in its tail. */
  lemma OccursInTail(s: string, t: string)
    requires s != []
    ensures (exists i: nat :: OccursAt(s, t, i)) <==> OccursAt(s, t, 0) || exists i: nat :: OccursAt(s[1..], t, i)
  {
    if exists i: nat :: OccursAt(s, t, i) {
      var i: nat :| OccursAt(s, t, i);
      if i > 0 {
        forall j | 0 <= j < |t| ensures s[1..][i - 1 + j] == t[j] {
          assert s[1..][i - 1 + j] == s[i + j];
        }
        assert OccursAt(s[1..], t, i - 1);
      }
    }
    if exists i: nat :: OccursAt(s[1..], t, i) {
      var i: nat :| OccursAt(s[1..], t, i);
      forall j | 0 <= j < |t| ensures s[i + 1 + j] == t[j] {
        assert s[1..][i + j] == s[i + 1 + j];
      }
      assert OccursAt(s, t, i + 1);
    }
  }

  /** contains(".") and contains(" ") are membership tests. */
  lemma {:induction false} ContainsChar(s: string, c: char)
    ensures Contains(s, [c]) <==> c in s
    decreases |s|
  {
    if s != [] {
      ContainsChar(s[1..], c);
      assert s == [s[0]] + s[1..];
    }
  }

  /** contains("..") holds exactly when two dots stand side by side. */
  lemma {:induction false} ContainsDoubleDot(s: string)
    ensures Contains(s, "..") <==> exists i :: 0 <= i < |s| - 1 && s[i] == '.' && s[i + 1] == '.'
    decreases |s|
  {
    if s != [] {
      ContainsDoubleDot(s[1..]);
      if StartsWith(s, "..") {
        assert s[0] == '.' && s[1] == '.';
      }
      if exists i :: 0 <= i < |s| - 1 && s[i] == '.' && s[i + 1] == '.' {
        var i :| 0 <= i < |s| - 1 && s[i] == '.' && s[i + 1] == '.';
        if i > 0 {
          assert s[1..][i - 1] == '.' && s[1..][i] == '.';
        } else {
          assert s[..2] == "..";
        }
      }
      if exists i :: 0 <= i < |s[1..]| - 1 && s[1..][i] == '.' && s[1..][i + 1] == '.' {
        var i :| 0 <= i < |s[1..]| - 1 && s[1..][i] == '.' && s[1..][i + 1] == '.';
        assert s[i + 1] == '.' && s[i + 2] == '.';
      }
    }
  }

  // ---------------------------------------------------------------- split

  /** indexOf(c) for a character that occurs. */
  function IndexOf(s: string, c: char): (i: nat)
    requires c in s
    ensures i < |s| && s[i] == c && c !in s[..i]
  {
    if s[0] == c then 0 else
      var j := IndexOf(s[1..], c);
      assert s[..j + 1] == [s[0]] + s[1..][..j];
      j + 1
  }

  /** The pieces joined back with the separator between them. */
  function Join(parts: seq<string>, sep: char): string
  {
    if parts == [] then []
    else if |parts| == 1 then parts[0]
    else parts[0] + [sep] + Join(parts[1..], sep)
  }

  /** Every piece between separators, empty ones included: a string with k
      separators has k + 1 pieces, and joining them gives the string back. */
  function SplitAll(s: string, sep: char): (parts: seq<string>)
    ensures |parts| >= 1
    ensures forall i :: 0 <= i < |parts| ==> sep !in parts[i]
    ensures Join(parts, sep) == s
    decreases |s|
  {
    if sep !in s then [s]
    else
      var i := IndexOf(s, sep);
      var rest := SplitAll(s[i + 1..], sep);
      assert s == s[..i] + [sep] + s[i + 1..];
      [s[..i]] + rest
  }

  /** The list of pieces without its trailing empty ones. */
  function DropTrailingEmpty(parts: seq<string>): (r: seq<string>)
    ensures |r| <= |parts| && r == parts[..|r|]
    ensures r == [] || r[|r| - 1] != []
    ensures forall i :: |r| <= i < |parts| ==> parts[i] == []
  {
    if parts != [] && parts[|parts| - 1] == [] then DropTrailingEmpty(parts[..|parts| - 1]) else parts
  }

  /** String.split(regex) for a regex that is one plain character, limit 0:
      a string without the character gives itself; otherwise every piece,
      with the trailing empty pieces dropped (a leading empty piece stays). */
  function Split(s: string, sep: char): (r: seq<string>)
    ensures sep !in s ==> r == [s]
    ensures forall i :: 0 <= i < |r| ==> sep !in r[i]
    ensures r != [] ==> r[|r| - 1] != [] || r == [s]
    ensures r != [] ==> |Join(r, sep)| <= |s| && s == Join(r, sep) + Repeat(sep, |s| - |Join(r, sep)|)
    ensures r == [] ==> sep in s && forall i :: 0 <= i < |s| ==> s[i] == sep
  {
    if sep !in s then
      assert s == Join([s], sep) + Repeat(sep, 0);
      [s]
    else
      var all := SplitAll(s, sep);
      DropTrailingEmptyJoin(all, sep);
      DropTrailingEmpty(all)
  }

  /** The pieces that dropping trailing empties removes come back as
      separators at the end of the join. */
  lemma DropTrailingEmptyJoin(parts: seq<string>, sep: char)
    requires |parts| >= 1
    ensures DropTrailingEmpty(parts) != [] ==>
              Join(parts, sep) == Join(DropTrailingEmpty(parts), sep) + Repeat(sep, |parts| - |DropTrailingEmpty(parts)|)
    ensures DropTrailingEmpty(parts) == [] ==> Join(parts, sep) == Repeat(sep, |parts| - 1)
  {
    var r := DropTrailingEmpty(parts);
    DroppedAreEmpties(parts);
    if r != [] {
      JoinTrailingEmpty(r, |parts| - |r|, sep);
    } else {
      var e: seq<string> := Empties(|parts| - 1);
      assert parts == [[]] + e;
      SingleThenEmpties([], |parts| - 1, sep);
    }
  }

  /** A list of pieces is what dropping trailing empties left, followed by
      empties. */
  lemma DroppedAreEmpties(parts: seq<string>)
    ensures parts == DropTrailingEmpty(parts) + Empties(|parts| - |DropTrailingEmpty(parts)|)
  {
    var r := DropTrailingEmpty(parts);
    var e: seq<string> := Empties(|parts| - |r|);
    assert forall i :: 0 <= i < |parts| ==> parts[i] == (r + e)[i];
  }

  /** Dropping the trailing empties of pieces that end in a non-empty one
      followed by k empties gives those pieces back. */
  lemma {:induction false} DropTrailingEmptyOfEmpties(parts: seq<string>, k: nat)
    requires parts != [] && parts[|parts| - 1] != []
    ensures DropTrailingEmpty(parts + Empties(k)) == parts
    decreases k
  {
    if k > 0 {
      var e: seq<string> := Empties(k - 1);
      assert parts + Empties(k) == (parts + e) + [[]];
      assert (parts + Empties(k))[..|parts| + k - 1] == parts + e;
      DropTrailingEmptyOfEmpties(parts, k - 1);
    } else {
      assert parts + Empties(k) == parts;
    }
  }

  /** Split inverts Join: separator-free pieces whose last one is not empty,
      joined and followed by any number of separators, split back into
      themselves. */
  lemma SplitOfJoin(parts: seq<string>, k: nat, sep: char)
    requires parts != [] && parts[|parts| - 1] != []
    requires forall i :: 0 <= i < |parts| ==> sep !in parts[i]
    ensures Split(Join(parts, sep) + Repeat(sep, k), sep) == parts
  {
    var s := Join(parts, sep) + Repeat(sep, k);
    var all := parts + Empties(k);
    JoinTrailingEmpty(parts, k, sep);
    assert forall i :: 0 <= i < |all| ==> sep !in all[i];
    SplitAllOfJoin(all, sep);
    DropTrailingEmptyOfEmpties(parts, k);
  }

  /** `n` copies of the character `c`. */
  function Repeat(c: char, n: nat): (r: string)
    ensures |r| == n && forall i :: 0 <= i < n ==> r[i] == c
  {
    if n == 0 then [] else Repeat(c, n - 1) + [c]
  }

  /** `k` empty pieces. */
  function Empties(k: nat): (r: seq<string>)
    ensures |r| == k && forall i :: 0 <= i < k ==> r[i] == []
  {
    if k == 0 then [] else Empties(k - 1) + [[]]
  }

  /** Joining pieces followed by empty ones adds one separator per empty piece. */
  lemma {:induction false} JoinTrailingEmpty(parts: seq<string>, k: nat, sep: char)
    requires |parts| >= 1
    ensures Join(parts + Empties(k), sep) == Join(parts, sep) + Repeat(sep, k)
    decreases |parts|
  {
    var empties: seq<string> := Empties(k);
    if |parts| == 1 {
      if k > 0 {
        SingleThenEmpties(parts[0], k, sep);
      } else {
        assert parts + empties == parts;
      }
    } else {
      JoinTrailingEmpty(parts[1..], k, sep);
      assert (parts + empties)[1..] == parts[1..] + empties;
    }
  }

  lemma {:induction false} SingleThenEmpties(p: string, k: nat, sep: char)
    ensures Join([p] + Empties(k), sep) == p + Repeat(sep, k)
    decreases k
  {
    if k > 0 {
      var e: seq<string> := Empties(k - 1);
      SingleThenEmpties([], k - 1, sep);
      assert ([p] + Empties(k))[1..] == [[]] + e;
      assert Repeat(sep, k) == [sep] + Repeat(sep, k - 1) by {
        RepeatFront(sep, k);
      }
    } else {
      assert [p] + Empties(k) == [p];
    }
  }

  lemma {:induction false} RepeatFront(c: char, n: nat)
    requires n > 0
    ensures Repeat(c, n) == [c] + Repeat(c, n - 1)
  {
  }

  /** Splitting a string made of pieces free of the separator gives those pieces. */
  lemma {:induction false} SplitAllOfJoin(parts: seq<string>, sep: char)
    requires |parts| >= 1
    requires forall i :: 0 <= i < |parts| ==> sep !in parts[i]
    ensures SplitAll(Join(parts, sep), sep) == parts
    decreases |parts|
  {
    if |parts| > 1 {
      var s := Join(parts, sep);
      var tail := Join(parts[1..], sep);
      assert s == parts[0] + [sep] + tail;
      assert sep in s by { assert s[|parts[0]|] == sep; }
      var i := IndexOf(s, sep);
      assert i == |parts[0]| by {
        assert forall j :: 0 <= j < |parts[0]| ==> s[j] == parts[0][j];
      }
      assert s[..i] == parts[0];
      assert s[i + 1..] == tail;
      SplitAllOfJoin(parts[1..], sep);
    }
  }

  // ------------------------------------------------- toUpperCase, toLowerCase

  predicate IsAsciiLower(c: char) { 'a' <= c <= 'z' }
  predicate IsAsciiUpper(c: char) { 'A' <= c <= 'Z' }

  function UpperChar(c: char): char {
    if IsAsciiLower(c) then (c as int - 32) as char else c
  }

  function LowerChar(c: char): char {
    if IsAsciiUpper(c) then (c as int + 32) as char else c
  }

  /** String.toUpperCase, for the ASCII letters: no lower-case letter is left,
      the length is kept and each character differs from the original at most
      in case; everything but a-z is kept as it is. */
  function ToUpperCase(s: string): (r: string)
    ensures |r| == |s|
    ensures forall i :: 0 <= i < |r| ==> !IsAsciiLower(r[i])
    ensures forall i :: 0 <= i < |r| ==> LowerChar(r[i]) == LowerChar(s[i])
    ensures forall i :: 0 <= i < |r| && !IsAsciiLower(s[i]) ==> r[i] == s[i]
  {
    if s == [] then [] else [UpperChar(s[0])] + ToUpperCase(s[1..])
  }

  /** String.toLowerCase, for the ASCII letters: the mirror image of ToUpperCase. */
  function ToLowerCase(s: string): (r: string)
    ensures |r| == |s|
    ensures forall i :: 0 <= i < |r| ==> !IsAsciiUpper(r[i])
    ensures forall i :: 0 <= i < |r| ==> UpperChar(r[i]) == UpperChar(s[i])
    ensures forall i :: 0 <= i < |r| && !IsAsciiUpper(s[i]) ==> r[i] == s[i]
  {
    if s == [] then [] else [LowerChar(s[0])] + ToLowerCase(s[1..])
  }

  /** Upper-casing twice is upper-casing once. */
  lemma {:induction false} ToUpperCaseIdempotent(s: string)
    ensures ToUpperCase(ToUpperCase(s)) == ToUpperCase(s)
  {
    var u := ToUpperCase(s);
    var uu := ToUpperCase(u);
    assert forall i :: 0 <= i < |u| ==> uu[i] == u[i];
  }

  /** Lower-casing forgets an upper-casing done before it. */
  lemma {:induction false} LowerAfterUpper(s: string)
    ensures ToLowerCase(ToUpperCase(s)) == ToLowerCase(s)
  {
    var u := ToUpperCase(s);
    var a := ToLowerCase(u);
    var b := ToLowerCase(s);
    forall i | 0 <= i < |s| ensures a[i] == b[i] {
      LowerCaseAt(u, i);
      LowerCaseAt(s, i);
    }
  }

  /** Each character of toUpperCase() is the upper-case mapping of the
      character at the same index. */
  lemma {:induction false} UpperCaseAt(s: string, i: nat)
    requires i < |s|
    ensures ToUpperCase(s)[i] == UpperChar(s[i])
    decreases i
  {
    if i > 0 {
      UpperCaseAt(s[1..], i - 1);
    }
  }

  /** Each character of toLowerCase() is the lower-case mapping of the
      character at the same index. */
  lemma {:induction false} LowerCaseAt(s: string, i: nat)
    requires i < |s|
    ensures ToLowerCase(s)[i] == LowerChar(s[i])
    decreases i
  {
    if i > 0 {
      LowerCaseAt(s[1..], i - 1);
    }
  }

  // ------------------------------------------------------- getBytes("UTF-8")

  /** The UTF-8 encoding of one Unicode scalar value (RFC 3629), as Java bytes. */
  function Utf8Char(c: char): (r: seq<int8>)
    ensures 1 <= |r| <= 4
    ensures (c as int < 0x80) <==> |r| == 1
  {
    var n := c as int;
    if n < 0x80 then [Signed(n)]
    else if n < 0x800 then [Signed(0xC0 + n / 0x40), Signed(0x80 + n % 0x40)]
    else if n < 0x1_0000 then
      [Signed(0xE0 + n / 0x1000), Signed(0x80 + n / 0x40 % 0x40), Signed(0x80 + n % 0x40)]
    else
      [Signed(0xF0 + n / 0x4_0000), Signed(0x80 + n / 0x1000 % 0x40),
       Signed(0x80 + n / 0x40 % 0x40), Signed(0x80 + n % 0x40)]
  }

  /** String.getBytes("UTF-8"). */
  function GetBytesUtf8(s: string): (r: seq<int8>)
    ensures |s| <= |r| <= 4 * |s|
  {
    if s == [] then [] else Utf8Char(s[0]) + GetBytesUtf8(s[1..])
  }

  /** An ASCII string encodes to its own code points, one byte per character. */
  lemma {:induction false} GetBytesAscii(s: string)
    requires forall i :: 0 <= i < |s| ==> s[i] as int < 0x80
    ensures |GetBytesUtf8(s)| == |s|
    ensures forall i :: 0 <= i < |s| ==> GetBytesUtf8(s)[i] as int == s[i] as int
  {
    if s != [] {
      GetBytesAscii(s[1..]);
    }
  }

  // ------------------------------------------------------- UTF-16 code units

  /** A Java `char`: one UTF-16 code unit. */
  type CodeUnit = u: int | 0 <= u < 0x1_0000

  /** The UTF-16 code units of one Unicode scalar value: the value itself below
      U+10000, otherwise a high surrogate and a low surrogate that together
      carry the value. */
  function Utf16Char(c: char): (units: seq<CodeUnit>)
    ensures c as int < 0x1_0000 ==> units == [c as int]
    ensures c as int >= 0x1_0000 ==>
              && |units| == 2
              && 0xD800 <= units[0] < 0xDC00 <= units[1] < 0xE000
              && 0x1_0000 + (units[0] as int - 0xD800) * 0x400 + (units[1] as int - 0xDC00) == c as int
  {
    var n := c as int;
    if n < 0x1_0000 then [n]
    else
      var v := n - 0x1_0000;
      [0xD800 + v / 0x400, 0xDC00 + v % 0x400]
  }

  /** How many characters of `s` lie at or above U+10000. */
  function Supplementaries(s: string): (n: nat)
    ensures n <= |s|
    ensures n == 0 <== forall i :: 0 <= i < |s| ==> s[i] as int < 0x1_0000
  {
    if s == [] then 0 else (if s[0] as int >= 0x1_0000 then 1 else 0) + Supplementaries(s[1..])
  }

  /** The UTF-16 code units of a string, as Java stores it; `length()` and
      `charAt` count and index these units. `length()` is the number of
      characters plus one for every character at or above U+10000. */
  function Utf16(s: string): (units: seq<CodeUnit>)
    ensures |units| == |s| + Supplementaries(s)
    ensures |s| <= |units| <= 2 * |s|
  {
    if s == [] then [] else Utf16Char(s[0]) + Utf16(s[1..])
  }

  /** Below the surrogates every character is one code unit: such text has one
      unit per character, each equal to the character's code. */
  lemma {:induction false} Utf16OfBmp(s: string)
    requires forall i :: 0 <= i < |s| ==> s[i] as int < 0xD800
    ensures |Utf16(s)| == |s|
    ensures forall i :: 0 <= i < |s| ==> Utf16(s)[i] == s[i] as int
  {
    if s != [] {
      Utf16OfBmp(s[1..]);
    }
  }

  /** A code unit drawn from text below the surrogates is the code of one of
      its characters. */
  lemma BmpUnitIsChar(s: string, u: CodeUnit)
    requires forall i :: 0 <= i < |s| ==> s[i] as int < 0xD800
    requires u in Utf16(s)
    ensures u < 0xD800 && (u as char) in s
  {
    Utf16OfBmp(s);
    var i :| 0 <= i < |Utf16(s)| && Utf16(s)[i] == u;
    assert s[i] == u as char;
  }

  /** A character above U+FFFF counts twice in `length()`: "\U{1F600}.b" has
      three characters and four code units. */
  lemma SupplementaryCountsTwice()
    ensures |Utf16("\U{1F600}.b")| == 4
  {
    assert "\U{1F600}.b"[1..] == ".b";
    assert Utf16(".b") == ['.' as int, 'b' as int] by {
      Utf16OfBmp(".b");
    }
  }
}
