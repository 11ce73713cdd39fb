/** Password.java: a fluent password builder. The object holds one unhashed
    password that its mutators replace, each returning the same object. */
module PasswordBuilder {
  import opened Java
  import opened JavaString
  import Security
  import Randomize

  /** UUID.toString() of a random (version 4) UUID: 8-4-4-4-12 lower-case hex
      digits separated by '-', version digit '4', variant digit 8, 9, a or b. */
  predicate IsRandomUuidText(s: string) {
    && |s| == 36
    && (forall i :: 0 <= i < 36 ==> (s[i] == '-' <==> i in {8, 13, 18, 23}))
    && (forall i :: 0 <= i < 36 && i !in {8, 13, 18, 23} ==> Security.IsLowerHexDigit(s[i]))
    && s[14] == '4'
    && s[19] in "89ab"
  }

  /** The text of UUID.randomUUID(): output of a random source the model leaves out. */
  type RandomUuidText = s: string | IsRandomUuidText(s)
    witness "00000000-0000-4000-8000-000000000000"

  /** Stands for the Pbkdf2PasswordHash the container injects; the model never
      calls it. */
  class Pbkdf2PasswordHash {
    constructor () {}
  }

  class Password {
    /** Injected by the container; never touched by the class's own methods. */
    var passwordHash: Pbkdf2PasswordHash?
    /** The unhashed password. */
    var password: string

    /** new Password(): the password starts as the empty string. */
    constructor ()
      ensures password == "" && passwordHash == null
    {
      passwordHash := null;  // Java's default; the container injects it later
      password := "";
    }

    /** generateFriendly(): 6 to 8 characters from A-Z and 1-9, drawn at random. */
    method GenerateFriendly() returns (self: Password)
      modifies this`password
      ensures self == this
      ensures Security.IsFriendlyPassword(password)
    {
      var validCharacters := Security.FRIENDLY_CHARACTERS;
      var passwordLength := Randomize.RandomBetween(6, 8);
      assert passwordLength.Returned? && 6 <= passwordLength.value <= 8;
      Security.FriendlyAlphabetDrawable();
      var builder := Security.DrawCharacters(validCharacters, passwordLength.value as int);
      password := builder;
      self := this;
    }

    /** generateSecure(): the text of a random UUID becomes the password. */
    method GenerateSecure(randomUuid: RandomUuidText) returns (self: Password)
      modifies this`password
      ensures self == this
      ensures password == randomUuid && |password| == 36
    {
      password := randomUuid;
      self := this;
    }

    /** set(password): the given password replaces the current one. */
    method Set(newPassword: string) returns (self: Password)
      modifies this`password
      ensures self == this
      ensures password == newPassword
    {
      password := newPassword;
      self := this;
    }

    /** toUpperCase(): upper-cases the password in place. */
    method ToUpperCase() returns (self: Password)
      modifies this`password
      ensures self == this
      ensures password == JavaString.ToUpperCase(old(password))
      ensures |password| == |old(password)|
      ensures forall i :: 0 <= i < |password| ==> !IsAsciiLower(password[i])
    {
      password := JavaString.ToUpperCase(password);
      self := this;
    }

    /** toLowerCase(): lower-cases the password in place. */
    method ToLowerCase() returns (self: Password)
      modifies this`password
      ensures self == this
      ensures password == JavaString.ToLowerCase(old(password))
      ensures |password| == |old(password)|
      ensures forall i :: 0 <= i < |password| ==> !IsAsciiUpper(password[i])
    {
      password := JavaString.ToLowerCase(password);
      self := this;
    }

    /** toString(): the current, unhashed password; reads the object and
        changes nothing. */
    function ToString(): (s: string)
      reads this
      ensures s == password
    {
      password
    }
  }

  /** Upper-casing the sample password that ChainedCalls uses. */
  lemma SampleUpperCase()
    ensures ToUpperCase("Secret-1") == "SECRET-1"
  {
  }

  /** Lower-casing the upper-cased sample password. */
  lemma SampleLowerCase()
    ensures ToLowerCase("SECRET-1") == "secret-1"
  {
  }

  /** A client of the builder: chained calls act on one object, so a change
      made through the returned reference shows through the original one. */
  method ChainedCalls(randomUuid: RandomUuidText) returns (upper: string, lower: string, uuid: string)
    ensures upper == "SECRET-1"
    ensures lower == "secret-1"
    ensures |uuid| == 36
  {
    var p := new Password();
    var sample := "Secret-1";
    SampleUpperCase();
    SampleLowerCase();
    var q := p.Set(sample);
    assert q == p && p.password == sample;
    q := q.ToUpperCase();
    assert q == p && p.password == "SECRET-1";
    upper := q.ToString();
    q := q.ToLowerCase();
    assert q == p && p.password == "secret-1";
    lower := p.ToString();
    q := q.GenerateSecure(randomUuid);
    uuid := p.ToString();
  }
}
