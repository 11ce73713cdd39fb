/** The Java primitive types and outcomes that the four utility classes rely on. */
module Java {

  /** A Java reference that may be null (None), or a plain optional value. */
  datatype Option<+T> = None | Some(value: T)

  /** Java `byte`: signed, 8 bits. */
  newtype int8 = x: int | -0x80 <= x < 0x80

  /** Java `int`: signed, 32 bits. */
  newtype int32 = x: int | -0x8000_0000 <= x < 0x8000_0000

  const INT_MIN: int := -0x8000_0000
  const INT_MAX: int := 0x7fff_ffff
  const TWO_TO_32: int := 0x1_0000_0000

  /** The exceptions the modelled code can raise and does not catch. */
  datatype Exception =
    | IllegalArgument    // Random.nextInt with a bound that is not positive
    | NegativeArraySize  // new byte[n] with n < 0

  /** A call either returns a value or throws. */
  datatype Outcome<+T> = Returned(value: T) | Threw(exception: Exception)

  /** The mathematical value of an `int` expression as Java computes it:
      reduced into 32-bit two's complement. */
  function Wrap32(x: int): (r: int32)
    ensures (r as int - x) % TWO_TO_32 == 0
    ensures INT_MIN <= x <= INT_MAX ==> r as int == x
  {
    var m := (x - INT_MIN) % TWO_TO_32;
    assert m - (x - INT_MIN) == -TWO_TO_32 * ((x - INT_MIN) / TWO_TO_32);
    (m + INT_MIN) as int32
  }

  /** `b & 0xff`: the unsigned value of a byte. */
  function Unsigned(b: int8): (u: nat)
    ensures u < 0x100
    ensures (u - b as int) % 0x100 == 0
  {
    if b < 0 then b as int + 0x100 else b as int
  }

  /** `(byte) u` for 0 <= u < 256: the byte with that unsigned value. */
  function Signed(u: nat): (b: int8)
    requires u < 0x100
    ensures Unsigned(b) == u
  {
    if u < 0x80 then u as int8 else (u - 0x100) as int8
  }

  lemma SignedUnsigned(b: int8)
    ensures Signed(Unsigned(b)) == b
  {
  }
}
