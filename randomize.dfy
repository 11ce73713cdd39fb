/** Randomize.java: random numbers and characters from java.util.Random.
    Random.nextInt(bound) is a nondeterministic choice in [0, bound); it throws
    IllegalArgumentException when the bound is not positive. */
module Randomize {
  import opened Java
  import opened JavaString

  /** The bound randomBetween hands to nextInt: `max - min + 1` in Java int
      arithmetic, so it wraps around when the mathematical value does not fit. */
  function NextIntBound(min: int32, max: int32): (bound: int32)
    ensures (bound as int - (max as int - min as int + 1)) % TWO_TO_32 == 0
  {
    Wrap32(max as int - min as int + 1)
  }

  /** randomBetween(min, max) = new Random().nextInt(max - min + 1) + min.
      It throws exactly when the wrapped bound is not positive. When the range
      is an ordinary one (max - min + 1 fits in an int) it returns a value in
      [min, max], with no overflow in the final addition. In every case the
      value returned is min plus a draw below the bound, in int arithmetic. */
  method RandomBetween(min: int32, max: int32) returns (r: Outcome<int32>)
    ensures r.Threw? <==> NextIntBound(min, max) <= 0
    ensures r.Threw? ==> r.exception == IllegalArgument
    ensures 0 <= max as int - min as int < INT_MAX ==> r.Returned? && min <= r.value <= max
    ensures r.Returned? ==> (r.value as int - min as int) % TWO_TO_32 < NextIntBound(min, max) as int
  {
    var bound := NextIntBound(min, max);
    if bound <= 0 {
      return Threw(IllegalArgument);
    }
    var draw :| 0 <= draw < bound as int;  // Random.nextInt(bound)
    var sum := Wrap32(draw + min as int);
    assert (sum as int - min as int) % TWO_TO_32 == draw by {
      assert (sum as int - min as int - draw) % TWO_TO_32 == 0;
    }
    r := Returned(sum);
  }

  /** The bound is positive for exactly two kinds of call: an ordinary range
      (0 <= max - min <= 2^31 - 2), and a reversed range so wide that
      max - min + 1 wraps round to a positive int (max - min <= -2^31 - 2). */
  lemma NextIntBoundPositive(min: int32, max: int32)
    ensures NextIntBound(min, max) > 0 <==>
            (0 <= max as int - min as int <= INT_MAX - 1) || max as int - min as int <= INT_MIN - 2
  {
    var m := max as int - min as int + 1;
    var b := NextIntBound(min, max) as int;
    if INT_MIN <= m <= INT_MAX {
      assert b == m;
    } else if m > INT_MAX {
      assert b == m - TWO_TO_32 by {
        assert (b - (m - TWO_TO_32)) % TWO_TO_32 == 0;
      }
    } else {
      assert b == m + TWO_TO_32 by {
        assert (b - (m + TWO_TO_32)) % TWO_TO_32 == 0;
      }
    }
  }

  /** Reversing the arguments does not always throw: randomBetween(INT_MAX,
      INT_MIN) computes the bound 2 and returns INT_MAX or INT_MIN. */
  lemma ReversedWideRangeDoesNotThrow()
    ensures NextIntBound(INT_MAX as int32, INT_MIN as int32) == 2
  {
    var m := INT_MIN - INT_MAX + 1;
    var b := NextIntBound(INT_MAX as int32, INT_MIN as int32) as int;
    assert (b - (m + TWO_TO_32)) % TWO_TO_32 == 0;
  }

  /** randomCharFromString(input) = input.charAt(new Random().nextInt(input.length())):
      one UTF-16 code unit of the input (half of a surrogate pair when the draw
      lands inside a character above U+FFFF), or IllegalArgumentException for "". */
  method RandomCharFromString(input: string) returns (r: Outcome<CodeUnit>)
    requires |Utf16(input)| <= INT_MAX
    ensures r.Threw? <==> input == []
    ensures r.Threw? ==> r.exception == IllegalArgument
    ensures r.Returned? ==> r.value in Utf16(input)
  {
    var units := Utf16(input);
    if |units| == 0 {
      return Threw(IllegalArgument);
    }
    var position :| 0 <= position < |units|;  // Random.nextInt(input.length())
    r := Returned(units[position]);
  }
}
