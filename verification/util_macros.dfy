/** The arithmetic macros of build/release/include/MLib/MLibUtil.h
    (MLIB_UTIL_ALIGN, MLIB_UTIL_HAVE_FLAG, MLIB_UTIL_MAX, MLIB_UTIL_MIN; the
    same definitions appear without the UTIL infix in MLib.h).

    The macros are generic in C and the library itself does not apply
    them; ALIGN and HAVE_FLAG are modelled on uint32_t operands, where `+`
    and `-` wrap, and MAX and MIN on any ordered integers. */
module UtilMacros {

  /** A uint32_t operand. */
  type word = bv32

  /** A bit position, 0 .. 32. */
  type bitIndex = bv8

  /** a is a power of two. */
  predicate Pow2(a: word)
  {
    a != 0 && a & (a - 1) == 0
  }

  /** MLIB_UTIL_ALIGN(value, alignment): round value up to a multiple of
      alignment, in wrapping arithmetic. */
  function Align(value: word, alignment: word): (r: word)
    ensures Pow2(alignment) ==> r & (alignment - 1) == 0
  {
    (value + (alignment - 1)) & !(alignment - 1)
  }

  /** For a power-of-two alignment the result is a multiple of it, and a
      value already aligned is returned unchanged. */
  lemma AlignMultiple(value: word, alignment: word)
    requires Pow2(alignment)
    ensures Align(value, alignment) & (alignment - 1) == 0
    ensures value & (alignment - 1) == 0 ==> Align(value, alignment) == value
  {
  }

  /** Rounding up is idempotent. */
  lemma AlignIdempotent(value: word, alignment: word)
    requires Pow2(alignment)
    ensures Align(Align(value, alignment), alignment) == Align(value, alignment)
  {
    AlignMultiple(value, alignment);
    AlignMultiple(Align(value, alignment), alignment);
  }

  /** When value + alignment - 1 does not wrap, the result is the least
      multiple not below value: value <= result < value + alignment. */
  lemma AlignBounds(value: word, alignment: word)
    requires Pow2(alignment) && value <= value + (alignment - 1)
    ensures value <= Align(value, alignment)
    ensures Align(value, alignment) - value < alignment
  {
  }

  /** Bit i of x. */
  predicate Bit(x: word, i: bitIndex)
    requires i < 32
  {
    (x >> i) & 1 == 1
  }

  /** MLIB_UTIL_HAVE_FLAG(value, flag): it fails exactly when flag has a
      bit value lacks. */
  function HaveFlag(value: word, flag: word): (b: bool)
    ensures b <==> flag & !value == 0
  {
    MissingDiffer(value, flag);
    XorZero(value & flag, flag);
    value & flag == flag
  }

  /** x >> i is bit i below the bits from i + 1 up. */
  lemma ShiftStep(x: word, i: bitIndex)
    requires i < 32
    ensures x >> i == ((x >> (i + 1)) << 1) | ((x >> i) & 1)
  {
  }

  /** A word with no bit set at positions i and above is 0 from i up. */
  lemma {:induction false} NoBitsFrom(x: word, i: bitIndex)
    requires i <= 32
    requires forall j: bitIndex :: i <= j < 32 ==> !Bit(x, j)
    ensures x >> i == 0
    decreases 32 - i
  {
    if i < 32 {
      NoBitsFrom(x, i + 1);
      ShiftStep(x, i);
      assert !Bit(x, i);
    }
  }

  /** The bits flag has and value lacks. */
  lemma MissingBit(value: word, flag: word, i: bitIndex)
    requires i < 32
    ensures Bit(flag & !value, i) == (Bit(flag, i) && !Bit(value, i))
  {
  }

  /** The bits flag has and value lacks are where value & flag and flag
      differ. */
  lemma MissingDiffer(value: word, flag: word)
    ensures (value & flag) ^ flag == flag & !value
  {
  }

  /** Words are equal exactly when they do not differ. */
  lemma XorZero(x: word, y: word)
    ensures x ^ y == 0 <==> x == y
  {
  }

  /** HAVE_FLAG holds exactly when every bit set in flag is set in value. */
  lemma HaveFlagBits(value: word, flag: word)
    ensures HaveFlag(value, flag) <==> forall i: bitIndex :: i < 32 ==> (Bit(flag, i) ==> Bit(value, i))
  {
    var missing := flag & !value;
    assert HaveFlag(value, flag) <==> missing == 0;
    if forall i: bitIndex :: i < 32 ==> (Bit(flag, i) ==> Bit(value, i)) {
      forall j: bitIndex | 0 <= j < 32 ensures !Bit(missing, j) {
        MissingBit(value, flag, j);
      }
      NoBitsFrom(missing, 0);
    } else {
      var i: bitIndex :| i < 32 && Bit(flag, i) && !Bit(value, i);
      MissingBit(value, flag, i);
    }
  }

  /** MLIB_UTIL_MAX(a, b). */
  function Max(a: int, b: int): (m: int)
    ensures (m == a || m == b) && m >= a && m >= b
  {
    if a > b then a else b
  }

  /** MLIB_UTIL_MIN(a, b). */
  function Min(a: int, b: int): (m: int)
    ensures (m == a || m == b) && m <= a && m <= b
  {
    if a < b then a else b
  }
}
