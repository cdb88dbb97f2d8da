/**
 * The `Float_t` union of the inverse-square-root test program: a 32-bit signed word
 * read as an IEEE 754 binary32 value (section 3.4 of IEEE 754-2008), with
 * accessors for the raw sign, biased exponent and trailing significand fields.
 *
 * The C++ accessors use an arithmetic right shift followed by a mask. For a
 * two's-complement word `i`, `i >> k` is the floor of `i / 2^k` and `x & (2^k - 1)`
 * is the non-negative remainder of `x` modulo `2^k`; Dafny's `/` and `%` on `int`
 * with a positive divisor are exactly these (Euclidean) operations.
 */
module FloatBits {

  /** The `int32_t i` member of the union. */
  newtype int32 = x: int | -0x8000_0000 <= x < 0x8000_0000

  const SignShift: int := 0x8000_0000        // 2^31
  const MantissaSpan: int := 0x80_0000       // 2^23, one exponent step
  const ExponentField: int := 0x100          // 8-bit field, values 0..255

  /** `(i >> 31) & 1` */
  function RawSign(i: int32): (s: int)
    ensures s == 0 || s == 1
  {
    ((i as int) / SignShift) % 2
  }

  /** `i & ((1 << 23) - 1)` */
  function RawMantissa(i: int32): (m: int)
    ensures 0 <= m < 0x80_0000
  {
    (i as int) % MantissaSpan
  }

  /** `(i >> 23) & 0xFF` */
  function RawExponent(i: int32): (e: int)
    ensures 0 <= e < 256
  {
    ((i as int) / MantissaSpan) % ExponentField
  }

  /** The sign field is set exactly for the negative words. */
  lemma SignIsNegativity(i: int32)
    ensures RawSign(i) == 1 <==> i < 0
  {
    if i < 0 {
      assert (i as int) / SignShift == -1;
    } else {
      assert (i as int) / SignShift == 0;
    }
  }

  /**
   * The three fields partition the word: reading them back as a two's-complement
   * number (the sign bit weighs -2^31) gives the word itself.
   */
  lemma FieldsPartitionWord(i: int32)
    ensures (i as int) == -RawSign(i) * SignShift + RawExponent(i) * MantissaSpan + RawMantissa(i)
  {
    var q := (i as int) / MantissaSpan;
    assert (i as int) == q * MantissaSpan + RawMantissa(i);
    if i < 0 {
      assert (i as int) / SignShift == -1;
      assert -256 <= q < 0;
      assert RawExponent(i) == q + 256;
    } else {
      assert (i as int) / SignShift == 0;
      assert 0 <= q < 256;
      assert RawExponent(i) == q;
    }
  }

  /** For a non-negative word the sign is clear and exponent and mantissa rebuild it. */
  lemma NonNegativeFields(i: int32)
    requires i >= 0
    ensures RawSign(i) == 0
    ensures RawExponent(i) * MantissaSpan + RawMantissa(i) == i as int
  {
    FieldsPartitionWord(i);
    SignIsNegativity(i);
  }

  /**
   * On non-negative words the exponent field is monotone: a larger word never has
   * a smaller exponent. This is why the sweep's exponents never decrease.
   */
  lemma ExponentMonotone(i: int32, j: int32)
    requires 0 <= i <= j
    ensures RawExponent(i) <= RawExponent(j)
  {
    NonNegativeFields(i);
    NonNegativeFields(j);
  }

  /** `0x7F800000` is +infinity: exponent all ones, mantissa zero, sign clear. */
  lemma PositiveInfinityFields()
    ensures RawSign(0x7F80_0000) == 0
    ensures RawExponent(0x7F80_0000) == 255
    ensures RawMantissa(0x7F80_0000) == 0
  {
  }

  /** Below `0x7F800000` every non-negative word has exponent below 255. */
  lemma FiniteBelowInfinity(i: int32)
    requires 0 <= i < 0x7F80_0000
    ensures RawExponent(i) < 255
  {
  }
}
