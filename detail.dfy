/**
 * The compile-time helpers of namespace `detail`: how many bytes and how many
 * limbs a width needs, and the array widening used by the widening
 * constructor. The `static_assert` on the width is here too.
 */
module Detail {
  import opened Words
  import opened Limbs

  /** Bytes needed for a width in bits, rounded up. */
  function RequiredSizeof(sizeInBits: nat): (r: nat)
    ensures CHAR_BIT * r >= sizeInBits
    ensures r > 0 ==> CHAR_BIT * (r - 1) < sizeInBits
  {
    if sizeInBits % CHAR_BIT == 0 then sizeInBits / CHAR_BIT
    else sizeInBits / CHAR_BIT + 1
  }

  /** Limbs needed for a width in bits: the byte count rounded up to whole limbs. */
  function RequiredArraySize(sizeInBits: nat): (r: nat)
    ensures WORD_BYTES * r >= RequiredSizeof(sizeInBits)
    ensures r > 0 ==> WORD_BYTES * (r - 1) < RequiredSizeof(sizeInBits)
  {
    var required := RequiredSizeof(sizeInBits);
    if required % WORD_BYTES == 0 then required / WORD_BYTES
    else required / WORD_BYTES + 1
  }

  /** Rounding up twice is rounding the width up to whole 64-bit limbs once. */
  lemma {:induction false} ArraySizeIsWordCeiling(sizeInBits: nat)
    ensures WORD_BITS * RequiredArraySize(sizeInBits) >= sizeInBits
    ensures RequiredArraySize(sizeInBits) > 0 ==>
              WORD_BITS * (RequiredArraySize(sizeInBits) - 1) < sizeInBits
  {
    var bytes := RequiredSizeof(sizeInBits);
    var r := RequiredArraySize(sizeInBits);
    if r > 0 {
      assert WORD_BYTES * (r - 1) <= bytes - 1;
      assert CHAR_BIT * (bytes - 1) < sizeInBits;
    }
  }

  /** The widths the tests use: 64, 128, 192 and 256 bits take 1, 2, 3 and 4 limbs. */
  lemma ArraySizeExamples()
    ensures RequiredArraySize(64) == 1
    ensures RequiredArraySize(128) == 2
    ensures RequiredArraySize(192) == 3
    ensures RequiredArraySize(256) == 4
  {
  }

  /** A wider type never has fewer limbs. */
  lemma {:induction false} ArraySizeMonotone(small: nat, big: nat)
    requires small <= big
    ensures RequiredArraySize(small) <= RequiredArraySize(big)
  {
    ArraySizeIsWordCeiling(small);
    ArraySizeIsWordCeiling(big);
  }

  /**
   * The `static_assert` of static_uint as written: the width must be a
   * multiple of `sizeof(std::size_t)`, that is of 8 bits.
   */
  predicate WidthAccepted(size: nat)
  {
    size % WORD_BYTES == 0
  }

  /** The same check as its message describes it: a multiple of the 64-bit word. */
  predicate WidthIsWordMultiple(size: nat)
  {
    size % WORD_BITS == 0
  }

  /**
   * The check as written admits widths that do not fill their last limb; such
   * a static_uint<72> has two limbs and wraps at 2^128, not at 2^72.
   */
  lemma WidthCheckAdmitsPartialLimb()
    ensures WidthAccepted(72) && !WidthIsWordMultiple(72)
    ensures WORD_BITS * RequiredArraySize(72) == 128
  {
  }

  /** With the intended check the limbs hold exactly the declared width. */
  lemma {:induction false} WordMultipleWidthIsExact(size: nat)
    requires WidthIsWordMultiple(size)
    ensures WidthAccepted(size)
    ensures WORD_BITS * RequiredArraySize(size) == size
  {
    ArraySizeIsWordCeiling(size);
  }

  /**
   * `widen_array`: the small array's limbs in the low positions, the
   * remaining high limbs value-initialised to zero.
   */
  function WidenArray(small: seq<Word>, biggerSize: nat): (r: seq<Word>)
    requires |small| <= biggerSize
    ensures |r| == biggerSize
    ensures forall i | 0 <= i < biggerSize :: r[i] == if i < |small| then small[i] else 0
    ensures Value(r) == Value(small)
  {
    ValueZeroExtend(small, biggerSize - |small|);
    small + Zeros(biggerSize - |small|)
  }

  /** A maximum widened to more limbs is below the wider maximum: the new high limbs are zero. */
  lemma {:induction false} WidenedMaxBelowMax(small: nat, big: nat)
    requires small < big
    ensures Value(WidenArray(MaxLimbs(small), big)) < Value(MaxLimbs(big))
  {
    MaxValue(small);
    MaxValue(big);
    BasePowGrows(small, big);
  }

  /**
   * The width check as written lets a narrower width share the limb count of
   * a wider one: widths 200 and 256 both pass it and both take four limbs,
   * so the 200-bit maximum widened to 256 bits is the 256-bit maximum.
   */
  lemma WidenedMaxCanEqualMax()
    ensures WidthAccepted(200) && WidthAccepted(256)
    ensures RequiredArraySize(200) == RequiredArraySize(256) == 4
    ensures WidenArray(MaxLimbs(RequiredArraySize(200)), RequiredArraySize(256)) == MaxLimbs(RequiredArraySize(256))
  {
  }

  /**
   * With widths that are multiples of 64, a narrower width has fewer limbs,
   * so its widened maximum is strictly below the wider maximum.
   */
  lemma {:induction false} WidenedWordMultipleMaxBelowMax(small: nat, big: nat)
    requires WidthIsWordMultiple(small) && WidthIsWordMultiple(big) && small < big
    ensures RequiredArraySize(small) < RequiredArraySize(big)
    ensures Value(WidenArray(MaxLimbs(RequiredArraySize(small)), RequiredArraySize(big)))
              < Value(MaxLimbs(RequiredArraySize(big)))
  {
    WordMultipleWidthIsExact(small);
    WordMultipleWidthIsExact(big);
    WidenedMaxBelowMax(RequiredArraySize(small), RequiredArraySize(big));
  }
}
