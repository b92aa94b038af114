/**
 * `static_uint<size>`: an object holding `std::array<std::size_t, ARR_SIZE> data`
 * whose compound operators `+=`, `&=` and `>>=` update the limbs in place.
 * The binary operators copy the left operand and apply the compound operator
 * to the copy; `numeric_limits<static_uint>::max()` fills a fresh value with
 * all-ones limbs. The comparisons read the limbs only and are the functions
 * of module Ordering applied to `data[..]`.
 */
module Uint {
  import opened Words
  import opened Limbs
  import opened Detail
  import opened Addition
  import opened Bitwise
  import opened Shift

  /** `unsigned int`, the type of the shift count of `>>=`. */
  type UInt32 = x: int | 0 <= x < 0x1_0000_0000

  class StaticUint {
    /** The template argument: the width in bits. */
    const size: nat
    const data: array<Word>

    /** The `static_assert` on the width holds and the array has ARR_SIZE limbs. */
    predicate Valid()
    {
      WidthAccepted(size) && data.Length == RequiredArraySize(size)
    }

    /** `static_uint<size>{}`: value-initialised, so every limb is zero. */
    constructor (size: nat)
      requires WidthAccepted(size)
      ensures Valid() && this.size == size && fresh(data)
      ensures data[..] == Zeros(RequiredArraySize(size))
      ensures Value(data[..]) == 0
    {
      this.size := size;
      data := new Word[RequiredArraySize(size)](_ => 0);
      new;
      ValueZeros(data.Length);
    }

    /** `static_uint(std::size_t in)`: `data{in}` puts the word in `data[0]` and zeroes the rest. */
    constructor FromWord(size: nat, w: Word)
      requires WidthAccepted(size) && size > 0
      ensures Valid() && this.size == size && fresh(data)
      ensures data[..] == WordLimbs(w, RequiredArraySize(size))
      ensures Value(data[..]) == w
    {
      var n := RequiredArraySize(size);
      this.size := size;
      data := new Word[n](i => if i == 0 then w else 0);
      new;
      WordValue(w, n);
    }

    /** The widening constructor: `data(widen_array<ARR_SIZE>(in.data))`, allowed only from a narrower width. */
    constructor Widen(size: nat, other: StaticUint)
      requires WidthAccepted(size) && other.Valid() && other.size <= size
      ensures Valid() && this.size == size && fresh(data)
      ensures data[..] == WidenArray(other.data[..], RequiredArraySize(size))
      ensures Value(data[..]) == Value(other.data[..])
    {
      var n := RequiredArraySize(size);
      ArraySizeMonotone(other.size, size);
      var wide := WidenArray(other.data[..], n);
      this.size := size;
      data := new Word[n](i requires 0 <= i < n => wide[i]);
    }

    /** The copy constructor, as in `auto result = lhs;`. */
    constructor Copy(other: StaticUint)
      requires other.Valid()
      ensures Valid() && size == other.size && fresh(data)
      ensures data[..] == other.data[..]
    {
      var limbs := other.data[..];
      size := other.size;
      data := new Word[other.data.Length](i requires 0 <= i < |limbs| => limbs[i]);
    }

    /**
     * `operator+=`: the ripple-carry loop with the carry rule
     * `overflow = data[i] < other.data[i]`. Where no carry is lost the result
     * is the sum modulo 2^(64 * ARR_SIZE).
     */
    method AddAssign(other: StaticUint)
      requires Valid() && other.Valid() && other.size == size
      requires other.data != data
      modifies data
      ensures data[..] == AddLimbs(old(data[..]), other.data[..])
      ensures NoLostCarry(old(data[..]), other.data[..]) ==>
                Value(data[..]) == (old(Value(data[..])) + Value(other.data[..])) % BasePow(data.Length)
    {
      ghost var a, b := data[..], other.data[..];
      var overflow := false;
      var i := 0;
      while i < data.Length
        invariant 0 <= i <= data.Length
        invariant overflow == CarryIn(a, b, i)
        invariant forall k | 0 <= k < i :: data[k] == SumLimb(a, b, k)
        invariant forall k | i <= k < data.Length :: data[k] == a[k]
      {
        data[i] := LimbStep(data[i], other.data[i], overflow);
        overflow := data[i] < other.data[i];
        i := i + 1;
      }
      assert data[..] == AddLimbs(a, b);
      if NoLostCarry(a, b) {
        AddModular(a, b);
      }
    }

    /**
     * `operator+=` with the carry rule corrected to
     * `overflow = data[i] < other.data[i] || (overflow && data[i] == other.data[i])`:
     * the sum modulo 2^(64 * ARR_SIZE) for all operands.
     */
    method AddAssignIntended(other: StaticUint)
      requires Valid() && other.Valid() && other.size == size
      requires other.data != data
      modifies data
      ensures data[..] == AddLimbsIntended(old(data[..]), other.data[..])
      ensures Value(data[..]) == (old(Value(data[..])) + Value(other.data[..])) % BasePow(data.Length)
    {
      ghost var a, b := data[..], other.data[..];
      var overflow := false;
      var i := 0;
      while i < data.Length
        invariant 0 <= i <= data.Length
        invariant overflow == CarryInIntended(a, b, i)
        invariant forall k | 0 <= k < i :: data[k] == SumLimbIntended(a, b, k)
        invariant forall k | i <= k < data.Length :: data[k] == a[k]
      {
        data[i] := LimbStep(data[i], other.data[i], overflow);
        overflow := data[i] < other.data[i] || (overflow && data[i] == other.data[i]);
        i := i + 1;
      }
      assert data[..] == AddLimbsIntended(a, b);
      AddIntendedModular(a, b);
    }

    /** `operator&=`: each limb AND-ed with the matching limb of rhs, which may be this value itself. */
    method AndAssign(rhs: StaticUint)
      requires Valid() && rhs.Valid() && rhs.size == size
      modifies data
      ensures data[..] == AndLimbs(old(data[..]), old(rhs.data[..]))
      ensures Value(data[..]) <= old(Value(data[..])) && Value(data[..]) <= old(Value(rhs.data[..]))
    {
      ghost var a, b := data[..], rhs.data[..];
      var i := 0;
      while i < data.Length
        invariant 0 <= i <= data.Length
        invariant forall k | 0 <= k < i :: data[k] == WordAnd(a[k], b[k])
        invariant forall k | i <= k < data.Length :: data[k] == a[k] && rhs.data[k] == b[k]
      {
        data[i] := WordAnd(data[i], rhs.data[i]);
        i := i + 1;
      }
      assert data[..] == AndLimbs(a, b);
      AndBelowOperands(a, b);
    }

    /**
     * `operator>>=`. The copy of phase one starts `shift / 64` limbs into
     * the array, so a larger limb count than ARR_SIZE is excluded.
     */
    method ShiftRightAssign(shift: UInt32)
      requires Valid() && shift / WORD_BITS <= data.Length
      modifies data
      ensures data[..] == ShiftLimbs(old(data[..]), shift)
      ensures Value(data[..]) == old(Value(data[..])) / Pow2(shift)
    {
      ghost var a := data[..];
      var e := shift / WORD_BITS;
      if e != 0 {
        MoveLimbsDown(e);
      }
      var bs := shift % WORD_BITS;
      if bs != 0 {
        ShiftBitsDown(bs);
      }
      ShiftValue(a, shift);
    }

    /** Phase one of `>>=`: `copy(rbegin() + e, rend(), rbegin())`, then `fill(begin(), begin() + e, 0)`. */
    method MoveLimbsDown(e: nat)
      requires e <= data.Length
      modifies data
      ensures data[..] == LimbShift(old(data[..]), e)
    {
      ghost var a := data[..];
      var n := data.Length;
      // the copy: limbs move down, lowest first
      var i := 0;
      while i < n - e
        invariant 0 <= i <= n - e
        invariant forall k | 0 <= k < i :: data[k] == a[k + e]
        invariant forall k | i <= k < n :: data[k] == a[k]
      {
        data[i] := data[i + e];
        i := i + 1;
      }
      // the fill: the top e limbs, highest first
      var j := 0;
      while j < e
        invariant 0 <= j <= e
        invariant forall k | 0 <= k < n - e :: data[k] == a[k + e]
        invariant forall k | n - j <= k < n :: data[k] == 0
      {
        data[n - 1 - j] := 0;
        j := j + 1;
      }
      forall k | 0 <= k < n
        ensures data[k] == LimbShift(a, e)[k]
      {
        LimbShiftAt(a, e, k);
      }
      assert data[..] == LimbShift(a, e);
    }

    /**
     * Phase two of `>>=`: `accumulate(begin(), end(), 0, ...)` visits the limbs
     * from the top down, shifting each right and OR-ing in the carry, the bits
     * the limb above shifted out.
     */
    method ShiftBitsDown(bs: nat)
      requires 0 < bs < WORD_BITS
      modifies data
      ensures data[..] == BitShift(old(data[..]), bs)
    {
      ghost var mid := data[..];
      var n := data.Length;
      var carry := 0;
      var k := n;
      while k > 0
        invariant 0 <= k <= n
        invariant forall m | 0 <= m < k :: data[m] == mid[m]
        invariant forall m | k <= m < n :: data[m] == BitShiftLimb(mid, bs, m)
        invariant carry == if k < n then ShiftLeft(mid[k], WORD_BITS - bs) else 0
      {
        k := k - 1;
        var elem := data[k];
        var nextCarry := ShiftLeft(elem, WORD_BITS - bs);
        data[k] := WordOr(ShiftRight(elem, bs), carry);
        carry := nextCarry;
      }
      assert data[..] == BitShift(mid, bs);
    }
  }

  /** `operator+`: `auto result = lhs; return result += rhs;`. */
  method Add(lhs: StaticUint, rhs: StaticUint) returns (result: StaticUint)
    requires lhs.Valid() && rhs.Valid() && lhs.size == rhs.size
    ensures fresh(result) && fresh(result.data) && result.Valid() && result.size == lhs.size
    ensures result.data[..] == AddLimbs(lhs.data[..], rhs.data[..])
  {
    result := new StaticUint.Copy(lhs);
    result.AddAssign(rhs);
  }

  /** `operator&`: the operands are left unchanged. */
  method BitwiseAnd(lhs: StaticUint, rhs: StaticUint) returns (result: StaticUint)
    requires lhs.Valid() && rhs.Valid() && lhs.size == rhs.size
    ensures fresh(result) && fresh(result.data) && result.Valid() && result.size == lhs.size
    ensures result.data[..] == AndLimbs(lhs.data[..], rhs.data[..])
  {
    result := new StaticUint.Copy(lhs);
    result.AndAssign(rhs);
  }

  /** `operator>>`: the operand is left unchanged. */
  method RightShift(lhs: StaticUint, shift: UInt32) returns (result: StaticUint)
    requires lhs.Valid() && shift / WORD_BITS <= lhs.data.Length
    ensures fresh(result) && fresh(result.data) && result.Valid() && result.size == lhs.size
    ensures result.data[..] == ShiftLimbs(lhs.data[..], shift)
  {
    result := new StaticUint.Copy(lhs);
    result.ShiftRightAssign(shift);
  }

  /** `numeric_limits<static_uint<size>>::max()`: a zero value whose limbs are then filled with all-ones, from the top. */
  method Max(size: nat) returns (result: StaticUint)
    requires WidthAccepted(size)
    ensures fresh(result) && fresh(result.data) && result.Valid() && result.size == size
    ensures result.data[..] == MaxLimbs(RequiredArraySize(size))
    ensures Value(result.data[..]) == BasePow(RequiredArraySize(size)) - 1
  {
    result := new StaticUint(size);
    var n := result.data.Length;
    var j := 0;
    while j < n
      invariant 0 <= j <= n
      invariant forall k | n - j <= k < n :: result.data[k] == MAX_WORD
    {
      result.data[n - 1 - j] := MAX_WORD;
      j := j + 1;
    }
    assert result.data[..] == MaxLimbs(n);
    MaxValue(n);
  }
}
