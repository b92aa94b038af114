/**
 * `big_endian_iterator` walks the bytes of a static_uint most significant
 * first: limbs from the top (`ui.begin()`, the highest limb) down, and within
 * a limb byte offsets from `max_byte` = 7 down to 0. On a little-endian host
 * the byte at offset b of a limb is its b-th base-256 digit, so the walk
 * visits the bytes of the value from the most significant to the least.
 * `from_big_endian` writes its input through such an iterator into a fresh
 * 256-bit value.
 */
module BigEndian {
  import opened Words
  import opened Limbs
  import opened Detail
  import opened Uint

  /** `max_byte`: the offset of the most significant byte of a limb. */
  const MAX_BYTE: nat := WORD_BYTES - 1

  /** The width from_big_endian decodes into, and its byte count. */
  const DECODE_BITS: nat := 256
  const DECODE_BYTES: nat := 32

  /** Big-endian byte j of the limbs: byte `7 - j % 8` of limb `ARR_SIZE - 1 - j / 8`. */
  function ByteAt(s: seq<Word>, j: nat): Byte
    requires j < WORD_BYTES * |s|
  {
    ByteOf(s[|s| - 1 - j / WORD_BYTES], MAX_BYTE - j % WORD_BYTES)
  }

  // ---------------------------------------------------------------------
  // The byte walk against the value.

  /** Adding a multiple of 256 * p to x leaves the digit (x / p) % 256 alone. */
  lemma {:induction false} DigitUnchanged(x: nat, rest: nat, p: nat, m: nat)
    requires p > 0 && BASE == p * (256 * m)
    ensures ((x + BASE * rest) / p) % 256 == (x / p) % 256
  {
    assert BASE * rest == p * (256 * (m * rest));
    DivAddMul(x, p, 256 * (m * rest));
    DivAddMul(x / p, 256, m * rest);
  }

  /** Below byte b of a limb sit 8 * b bits; above it, at least one more byte up to the word's top. */
  lemma {:induction false} ByteWeights(b: nat)
    requires b <= MAX_BYTE
    ensures BASE == Pow2(8 * b) * (256 * Pow2(WORD_BITS - 8 * b - 8))
  {
    Pow2Add(8, WORD_BITS - 8 * b - 8);
    Pow2Add(8 * b, WORD_BITS - 8 * b);
    Pow2Word();
  }

  /** The bits of the limbs above a limb do not reach its byte b. */
  lemma {:induction false} DigitOfLimb(x: Word, rest: nat, b: nat)
    requires b <= MAX_BYTE
    ensures ((x + BASE * rest) / Pow2(8 * b)) % 256 == ByteOf(x, b)
  {
    ByteWeights(b);
    DigitUnchanged(x, rest, Pow2(8 * b), Pow2(WORD_BITS - 8 * b - 8));
    ByteOfIsShiftMask(x, b);
  }

  /** Position j splits into a limb counted from the top and a byte offset. */
  lemma {:induction false} PositionSplits(n: nat, j: nat)
    requires j < WORD_BYTES * n
    ensures WORD_BYTES * n - 1 - j == WORD_BYTES * (n - 1 - j / WORD_BYTES) + (MAX_BYTE - j % WORD_BYTES)
  {
  }

  /**
   * Byte j of the walk is `(value >> 8 * (8 * ARR_SIZE - 1 - j)) & 0xFF`:
   * position 0 is the most significant byte of the value, position
   * `8 * ARR_SIZE - 1` the least significant.
   */
  lemma {:induction false} ByteAtValue(s: seq<Word>, j: nat)
    requires j < WORD_BYTES * |s|
    ensures ByteAt(s, j) == (Value(s) / Pow2(8 * (WORD_BYTES * |s| - 1 - j))) % 256
  {
    var k, b := |s| - 1 - j / WORD_BYTES, MAX_BYTE - j % WORD_BYTES;
    PositionSplits(|s|, j);
    assert 8 * (WORD_BYTES * |s| - 1 - j) == WORD_BITS * k + 8 * b;
    Pow2Add(WORD_BITS * k, 8 * b);
    BasePowIsPow2(k);
    DivDiv(Value(s), BasePow(k), Pow2(8 * b));
    ValueAboveLimb(s, k);
    assert Value(s[k..]) == s[k] + BASE * Value(s[k + 1..]) by {
      assert s[k..][1..] == s[k + 1..];
    }
    DigitOfLimb(s[k], Value(s[k + 1..]), b);
  }

  /** Storing v into byte b of limb k changes the walk at that limb's position only. */
  lemma {:induction false} ByteAtUpdate(s: seq<Word>, k: nat, b: nat, v: Byte, j: nat)
    requires k < |s| && b <= MAX_BYTE && j < WORD_BYTES * |s|
    ensures var t := s[k := WordWithByte(s[k], b, v)];
      ByteAt(t, j) == if j == WORD_BYTES * (|s| - 1 - k) + (MAX_BYTE - b) then v else ByteAt(s, j)
  {
    var t := s[k := WordWithByte(s[k], b, v)];
    var k', b' := |s| - 1 - j / WORD_BYTES, MAX_BYTE - j % WORD_BYTES;
    if k' == k {
      ByteOfWithByte(s[k], b, v, b');
    }
  }

  /** The bytes of a zero value are all zero. */
  lemma {:induction false} ByteAtZeros(n: nat, j: nat)
    requires j < WORD_BYTES * n
    ensures ByteAt(Zeros(n), j) == 0
  {
    ByteOfZero(MAX_BYTE - j % WORD_BYTES);
  }

  // ---------------------------------------------------------------------
  // The iterator.

  class BigEndianIterator {
    const ui: StaticUint
    /** `curr_it` as the number of limbs it has passed from `ui.begin()`: it points at limb `ARR_SIZE - 1 - currIt`. */
    var currIt: nat
    /** `curr_byte`: the byte offset in the current limb. */
    var currByte: nat

    /** A position inside the walk, or the end position (one past the last limb, at `max_byte`). */
    ghost predicate Valid()
      reads this
    {
      currByte <= MAX_BYTE && currIt <= ui.data.Length
      && (currIt == ui.data.Length ==> currByte == MAX_BYTE)
    }

    /** How many bytes the walk has passed. */
    ghost function Index(): nat
      reads this
      requires Valid()
    {
      WORD_BYTES * currIt + (MAX_BYTE - currByte)
    }

    /** `big_endian_iterator(i)`: at the top limb, at its most significant byte. */
    constructor (i: StaticUint)
      ensures ui == i && currIt == 0 && currByte == MAX_BYTE
      ensures Valid() && Index() == 0
    {
      ui := i;
      currIt := 0;
      currByte := MAX_BYTE;
    }

    /** `big_endian_iterator::end(i)`: past the bottom limb, at `max_byte`. */
    constructor End(i: StaticUint)
      ensures ui == i && currIt == i.data.Length && currByte == MAX_BYTE
      ensures Valid() && Index() == WORD_BYTES * i.data.Length
    {
      ui := i;
      currIt := i.data.Length;
      currByte := MAX_BYTE;
    }

    /** `increment`: the next lower byte, or the top byte of the next lower limb. */
    method Increment()
      requires Valid() && currIt < ui.data.Length
      modifies this
      ensures if old(currByte) == 0 then currIt == old(currIt) + 1 && currByte == MAX_BYTE
              else currIt == old(currIt) && currByte == old(currByte) - 1
      ensures Valid() && Index() == old(Index()) + 1
    {
      if currByte == 0 {
        currIt := currIt + 1;
        currByte := MAX_BYTE;
      } else {
        currByte := currByte - 1;
      }
    }

    /** `equal`: the same limb and the same byte; on one static_uint these are the same position. */
    function Equal(other: BigEndianIterator): (r: bool)
      reads this, other
      requires Valid() && other.Valid() && other.ui == ui
      ensures r <==> Index() == other.Index()
    {
      if currIt == other.currIt then
        currByte == other.currByte
      else
        assert currIt < other.currIt ==> Index() < other.Index();
        assert other.currIt < currIt ==> other.Index() < Index();
        false
    }

    /** `dereference`, read: byte `curr_byte` of the current limb, the walk's byte at Index(). */
    function Dereference(): (r: Byte)
      reads this, ui.data
      requires Valid() && currIt < ui.data.Length
      ensures r == ByteAt(ui.data[..], Index())
    {
      var n := ui.data.Length;
      DividePosition(currIt, currByte);
      ByteOf(ui.data[n - 1 - currIt], currByte)
    }

    /** `*it = v`, a write through the reference `dereference` returns. */
    method Write(v: Byte)
      requires Valid() && currIt < ui.data.Length
      modifies ui.data
      ensures ui.data[..] == old(ui.data[..])[ui.data.Length - 1 - currIt := WordWithByte(old(ui.data[ui.data.Length - 1 - currIt]), currByte, v)]
      ensures forall j | 0 <= j < WORD_BYTES * ui.data.Length ::
                ByteAt(ui.data[..], j) == if j == Index() then v else ByteAt(old(ui.data[..]), j)
    {
      ghost var s := ui.data[..];
      var k := ui.data.Length - 1 - currIt;
      ui.data[k] := WordWithByte(ui.data[k], currByte, v);
      assert ui.data[..] == s[k := WordWithByte(s[k], currByte, v)];
      forall j | 0 <= j < WORD_BYTES * ui.data.Length
        ensures ByteAt(ui.data[..], j) == if j == Index() then v else ByteAt(s, j)
      {
        ByteAtUpdate(s, k, currByte, v, j);
      }
    }
  }

  /** The position of limb c (from the top) at byte offset b divides back into c and b. */
  lemma {:induction false} DividePosition(c: nat, b: nat)
    requires b <= MAX_BYTE
    ensures (WORD_BYTES * c + (MAX_BYTE - b)) / WORD_BYTES == c
    ensures (WORD_BYTES * c + (MAX_BYTE - b)) % WORD_BYTES == MAX_BYTE - b
  {
    DivModUnique(WORD_BYTES * c + (MAX_BYTE - b), WORD_BYTES, c, MAX_BYTE - b);
  }

  /**
   * `from_big_endian(bytes)`: `std::copy` of the bytes through a
   * big_endian_iterator over `static_uint<256>{0}`, then the widening
   * conversion to static_uint<size>, which needs `size >= 256`. The input
   * goes to the most significant end: short inputs are left-aligned, the
   * bytes after them stay zero. More than 32 bytes would write past the
   * array, so they are excluded.
   */
  method FromBigEndian(size: nat, bytes: seq<Byte>) returns (r: StaticUint)
    requires WidthAccepted(size) && DECODE_BITS <= size && |bytes| <= DECODE_BYTES
    ensures fresh(r) && fresh(r.data) && r.Valid() && r.size == size
    ensures r.data.Length >= 4
    ensures forall k | 4 <= k < r.data.Length :: r.data[k] == 0
    ensures forall j | 0 <= j < DECODE_BYTES ::
              ByteAt(r.data[..4], j) == if j < |bytes| then bytes[j] else 0
  {
    var result := new StaticUint.FromWord(DECODE_BITS, 0);
    assert result.data.Length == 4;
    forall j | 0 <= j < DECODE_BYTES
      ensures ByteAt(result.data[..], j) == 0
    {
      assert result.data[..] == Zeros(4);
      ByteAtZeros(4, j);
    }
    var it := new BigEndianIterator(result);
    var i := 0;
    while i < |bytes|
      invariant 0 <= i <= |bytes|
      invariant it.ui == result && result.data.Length == 4
      invariant it.Valid() && it.Index() == i
      invariant forall j | 0 <= j < DECODE_BYTES ::
                  ByteAt(result.data[..], j) == if j < i then bytes[j] else 0
      modifies result.data, it
    {
      it.Write(bytes[i]);
      it.Increment();
      i := i + 1;
    }
    ArraySizeMonotone(DECODE_BITS, size);
    r := new StaticUint.Widen(size, result);
    assert r.data[..4] == result.data[..];
  }

  /**
   * The decoded value read back from its digits: below 2^256, with the
   * 256-bit value's base-256 digit `31 - j` equal to `bytes[j]` (zero past
   * the input), so the input is the most significant end of the value.
   */
  lemma {:induction false} DecodedDigits(s: seq<Word>, bytes: seq<Byte>)
    requires |s| >= 4 && |bytes| <= DECODE_BYTES
    requires forall k | 4 <= k < |s| :: s[k] == 0
    requires forall j | 0 <= j < DECODE_BYTES :: ByteAt(s[..4], j) == if j < |bytes| then bytes[j] else 0
    ensures Value(s) == Value(s[..4]) < Pow2(DECODE_BITS)
    ensures forall j | 0 <= j < DECODE_BYTES ::
              (Value(s) / Pow2(8 * (DECODE_BYTES - 1 - j))) % 256 == if j < |bytes| then bytes[j] else 0
  {
    assert s == s[..4] + Zeros(|s| - 4);
    ValueZeroExtend(s[..4], |s| - 4);
    ValueBound(s[..4]);
    BasePowIsPow2(4);
    forall j | 0 <= j < DECODE_BYTES
      ensures (Value(s) / Pow2(8 * (DECODE_BYTES - 1 - j))) % 256 == if j < |bytes| then bytes[j] else 0
    {
      ByteAtValue(s[..4], j);
    }
  }
}
