/**
 * `operator>>=` and `operator>>`. A shift by `shift` bits runs in two phases:
 * first whole limbs move down by `shift / 64` places and the vacated top
 * limbs become zero; then, if `shift % 64` is not zero, every limb from the
 * top down is shifted right by that many bits and receives, in its top bits,
 * the bits shifted out of the limb above it.
 */
module Shift {
  import opened Words
  import opened Limbs
  import opened Detail

  /** Phase one: `copy(rbegin() + e, rend(), rbegin())`, then `fill(begin(), begin() + e, 0)`. */
  function LimbShift(a: seq<Word>, e: nat): (r: seq<Word>)
    requires e <= |a|
    ensures |r| == |a|
  {
    a[e..] + Zeros(e)
  }

  lemma {:induction false} LimbShiftAt(a: seq<Word>, e: nat, k: nat)
    requires e <= |a| && k < |a|
    ensures LimbShift(a, e)[k] == if k < |a| - e then a[k + e] else 0
  {
    if k >= |a| - e {
      assert LimbShift(a, e)[k] == Zeros(e)[k - (|a| - e)];
    }
  }

  /**
   * Phase two, limb k: `elem >> bitshift`, OR-ed with the carry
   * `next << (64 - bitshift)` of the limb above (zero above the top limb).
   * The preconditions of ShiftRight and ShiftLeft hold here because
   * `0 < bitshift < 64`: neither shift is by the full word width.
   */
  function BitShiftLimb(a: seq<Word>, bs: nat, k: nat): Word
    requires 0 < bs < WORD_BITS && k < |a|
  {
    var carry := if k + 1 < |a| then ShiftLeft(a[k + 1], WORD_BITS - bs) else 0;
    WordOr(ShiftRight(a[k], bs), carry)
  }

  function BitShift(a: seq<Word>, bs: nat): (r: seq<Word>)
    requires 0 < bs < WORD_BITS
    ensures |r| == |a|
  {
    seq(|a|, k requires 0 <= k < |a| => BitShiftLimb(a, bs, k))
  }

  /** The limbs after phase one, which runs only when `limbshift != 0`. */
  function PhaseOne(a: seq<Word>, e: nat): (r: seq<Word>)
    requires e <= |a|
    ensures |r| == |a|
  {
    if e != 0 then LimbShift(a, e) else a
  }

  /** The limbs of `a >>= shift`; the precondition keeps the copy of phase one inside the array. */
  function ShiftLimbs(a: seq<Word>, shift: nat): (r: seq<Word>)
    requires shift / WORD_BITS <= |a|
    ensures |r| == |a|
  {
    var e := shift / WORD_BITS;
    var mid := PhaseOne(a, e);
    var bs := shift % WORD_BITS;
    if bs != 0 then BitShift(mid, bs) else mid
  }

  // ---------------------------------------------------------------------
  // Phase one divides by 2^(64 * e).

  lemma {:induction false} LimbShiftValue(a: seq<Word>, e: nat)
    requires e <= |a|
    ensures Value(LimbShift(a, e)) == Value(a) / BasePow(e)
  {
    ValueZeroExtend(a[e..], e);
    ValueAboveLimb(a, e);
  }

  // ---------------------------------------------------------------------
  // Phase two divides by 2^bitshift.

  /** 2^bitshift * 2^(64 - bitshift) is the word base. */
  lemma {:induction false} SplitBase(bs: nat)
    requires bs <= WORD_BITS
    ensures Pow2(bs) * Pow2(WORD_BITS - bs) == BASE
  {
    Pow2Add(bs, WORD_BITS - bs);
    Pow2Word();
  }

  /** `x >> bitshift` leaves the top bitshift bits clear. */
  lemma {:induction false} ShiftRightBelow(x: Word, bs: nat)
    requires bs < WORD_BITS
    ensures ShiftRight(x, bs) < Pow2(WORD_BITS - bs)
  {
    SplitBase(bs);
    DivBelow(x, Pow2(bs), Pow2(WORD_BITS - bs));
  }

  /** `x << (64 - bitshift)` is the low bitshift bits of x moved to the top of the word. */
  lemma {:induction false} ShiftLeftKeepsLowBits(x: Word, bs: nat)
    requires 0 < bs < WORD_BITS
    ensures ShiftLeft(x, WORD_BITS - bs) == (x % Pow2(bs)) * Pow2(WORD_BITS - bs)
  {
    SplitBase(bs);
    MulModScaled(x, Pow2(bs), Pow2(WORD_BITS - bs));
  }

  /** The two parts of a phase-two limb do not overlap, so the OR is a sum. */
  lemma {:induction false} BitShiftLimbValue(a: seq<Word>, bs: nat, k: nat)
    requires 0 < bs < WORD_BITS && k < |a|
    ensures BitShiftLimb(a, bs, k)
            == a[k] / Pow2(bs) + (if k + 1 < |a| then (a[k + 1] % Pow2(bs)) * Pow2(WORD_BITS - bs) else 0)
  {
    var lo := ShiftRight(a[k], bs);
    ShiftRightBelow(a[k], bs);
    if k + 1 < |a| {
      ShiftLeftKeepsLowBits(a[k + 1], bs);
      BitOrDisjoint(lo, a[k + 1] % Pow2(bs), WORD_BITS - bs);
    }
  }

  lemma {:induction false} DivBelow(x: nat, p: nat, q: nat)
    requires p > 0 && x < p * q
    ensures x / p < q
  {
    var d := x / p;
    assert p * (d - q) == p * d - p * q;
    MulSign(p, d - q);
  }

  /** q * v regrouped around v = p * d + m. */
  lemma {:induction false} Regroup(v: nat, p: nat, q: nat, d: nat, m: nat)
    requires v == p * d + m
    ensures q * v == (p * q) * d + m * q
  {
    assert q * (p * d) == (p * q) * d;
  }

  /** Dividing a + (p * q) * v by p, split into the value's low limb and the rest. */
  lemma {:induction false} ShiftArith(a0: nat, v: nat, p: nat, q: nat)
    requires p > 0 && q > 0
    ensures (a0 + (p * q) * v) / p == a0 / p + (v % p) * q + (p * q) * (v / p)
  {
    assert (p * q) * v == p * (q * v);
    DivAddMul(a0, p, q * v);
    Regroup(v, p, q, v / p, v % p);
  }

  /** One induction step of BitShiftValue, on numbers: r0 and rv are the low limb and the rest of the result. */
  lemma {:induction false} BitShiftStep(a0: nat, v: nat, r0: nat, rv: nat, p: nat, q: nat)
    requires p > 0 && q > 0 && p * q == BASE
    requires r0 == a0 / p + (v % p) * q && rv == v / p
    ensures r0 + BASE * rv == (a0 + BASE * v) / p
  {
    ShiftArith(a0, v, p, q);
  }

  /** Below p = 2^bitshift, a value agrees with its lowest limb. */
  lemma {:induction false} LowBitsOfValue(s: seq<Word>, p: nat, q: nat)
    requires p > 0 && q > 0 && p * q == BASE
    ensures Value(s) % p == if s == [] then 0 else s[0] % p
  {
    if s != [] {
      var hi := Value(s[1..]);
      assert BASE * hi == p * (q * hi);
      DivAddMul(s[0], p, q * hi);
    }
  }

  /** Phase two of the limbs above the lowest is phase two of the lowest-dropped limbs. */
  lemma {:induction false} BitShiftTail(a: seq<Word>, bs: nat)
    requires 0 < bs < WORD_BITS && a != []
    ensures BitShift(a, bs)[1..] == BitShift(a[1..], bs)
  {
    var r, t := BitShift(a, bs)[1..], BitShift(a[1..], bs);
    forall k | 0 <= k < |t|
      ensures r[k] == t[k]
    {
      assert r[k] == BitShiftLimb(a, bs, k + 1);
      assert t[k] == BitShiftLimb(a[1..], bs, k);
    }
  }

  /** The lowest limb after phase two: the low limb shifted, topped up with the low bits of the rest. */
  lemma {:induction false} BitShiftHead(a: seq<Word>, bs: nat)
    requires 0 < bs < WORD_BITS && a != []
    ensures BitShift(a, bs)[0] == a[0] / Pow2(bs) + (Value(a[1..]) % Pow2(bs)) * Pow2(WORD_BITS - bs)
  {
    var p, q, rest := Pow2(bs), Pow2(WORD_BITS - bs), a[1..];
    SplitBase(bs);
    BitShiftLimbValue(a, bs, 0);
    LowBitsOfValue(rest, p, q);
    assert rest != [] ==> rest[0] == a[1];
  }

  /** The value of a phase-two result from its lowest limb and the limbs above. */
  lemma {:induction false} BitShiftCombine(a: seq<Word>, r: seq<Word>, bs: nat)
    requires 0 < bs < WORD_BITS && a != [] && |r| == |a|
    requires r[0] == a[0] / Pow2(bs) + (Value(a[1..]) % Pow2(bs)) * Pow2(WORD_BITS - bs)
    requires Value(r[1..]) == Value(a[1..]) / Pow2(bs)
    ensures Value(r) == Value(a) / Pow2(bs)
  {
    SplitBase(bs);
    var v, rv := Value(a[1..]), Value(r[1..]);
    assert Value(r) == r[0] + BASE * rv;
    assert Value(a) == a[0] + BASE * v;
    BitShiftStep(a[0], v, r[0], rv, Pow2(bs), Pow2(WORD_BITS - bs));
  }

  /** One induction step of BitShiftValue: from the limbs above the lowest to all of them. */
  lemma {:induction false} BitShiftValueStep(a: seq<Word>, bs: nat)
    requires 0 < bs < WORD_BITS && a != []
    requires Value(BitShift(a[1..], bs)) == Value(a[1..]) / Pow2(bs)
    ensures Value(BitShift(a, bs)) == Value(a) / Pow2(bs)
  {
    BitShiftTail(a, bs);
    BitShiftHead(a, bs);
    BitShiftCombine(a, BitShift(a, bs), bs);
  }

  lemma {:induction false} BitShiftValue(a: seq<Word>, bs: nat)
    requires 0 < bs < WORD_BITS
    ensures Value(BitShift(a, bs)) == Value(a) / Pow2(bs)
  {
    if a != [] {
      BitShiftValue(a[1..], bs);
      BitShiftValueStep(a, bs);
    } else {
      DivModUnique(0, Pow2(bs), 0, 0);
    }
  }

  // ---------------------------------------------------------------------
  // The whole shift.

  /** Where the copy stays inside the array, `a >> shift` is `a / 2^shift`. */
  lemma {:induction false} ShiftValue(a: seq<Word>, shift: nat)
    requires shift / WORD_BITS <= |a|
    ensures Value(ShiftLimbs(a, shift)) == Value(a) / Pow2(shift)
  {
    var e, bs := shift / WORD_BITS, shift % WORD_BITS;
    var mid := PhaseOne(a, e);
    BasePowIsPow2(e);
    if e != 0 {
      LimbShiftValue(a, e);
    }
    assert Value(mid) == Value(a) / Pow2(WORD_BITS * e);
    Pow2Add(WORD_BITS * e, bs);
    if bs != 0 {
      BitShiftValue(mid, bs);
      DivDiv(Value(a), Pow2(WORD_BITS * e), Pow2(bs));
    }
  }

  /** Shifting by the full capacity, 64 * ARR_SIZE bits, gives zero. */
  lemma {:induction false} ShiftAllOut(a: seq<Word>)
    ensures ShiftLimbs(a, WORD_BITS * |a|) == Zeros(|a|)
  {
    assert (WORD_BITS * |a|) / WORD_BITS == |a|;
    assert (WORD_BITS * |a|) % WORD_BITS == 0;
  }

  /** `max >> 64k` keeps n - k all-ones limbs at the bottom: the widened narrower maximum. */
  lemma {:induction false} ShiftMaxWholeLimbs(n: nat, k: nat)
    requires k <= n
    ensures ShiftLimbs(MaxLimbs(n), WORD_BITS * k) == WidenArray(MaxLimbs(n - k), n)
  {
    assert (WORD_BITS * k) / WORD_BITS == k;
    assert (WORD_BITS * k) % WORD_BITS == 0;
  }

  /** Shifting a zero limb either way gives zero. */
  lemma {:induction false} ShiftZero(k: nat)
    requires k < WORD_BITS
    ensures ShiftLeft(0, k) == 0 && ShiftRight(0, k) == 0
  {
  }

  lemma {:induction false} WordLimbsAt(w: Word, n: nat, k: nat)
    requires n >= 1 && k < n
    ensures |WordLimbs(w, n)| == n
    ensures WordLimbs(w, n)[k] == if k == 0 then w else 0
  {
  }

  /** Limb k of phase two on a single-word value. */
  lemma {:induction false} BitShiftLimbOfWord(w: Word, n: nat, bs: nat, k: nat)
    requires n >= 1 && 0 < bs < WORD_BITS && k < n
    ensures BitShiftLimb(WordLimbs(w, n), bs, k) == if k == 0 then ShiftRight(w, bs) else 0
  {
    var a := WordLimbs(w, n);
    WordLimbsAt(w, n, k);
    ShiftZero(bs);
    ShiftZero(WORD_BITS - bs);
    var carry := if k + 1 < n then ShiftLeft(a[k + 1], WORD_BITS - bs) else 0;
    if k + 1 < n {
      WordLimbsAt(w, n, k + 1);
    }
    assert carry == 0;
    assert BitOr(ShiftRight(a[k], bs), 0) == ShiftRight(a[k], bs);
  }

  /** Phase two of a single word: the word shifts, the zero limbs above it stay zero. */
  lemma {:induction false} BitShiftOfWord(w: Word, n: nat, bs: nat)
    requires n >= 1 && 0 < bs < WORD_BITS
    ensures BitShift(WordLimbs(w, n), bs) == WordLimbs(ShiftRight(w, bs), n)
  {
    var r, t := BitShift(WordLimbs(w, n), bs), WordLimbs(ShiftRight(w, bs), n);
    forall k | 0 <= k < n
      ensures r[k] == t[k]
    {
      BitShiftLimbOfWord(w, n, bs, k);
      WordLimbsAt(ShiftRight(w, bs), n, k);
    }
  }

  /** A shift of 64e + bs bits moves e whole limbs and then bs bits. */
  lemma {:induction false} ShiftSplits(e: nat, bs: nat)
    requires bs < WORD_BITS
    ensures (WORD_BITS * e + bs) / WORD_BITS == e && (WORD_BITS * e + bs) % WORD_BITS == bs
  {
    DivModUnique(WORD_BITS * e + bs, WORD_BITS, e, bs);
  }

  lemma {:induction false} ShiftWholeAndBits(a: seq<Word>, e: nat, bs: nat)
    requires e <= |a| && 0 < bs < WORD_BITS
    ensures ShiftLimbs(a, WORD_BITS * e + bs) == BitShift(PhaseOne(a, e), bs)
  {
    ShiftSplits(e, bs);
  }

  lemma {:induction false} ShiftWholeOnly(a: seq<Word>, e: nat, bs: nat)
    requires e <= |a| && bs == 0
    ensures ShiftLimbs(a, WORD_BITS * e + bs) == PhaseOne(a, e)
  {
    ShiftSplits(e, bs);
  }

  /** The whole shift, from what each phase leaves. */
  lemma {:induction false} ShiftThrough(a: seq<Word>, e: nat, bs: nat, mid: seq<Word>, r: seq<Word>)
    requires e <= |a| && 0 < bs < WORD_BITS
    requires PhaseOne(a, e) == mid && BitShift(mid, bs) == r
    ensures ShiftLimbs(a, WORD_BITS * e + bs) == r
  {
    ShiftWholeAndBits(a, e, bs);
  }

  /** Phase one of `max >> 64(n - 1)`: only the top all-ones limb is left, now at the bottom. */
  lemma {:induction false} MaxLimbShiftToWord(n: nat)
    requires n >= 1
    ensures PhaseOne(MaxLimbs(n), n - 1) == WordLimbs(MAX_WORD, n)
  {
    if n - 1 != 0 {
      var r := LimbShift(MaxLimbs(n), n - 1);
      forall k | 0 <= k < n
        ensures r[k] == WordLimbs(MAX_WORD, n)[k]
      {
      }
    } else {
      assert MaxLimbs(n) == [MAX_WORD];
    }
  }

  /** `max >> (64 * (n - 1) + i)` is the single word `size_t max >> i`. */
  lemma {:induction false} ShiftMaxTopLimb(n: nat, i: nat)
    requires n >= 1 && i < WORD_BITS
    ensures ShiftLimbs(MaxLimbs(n), WORD_BITS * (n - 1) + i) == WordLimbs(ShiftRight(MAX_WORD, i), n)
  {
    if i != 0 {
      ShiftMaxTopBits(n, i);
    } else {
      ShiftMaxTopWord(n, i);
    }
  }

  lemma {:induction false} ShiftMaxTopBits(n: nat, i: nat)
    requires n >= 1 && 0 < i < WORD_BITS
    ensures ShiftLimbs(MaxLimbs(n), WORD_BITS * (n - 1) + i) == WordLimbs(ShiftRight(MAX_WORD, i), n)
  {
    MaxLimbShiftToWord(n);
    BitShiftOfWord(MAX_WORD, n, i);
    ShiftThrough(MaxLimbs(n), n - 1, i, WordLimbs(MAX_WORD, n), WordLimbs(ShiftRight(MAX_WORD, i), n));
  }

  lemma {:induction false} ShiftMaxTopWord(n: nat, i: nat)
    requires n >= 1 && i == 0
    ensures ShiftLimbs(MaxLimbs(n), WORD_BITS * (n - 1) + i) == WordLimbs(ShiftRight(MAX_WORD, i), n)
  {
    ShiftWholeOnly(MaxLimbs(n), n - 1, i);
    MaxLimbShiftToWord(n);
    ShiftRightZero(MAX_WORD, i);
  }

  lemma {:induction false} ShiftRightZero(x: Word, k: nat)
    requires k == 0
    ensures ShiftRight(x, k) == x
  {
  }
}
