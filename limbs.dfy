/**
 * The limb array of a static_uint as a number. `data[0]` is the least
 * significant limb, so the limbs `s` stand for
 * Value(s) = s[0] + s[1] * 2^64 + s[2] * 2^128 + ...
 */
module Limbs {
  import opened Words

  /** 2^(64 * k), the weight of limb k. */
  function BasePow(k: nat): (r: nat)
    ensures r >= 1
  {
    if k == 0 then 1 else BASE * BasePow(k - 1)
  }

  function Value(s: seq<Word>): nat
  {
    if s == [] then 0 else s[0] + BASE * Value(s[1..])
  }

  /** The limbs of a value-initialised static_uint. */
  function Zeros(n: nat): (r: seq<Word>)
  {
    seq(n, _ => 0)
  }

  /** The limbs `data{in}` builds: the word in `data[0]`, zero in every other limb. */
  function WordLimbs(w: Word, n: nat): (r: seq<Word>)
    requires n >= 1
  {
    [w] + Zeros(n - 1)
  }

  /** The limbs of `numeric_limits<static_uint>::max()`: every limb all-ones. */
  function MaxLimbs(n: nat): (r: seq<Word>)
  {
    seq(n, _ => MAX_WORD)
  }

  lemma {:induction false} ValueBound(s: seq<Word>)
    ensures Value(s) < BasePow(|s|)
  {
    if s != [] {
      ValueBound(s[1..]);
    }
  }

  /** BASE * (v + p * t) == BASE * v + (BASE * p) * t. */
  lemma WeightStep(v: nat, p: nat, t: nat)
    ensures BASE * (v + p * t) == BASE * v + (BASE * p) * t
  {
  }

  lemma {:induction false} ValueAppend(s: seq<Word>, t: seq<Word>)
    ensures Value(s + t) == Value(s) + BasePow(|s|) * Value(t)
  {
    if s == [] {
      assert s + t == t;
    } else {
      assert (s + t)[1..] == s[1..] + t;
      assert (s + t)[0] == s[0];
      ValueAppend(s[1..], t);
      WeightStep(Value(s[1..]), BasePow(|s| - 1), Value(t));
    }
  }

  /** The limbs from k up are the value divided by 2^(64 * k); the limbs below are the remainder. */
  lemma {:induction false} ValueAboveLimb(s: seq<Word>, k: nat)
    requires k <= |s|
    ensures Value(s) / BasePow(k) == Value(s[k..])
    ensures Value(s) % BasePow(k) == Value(s[..k])
  {
    var lo, hi, p := Value(s[..k]), Value(s[k..]), BasePow(k);
    ValueSplit(s, k);
    ValueBound(s[..k]);
    assert p * hi == hi * p;
    DivModUnique(Value(s), p, hi, lo);
  }

  lemma {:induction false} ValueSplit(s: seq<Word>, k: nat)
    requires k <= |s|
    ensures Value(s) == Value(s[..k]) + BasePow(k) * Value(s[k..])
  {
    assert s == s[..k] + s[k..];
    ValueAppend(s[..k], s[k..]);
  }

  /** Value of limbs extended by one more significant limb. */
  lemma {:induction false} ValueSnoc(s: seq<Word>, x: Word)
    ensures Value(s + [x]) == Value(s) + x * BasePow(|s|)
  {
    ValueAppend(s, [x]);
    assert Value([x]) == x + BASE * Value([]);
  }

  lemma {:induction false} ValueZeros(n: nat)
    ensures Value(Zeros(n)) == 0
  {
    if n > 0 {
      assert Zeros(n)[1..] == Zeros(n - 1);
      ValueZeros(n - 1);
    }
  }

  /** High zero limbs add nothing to the value. */
  lemma {:induction false} ValueZeroExtend(s: seq<Word>, k: nat)
    ensures Value(s + Zeros(k)) == Value(s)
  {
    ValueAppend(s, Zeros(k));
    ValueZeros(k);
  }

  /** The word constructor: `static_uint{in} == in`. */
  lemma {:induction false} WordValue(w: Word, n: nat)
    requires n >= 1
    ensures |WordLimbs(w, n)| == n
    ensures Value(WordLimbs(w, n)) == w
  {
    ValueAppend([w], Zeros(n - 1));
    ValueZeros(n - 1);
    assert Value([w]) == w + BASE * Value([]);
  }

  /** `max()` is 2^(64 * ARR_SIZE) - 1. */
  lemma {:induction false} MaxValue(n: nat)
    ensures Value(MaxLimbs(n)) == BasePow(n) - 1
  {
    if n > 0 {
      assert MaxLimbs(n)[1..] == MaxLimbs(n - 1);
      MaxValue(n - 1);
    }
  }

  /** No limb array of the same length stands for more than `max()`. */
  lemma {:induction false} MaxIsGreatest(s: seq<Word>)
    ensures Value(s) <= Value(MaxLimbs(|s|))
  {
    ValueBound(s);
    MaxValue(|s|);
  }

  /** Limb-wise smaller limbs make a smaller value. */
  lemma {:induction false} ValueMonotone(s: seq<Word>, t: seq<Word>)
    requires |s| == |t|
    requires forall i | 0 <= i < |s| :: s[i] <= t[i]
    ensures Value(s) <= Value(t)
  {
    if s != [] {
      ValueMonotone(s[1..], t[1..]);
    }
  }

  /** Each further limb multiplies the weight by 2^64, so the weights grow strictly. */
  lemma {:induction false} BasePowGrows(a: nat, b: nat)
    requires a < b
    ensures BasePow(a) < BasePow(b)
  {
    if a < b - 1 {
      BasePowGrows(a, b - 1);
    }
  }

  lemma {:induction false} BasePowIsPow2(k: nat)
    ensures BasePow(k) == Pow2(WORD_BITS * k)
  {
    if k > 0 {
      BasePowIsPow2(k - 1);
      Pow2Add(WORD_BITS, WORD_BITS * (k - 1));
      Pow2Word();
    }
  }
}
