/**
 * Ripple-carry addition as `operator+=` performs it. Step i adds
 * `other.data[i] + (overflow ? 1 : 0)` to `data[i]`, both additions wrapping
 * modulo 2^64, then sets `overflow = data[i] < other.data[i]`.
 *
 * That carry rule misses one case: when the carry in is set and
 * `data[i] == 2^64 - 1`, the new limb equals `other.data[i]`, so no carry goes
 * out although the limb sum overflowed. The code as written is modelled by
 * AddLimbs; AddLimbsIntended uses the rule that also carries in that case.
 */
module Addition {
  import opened Words
  import opened Limbs

  /** One step of the loop: `data[i] += other.data[i] + (carry ? 1 : 0)`. */
  function LimbStep(x: Word, y: Word, carry: bool): Word
  {
    (x + (y + (if carry then 1 else 0)) % BASE) % BASE
  }

  /** The `overflow` flag on entry to step i, as the code computes it. */
  function CarryIn(a: seq<Word>, b: seq<Word>, i: nat): bool
    requires |a| == |b| && i <= |a|
  {
    i > 0 && LimbStep(a[i - 1], b[i - 1], CarryIn(a, b, i - 1)) < b[i - 1]
  }

  /** Limb i after `a += b`. */
  function SumLimb(a: seq<Word>, b: seq<Word>, i: nat): Word
    requires |a| == |b| && i < |a|
  {
    LimbStep(a[i], b[i], CarryIn(a, b, i))
  }

  /** The limbs of `a += b` (and of `a + b`) as the code computes them. */
  function AddLimbs(a: seq<Word>, b: seq<Word>): (r: seq<Word>)
    requires |a| == |b|
    ensures |r| == |a|
  {
    seq(|a|, i requires 0 <= i < |a| => SumLimb(a, b, i))
  }

  /**
   * No carry is lost below the top limb: no step other than the last meets a
   * set carry with an all-ones lhs limb. (A carry lost out of the top limb is
   * dropped by the wrap-around anyway.)
   */
  ghost predicate NoLostCarry(a: seq<Word>, b: seq<Word>)
    requires |a| == |b|
  {
    forall k | 0 <= k < |a| - 1 :: !(CarryIn(a, b, k) && a[k] == MAX_WORD)
  }

  // ---------------------------------------------------------------------
  // One limb.

  /** Outside the lost case, `s < y` is exactly the carry out of x + y + carry. */
  lemma {:induction false} LimbStepCarry(x: Word, y: Word, carry: bool)
    requires !(carry && x == MAX_WORD)
    ensures var s := LimbStep(x, y, carry);
      s + (if s < y then BASE else 0) == x + y + (if carry then 1 else 0)
  {
  }

  /** The step wraps at most once. */
  lemma {:induction false} LimbStepWraps(x: Word, y: Word, carry: bool)
    ensures var s, c := LimbStep(x, y, carry), if carry then 1 else 0;
      s == x + y + c || s + BASE == x + y + c
  {
  }

  /** The arithmetic of one accumulation step, with the carries as 0 or 1 and p the weight of the new limb. */
  lemma {:induction false} AccumulateArith(vr: int, va: int, vb: int, s: int, x: int, y: int, ci: int, co: int, p: int)
    requires vr + ci * p == va + vb
    requires s + co * BASE == x + y + ci
    ensures (vr + s * p) + co * (BASE * p) == (va + x * p) + (vb + y * p)
  {
    assert (s + co * BASE) * p == (x + y + ci) * p;
  }

  /** Appending one limb to a partial sum that is exact up to its carry keeps it exact. */
  lemma {:induction false} AccumulateLimb(r: seq<Word>, a: seq<Word>, b: seq<Word>, s: Word, x: Word, y: Word,
                       cin: bool, cout: bool)
    requires |r| == |a| == |b|
    requires Value(r) + (if cin then BasePow(|a|) else 0) == Value(a) + Value(b)
    requires s + (if cout then BASE else 0) == x + y + (if cin then 1 else 0)
    ensures Value(r + [s]) + (if cout then BasePow(|a| + 1) else 0) == Value(a + [x]) + Value(b + [y])
  {
    var p := BasePow(|a|);
    ValueSnoc(r, s);
    ValueSnoc(a, x);
    ValueSnoc(b, y);
    AccumulateArith(Value(r), Value(a), Value(b), s, x, y,
                    if cin then 1 else 0, if cout then 1 else 0, p);
  }

  /** A last limb that wraps at most once gives the sum modulo the capacity. */
  lemma {:induction false} TopLimbModular(r: seq<Word>, a: seq<Word>, b: seq<Word>, s: Word, x: Word, y: Word, cin: bool)
    requires |r| == |a| == |b|
    requires Value(r) + (if cin then BasePow(|a|) else 0) == Value(a) + Value(b)
    requires var c := if cin then 1 else 0; s == x + y + c || s + BASE == x + y + c
    ensures Value(r + [s]) == (Value(a + [x]) + Value(b + [y])) % BasePow(|a| + 1)
  {
    var wrap := s != x + y + (if cin then 1 else 0);
    AccumulateLimb(r, a, b, s, x, y, cin, wrap);
    var rs := r + [s];
    ValueBound(rs);
    var w := if wrap then 1 else 0;
    var total, m, v := Value(a + [x]) + Value(b + [y]), BasePow(|a| + 1), Value(rs);
    assert total == w * m + v;
    DivModUnique(total, m, w, v);
  }

  /** AccumulateLimb on the prefixes of length i - 1 and i of three limb arrays. */
  lemma {:induction false} PrefixStep(r: seq<Word>, a: seq<Word>, b: seq<Word>, i: nat, cin: bool, cout: bool)
    requires |r| == |a| == |b| && 0 < i <= |a|
    requires Value(r[..i - 1]) + (if cin then BasePow(i - 1) else 0) == Value(a[..i - 1]) + Value(b[..i - 1])
    requires r[i - 1] as int + (if cout then BASE else 0) == a[i - 1] as int + b[i - 1] + (if cin then 1 else 0)
    ensures Value(r[..i]) + (if cout then BasePow(i) else 0) == Value(a[..i]) + Value(b[..i])
  {
    assert r[..i] == r[..i - 1] + [r[i - 1]];
    assert a[..i] == a[..i - 1] + [a[i - 1]];
    assert b[..i] == b[..i - 1] + [b[i - 1]];
    AccumulateLimb(r[..i - 1], a[..i - 1], b[..i - 1], r[i - 1], a[i - 1], b[i - 1], cin, cout);
  }

  /** WholeModular with the top limb computed by one step of the loop. */
  lemma {:induction false} TopStepModular(r: seq<Word>, a: seq<Word>, b: seq<Word>, cin: bool)
    requires |r| == |a| == |b| > 0
    requires var n := |a|;
      Value(r[..n - 1]) + (if cin then BasePow(n - 1) else 0) == Value(a[..n - 1]) + Value(b[..n - 1])
    requires r[|a| - 1] == LimbStep(a[|a| - 1], b[|a| - 1], cin)
    ensures Value(r) == (Value(a) + Value(b)) % BasePow(|a|)
  {
    var n := |a|;
    LimbStepWraps(a[n - 1], b[n - 1], cin);
    WholeModular(r, a, b, cin);
  }

  /** TopLimbModular on whole limb arrays: exact below the top limb, which wraps at most once. */
  lemma {:induction false} WholeModular(r: seq<Word>, a: seq<Word>, b: seq<Word>, cin: bool)
    requires |r| == |a| == |b| > 0
    requires var n := |a|;
      Value(r[..n - 1]) + (if cin then BasePow(n - 1) else 0) == Value(a[..n - 1]) + Value(b[..n - 1])
    requires var n, c := |a|, if cin then 1 else 0;
      r[n - 1] as int == a[n - 1] as int + b[n - 1] + c || r[n - 1] as int + BASE == a[n - 1] as int + b[n - 1] + c
    ensures Value(r) == (Value(a) + Value(b)) % BasePow(|a|)
  {
    var n := |a|;
    assert r == r[..n - 1] + [r[n - 1]];
    assert a == a[..n - 1] + [a[n - 1]];
    assert b == b[..n - 1] + [b[n - 1]];
    TopLimbModular(r[..n - 1], a[..n - 1], b[..n - 1], r[n - 1], a[n - 1], b[n - 1], cin);
  }

  // ---------------------------------------------------------------------
  // The code as written.

  lemma {:induction false} AddPrefix(a: seq<Word>, b: seq<Word>, i: nat)
    requires |a| == |b| && i <= |a|
    requires forall k | 0 <= k < i :: !(CarryIn(a, b, k) && a[k] == MAX_WORD)
    ensures Value(AddLimbs(a, b)[..i]) + (if CarryIn(a, b, i) then BasePow(i) else 0)
            == Value(a[..i]) + Value(b[..i])
  {
    if i > 0 {
      AddPrefix(a, b, i - 1);
      LimbStepCarry(a[i - 1], b[i - 1], CarryIn(a, b, i - 1));
      PrefixStep(AddLimbs(a, b), a, b, i, CarryIn(a, b, i - 1), CarryIn(a, b, i));
    }
  }

  /** Without a lost carry, `a += b` is addition modulo 2^(64 * ARR_SIZE). */
  lemma {:induction false} AddModular(a: seq<Word>, b: seq<Word>)
    requires |a| == |b| && NoLostCarry(a, b)
    ensures Value(AddLimbs(a, b)) == (Value(a) + Value(b)) % BasePow(|a|)
  {
    var n := |a|;
    if n > 0 {
      AddPrefix(a, b, n - 1);
      TopStepModular(AddLimbs(a, b), a, b, CarryIn(a, b, n - 1));
    }
  }

  /** With at most two limbs no carry can be lost: 128-bit addition is always exact modulo 2^128. */
  lemma {:induction false} AddUpToTwoLimbs(a: seq<Word>, b: seq<Word>)
    requires |a| == |b| <= 2
    ensures Value(AddLimbs(a, b)) == (Value(a) + Value(b)) % BasePow(|a|)
  {
    AddModular(a, b);
  }

  /** `size_t max + 1` at 128 bits: the low limb wraps to 0 and the carry reaches the high limb. */
  lemma {:induction false} AddWordMaxPlusOne()
    ensures AddLimbs(WordLimbs(MAX_WORD, 2), WordLimbs(1, 2)) == [0, 1]
  {
    var a, b := WordLimbs(MAX_WORD, 2), WordLimbs(1, 2);
    assert a == [MAX_WORD, 0] && b == [1, 0];
    assert CarryIn(a, b, 1);
  }

  /** `size_t max + size_t max` at 128 bits: high limb 1, low limb `max * 2` wrapped. */
  lemma {:induction false} AddWordMaxTwice()
    ensures AddLimbs(WordLimbs(MAX_WORD, 2), WordLimbs(MAX_WORD, 2)) == [(MAX_WORD * 2) % BASE, 1]
  {
    var a := WordLimbs(MAX_WORD, 2);
    assert a == [MAX_WORD, 0];
    assert CarryIn(a, a, 1);
  }

  /**
   * A lost carry at 192 bits: (2^128 - 1) + 1 gives 0 instead of 2^128,
   * because step 1 meets a set carry with an all-ones limb.
   */
  lemma LostCarryExample()
    ensures AddLimbs([MAX_WORD, MAX_WORD, 0], [1, 0, 0]) == [0, 0, 0]
    ensures (Value([MAX_WORD, MAX_WORD, 0]) + Value([1, 0, 0])) % BasePow(3) == BasePow(2)
    ensures !NoLostCarry([MAX_WORD, MAX_WORD, 0], [1, 0, 0])
  {
    var a, b: seq<Word> := [MAX_WORD, MAX_WORD, 0], [1, 0, 0];
    assert CarryIn(a, b, 1);
    assert !CarryIn(a, b, 2);
    assert Value(a) == BasePow(2) - 1 by {
      var top: seq<Word> := [0];
      assert Value(top) == 0 by { assert top[1..] == []; }
      assert Value([MAX_WORD] + top) == MAX_WORD by { assert ([MAX_WORD] + top)[1..] == top; }
      assert a[1..] == [MAX_WORD] + top;
    }
    assert Value(b) == 1 by {
      var top: seq<Word> := [0];
      assert Value(top) == 0 by { assert top[1..] == []; }
      assert Value([0] + top) == 0 by { assert ([0] + top)[1..] == top; }
      assert b[1..] == [0] + top;
    }
    DivModUnique(BasePow(2), BasePow(3), 0, BasePow(2));
  }

  /**
   * The same operands the other way round: `[1, 0, 0] += [max, max, 0]`
   * loses no carry and gives `[0, 0, 1]`, so `+` as written is not
   * commutative (LostCarryExample gives `[0, 0, 0]`).
   */
  lemma LostCarryNotCommutative()
    ensures AddLimbs([1, 0, 0], [MAX_WORD, MAX_WORD, 0]) == [0, 0, 1]
    ensures AddLimbs([1, 0, 0], [MAX_WORD, MAX_WORD, 0]) != AddLimbs([MAX_WORD, MAX_WORD, 0], [1, 0, 0])
  {
    var a, b: seq<Word> := [1, 0, 0], [MAX_WORD, MAX_WORD, 0];
    assert CarryIn(a, b, 1);
    assert CarryIn(a, b, 2);
    LostCarryExample();
  }

  // ---------------------------------------------------------------------
  // The evidently intended carry rule: also carry when the carry in was set
  // and the new limb equals `other.data[i]`.

  function CarryInIntended(a: seq<Word>, b: seq<Word>, i: nat): bool
    requires |a| == |b| && i <= |a|
  {
    i > 0 &&
    var c := CarryInIntended(a, b, i - 1);
    var s := LimbStep(a[i - 1], b[i - 1], c);
    s < b[i - 1] || (c && s == b[i - 1])
  }

  function SumLimbIntended(a: seq<Word>, b: seq<Word>, i: nat): Word
    requires |a| == |b| && i < |a|
  {
    LimbStep(a[i], b[i], CarryInIntended(a, b, i))
  }

  function AddLimbsIntended(a: seq<Word>, b: seq<Word>): (r: seq<Word>)
    requires |a| == |b|
    ensures |r| == |a|
  {
    seq(|a|, i requires 0 <= i < |a| => SumLimbIntended(a, b, i))
  }

  lemma {:induction false} LimbStepCarryIntended(x: Word, y: Word, carry: bool)
    ensures var s := LimbStep(x, y, carry);
      s + (if s < y || (carry && s == y) then BASE else 0) == x + y + (if carry then 1 else 0)
  {
  }

  lemma {:induction false} AddPrefixIntended(a: seq<Word>, b: seq<Word>, i: nat)
    requires |a| == |b| && i <= |a|
    ensures Value(AddLimbsIntended(a, b)[..i]) + (if CarryInIntended(a, b, i) then BasePow(i) else 0)
            == Value(a[..i]) + Value(b[..i])
  {
    if i > 0 {
      AddPrefixIntended(a, b, i - 1);
      LimbStepCarryIntended(a[i - 1], b[i - 1], CarryInIntended(a, b, i - 1));
      PrefixStep(AddLimbsIntended(a, b), a, b, i, CarryInIntended(a, b, i - 1), CarryInIntended(a, b, i));
    }
  }

  /** With the intended carry rule addition wraps modulo 2^(64 * ARR_SIZE) for all operands. */
  lemma {:induction false} AddIntendedModular(a: seq<Word>, b: seq<Word>)
    requires |a| == |b|
    ensures Value(AddLimbsIntended(a, b)) == (Value(a) + Value(b)) % BasePow(|a|)
  {
    var n := |a|;
    if n > 0 {
      AddPrefixIntended(a, b, n - 1);
      TopStepModular(AddLimbsIntended(a, b), a, b, CarryInIntended(a, b, n - 1));
    }
  }

  /** The operands of LostCarryExample under the intended rule: the carry reaches the top limb. */
  lemma {:induction false} IntendedCarryExample()
    ensures AddLimbsIntended([MAX_WORD, MAX_WORD, 0], [1, 0, 0]) == [0, 0, 1]
  {
    var a, b: seq<Word> := [MAX_WORD, MAX_WORD, 0], [1, 0, 0];
    assert CarryInIntended(a, b, 1);
    assert CarryInIntended(a, b, 2);
  }

  /** The two rules agree whenever the code as written loses no carry. */
  lemma {:induction false} IntendedAgreesWithoutLostCarry(a: seq<Word>, b: seq<Word>)
    requires |a| == |b| && NoLostCarry(a, b)
    ensures AddLimbsIntended(a, b) == AddLimbs(a, b)
  {
    forall i | 0 <= i < |a|
      ensures CarryInIntended(a, b, i) == CarryIn(a, b, i)
    {
      CarriesAgree(a, b, i);
    }
  }

  lemma {:induction false} CarriesAgree(a: seq<Word>, b: seq<Word>, i: nat)
    requires |a| == |b| && i < |a| && NoLostCarry(a, b)
    ensures CarryInIntended(a, b, i) == CarryIn(a, b, i)
  {
    if i > 0 {
      CarriesAgree(a, b, i - 1);
      assert !(CarryIn(a, b, i - 1) && a[i - 1] == MAX_WORD);
    }
  }
}
