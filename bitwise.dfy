/**
 * `operator&=` and `operator&`: limb-wise AND, with no interaction between limbs.
 */
module Bitwise {
  import opened Words
  import opened Limbs

  /** The limbs of `a &= b`. */
  function AndLimbs(a: seq<Word>, b: seq<Word>): (r: seq<Word>)
    requires |a| == |b|
    ensures |r| == |a|
  {
    seq(|a|, i requires 0 <= i < |a| => WordAnd(a[i], b[i]))
  }

  /** `a & a == a`. */
  lemma {:induction false} AndIdempotent(a: seq<Word>)
    ensures AndLimbs(a, a) == a
  {
    forall i | 0 <= i < |a|
      ensures AndLimbs(a, a)[i] == a[i]
    {
      BitAndIdempotent(a[i]);
    }
  }

  lemma {:induction false} AndCommutes(a: seq<Word>, b: seq<Word>)
    requires |a| == |b|
    ensures AndLimbs(a, b) == AndLimbs(b, a)
  {
    forall i | 0 <= i < |a|
      ensures AndLimbs(a, b)[i] == AndLimbs(b, a)[i]
    {
      BitAndCommutes(a[i], b[i]);
    }
  }

  /** `a & max() == a`: the all-ones limbs are the identity of AND. */
  lemma {:induction false} AndWithMax(a: seq<Word>)
    ensures AndLimbs(a, MaxLimbs(|a|)) == a
  {
    Pow2Word();
    forall i | 0 <= i < |a|
      ensures AndLimbs(a, MaxLimbs(|a|))[i] == a[i]
    {
      BitAndAllOnes(a[i], WORD_BITS);
    }
  }

  /** The AND of two values is at most either of them. */
  lemma {:induction false} AndBelowOperands(a: seq<Word>, b: seq<Word>)
    requires |a| == |b|
    ensures Value(AndLimbs(a, b)) <= Value(a)
    ensures Value(AndLimbs(a, b)) <= Value(b)
  {
    ValueMonotone(AndLimbs(a, b), a);
    ValueMonotone(AndLimbs(a, b), b);
  }
}
