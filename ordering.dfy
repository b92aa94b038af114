/**
 * `compare` and the six relational operators of static_uint, on the limb
 * arrays of the two operands (both of the same width).
 */
module Ordering {
  import opened Words
  import opened Limbs

  function Sign(x: int): int
  {
    if x > 0 then 1 else if x < 0 then -1 else 0
  }

  /** Digits below p: a larger top digit outweighs anything in the lower part. */
  lemma {:induction false} TopDigitDecides(lowA: nat, lowB: nat, x: nat, y: nat, p: nat)
    requires lowA < p && lowB < p && x > y
    ensures lowA + x * p > lowB + y * p
  {
    MulAtLeast(p, x - y);
    assert x * p - y * p == p * (x - y);
  }

  /** Appending a higher limb: a larger top limb decides, an equal one defers to the rest. */
  lemma {:induction false} TopLimbDecides(a: seq<Word>, b: seq<Word>, x: Word, y: Word)
    requires |a| == |b|
    ensures x > y ==> Value(a + [x]) > Value(b + [y])
    ensures x < y ==> Value(a + [x]) < Value(b + [y])
    ensures x == y ==> Value(a + [x]) - Value(b + [y]) == Value(a) - Value(b)
  {
    var p := BasePow(|a|);
    ValueSnoc(a, x);
    ValueSnoc(b, y);
    ValueBound(a);
    ValueBound(b);
    if x > y {
      TopDigitDecides(Value(a), Value(b), x, y, p);
    } else if x < y {
      TopDigitDecides(Value(b), Value(a), y, x, p);
    }
  }

  /**
   * The loop of `compare` with limbs `i - 1` down to `0` still to look at:
   * the first limb from the top where the operands differ decides.
   */
  function CompareFrom(lhs: seq<Word>, rhs: seq<Word>, i: nat): (r: int)
    requires |lhs| == |rhs| && i <= |lhs|
    ensures r == Sign(Value(lhs[..i]) - Value(rhs[..i]))
    ensures r == 0 <==> lhs[..i] == rhs[..i]
  {
    if i == 0 then 0
    else
      assert lhs[..i] == lhs[..i - 1] + [lhs[i - 1]];
      assert rhs[..i] == rhs[..i - 1] + [rhs[i - 1]];
      TopLimbDecides(lhs[..i - 1], rhs[..i - 1], lhs[i - 1], rhs[i - 1]);
      if lhs[i - 1] > rhs[i - 1] then 1
      else if lhs[i - 1] < rhs[i - 1] then -1
      else CompareFrom(lhs, rhs, i - 1)
  }

  /** `compare(lhs, rhs)`: the sign of the difference of the values; zero exactly for equal limbs. */
  function Compare(lhs: seq<Word>, rhs: seq<Word>): (r: int)
    requires |lhs| == |rhs|
    ensures r == Sign(Value(lhs) - Value(rhs))
    ensures r == 0 <==> lhs == rhs
  {
    assert lhs[..|lhs|] == lhs && rhs[..|rhs|] == rhs;
    CompareFrom(lhs, rhs, |lhs|)
  }

  /** `operator==` */
  function Equal(lhs: seq<Word>, rhs: seq<Word>): (r: bool)
    requires |lhs| == |rhs|
    ensures r <==> lhs == rhs
    ensures r <==> Value(lhs) == Value(rhs)
  {
    Compare(lhs, rhs) == 0
  }

  /** `operator!=` */
  function NotEqual(lhs: seq<Word>, rhs: seq<Word>): (r: bool)
    requires |lhs| == |rhs|
    ensures r <==> lhs != rhs
    ensures r <==> Value(lhs) != Value(rhs)
  {
    Compare(lhs, rhs) != 0
  }

  /** `operator<` */
  function Less(lhs: seq<Word>, rhs: seq<Word>): (r: bool)
    requires |lhs| == |rhs|
    ensures r <==> Value(lhs) < Value(rhs)
  {
    Compare(lhs, rhs) < 0
  }

  /** `operator<=` */
  function LessEq(lhs: seq<Word>, rhs: seq<Word>): (r: bool)
    requires |lhs| == |rhs|
    ensures r <==> Value(lhs) <= Value(rhs)
  {
    Compare(lhs, rhs) <= 0
  }

  /** `operator>` */
  function Greater(lhs: seq<Word>, rhs: seq<Word>): (r: bool)
    requires |lhs| == |rhs|
    ensures r <==> Value(lhs) > Value(rhs)
  {
    Compare(lhs, rhs) > 0
  }

  /** `operator>=` */
  function GreaterEq(lhs: seq<Word>, rhs: seq<Word>): (r: bool)
    requires |lhs| == |rhs|
    ensures r <==> Value(lhs) >= Value(rhs)
  {
    Compare(lhs, rhs) >= 0
  }

  /**
   * `compare` orders the static_uints of one width totally: it is
   * antisymmetric and transitive, and `<=` is a total order on limb arrays.
   */
  lemma {:induction false} CompareIsTotalOrder(a: seq<Word>, b: seq<Word>, c: seq<Word>)
    requires |a| == |b| == |c|
    ensures Compare(a, a) == 0
    ensures Compare(a, b) == -Compare(b, a)
    ensures Compare(a, b) <= 0 && Compare(b, c) <= 0 ==> Compare(a, c) <= 0
    ensures LessEq(a, b) && LessEq(b, a) ==> a == b
    ensures LessEq(a, b) || LessEq(b, a)
  {
    if LessEq(a, b) && LessEq(b, a) {
      assert Equal(a, b);
    }
  }

  /** Two limb arrays of one width stand for the same number only if they are equal. */
  lemma {:induction false} ValueInjective(a: seq<Word>, b: seq<Word>)
    requires |a| == |b| && Value(a) == Value(b)
    ensures a == b
  {
    assert Equal(a, b);
  }
}
