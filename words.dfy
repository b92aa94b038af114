/**
 * Machine words. One limb of a static_uint is a `std::size_t`, taken here to
 * be 64 bits wide. A limb is an integer below 2^64; the wrap-around addition,
 * the shifts, the bitwise operators and the byte addressing of the C++ code
 * are written out over integers.
 */
module Words {

  /** `CHAR_BIT`. */
  const CHAR_BIT: nat := 8
  /** `sizeof(std::size_t)`. */
  const WORD_BYTES: nat := 8
  /** `sizeof(std::size_t) * CHAR_BIT`. */
  const WORD_BITS: nat := 64
  /** 2^64: limb arithmetic wraps modulo this. */
  const BASE: nat := 0x1_0000_0000_0000_0000
  /** `std::numeric_limits<std::size_t>::max()`. */
  const MAX_WORD: nat := 0xFFFF_FFFF_FFFF_FFFF

  type Word = x: int | 0 <= x < BASE
  type Byte = x: int | 0 <= x < 256

  function Pow2(k: nat): (r: nat)
    ensures r >= 1
  {
    if k == 0 then 1 else 2 * Pow2(k - 1)
  }

  lemma {:induction false} Pow2Add(a: nat, b: nat)
    ensures Pow2(a + b) == Pow2(a) * Pow2(b)
  {
    if a > 0 {
      Pow2Add(a - 1, b);
      assert Pow2(a + b) == 2 * Pow2(a - 1 + b);
    }
  }

  lemma {:induction false} Pow2Word()
    ensures Pow2(8) == 256
    ensures Pow2(WORD_BITS) == BASE
  {
    assert Pow2(2) == 4 by {
      assert Pow2(1) == 2;
    }
    Pow2Add(2, 2);
    assert Pow2(4) == 16;
    Pow2Add(4, 4);
    assert Pow2(8) == 256;
    Pow2Add(8, 8);
    assert Pow2(16) == 0x1_0000;
    Pow2Add(16, 16);
    assert Pow2(32) == 0x1_0000_0000;
    Pow2Add(32, 32);
  }

  lemma {:induction false} Pow2Monotone(a: nat, b: nat)
    requires a <= b
    ensures Pow2(a) <= Pow2(b)
  {
    Pow2Add(a, b - a);
    MulAtLeast(Pow2(a), Pow2(b - a));
  }

  /** Pow2(8 * (m + 1)) is 256 times Pow2(8 * m): one more byte. */
  lemma {:induction false} Pow2NextByte(m: nat)
    ensures Pow2(8 * (m + 1)) == 256 * Pow2(8 * m)
  {
    Pow2Add(8, 8 * m);
    Pow2Word();
  }

  // ---------------------------------------------------------------------
  // Division facts used throughout (all on non-negative numbers).

  lemma {:induction false} MulAtLeast(x: nat, y: nat)
    requires y >= 1
    ensures x * y >= x
  {
    if y > 1 {
      MulAtLeast(x, y - 1);
      assert x * y == x * (y - 1) + x;
    }
  }

  /** The sign of m * d for m >= 0, as three implications a caller need not case-split for. */
  lemma {:induction false} MulSign(m: nat, d: int)
    ensures d >= 1 ==> m * d >= m
    ensures d == 0 ==> m * d == 0
    ensures d <= -1 ==> m * d <= -(m as int)
  {
    if d >= 1 {
      MulAtLeast(m, d);
    } else if d <= -1 {
      MulAtLeast(m, -d);
      assert m * d == -(m * -d);
    }
  }

  lemma {:induction false} DivModUnique(x: int, m: int, q: int, r: int)
    requires 0 < m && 0 <= r < m && x == q * m + r
    ensures x / m == q && x % m == r
  {
    var q2, r2 := x / m, x % m;
    assert m * (q2 - q) == r - r2;
    MulSign(m, q2 - q);
  }

  lemma {:induction false} DivAddMul(x: nat, p: nat, k: nat)
    requires p > 0
    ensures (x + p * k) / p == x / p + k
    ensures (x + p * k) % p == x % p
  {
    assert x + p * k == (x / p + k) * p + x % p;
    DivModUnique(x + p * k, p, x / p + k, x % p);
  }

  lemma {:induction false} DivDiv(x: nat, a: nat, b: nat)
    requires a > 0 && b > 0
    ensures x / (a * b) == (x / a) / b
  {
    var y := x / a;
    var q, r2, r1 := y / b, y % b, x % a;
    var lo := a * r2 + r1;
    DivSplit(x, a, b, y, q, r2, r1);
    LowPartBound(a, b, r2, r1);
    DivModUnique(x, a * b, q, lo);
  }

  lemma {:induction false} DivSplit(x: nat, a: nat, b: nat, y: nat, q: nat, r2: nat, r1: nat)
    requires a > 0 && b > 0
    requires x == a * y + r1 && y == b * q + r2
    ensures x == (a * b) * q + (a * r2 + r1)
  {
    assert a * (b * q + r2) == (a * b) * q + a * r2;
  }

  lemma {:induction false} LowPartBound(a: nat, b: nat, r2: nat, r1: nat)
    requires r2 < b && r1 < a
    ensures a * r2 + r1 < a * b
  {
    assert a * b == a * r2 + a * (b - r2);
    MulAtLeast(a, b - r2);
  }

  /** Multiplying by q then reducing modulo p * q keeps the low bits of x, moved up. */
  lemma {:induction false} MulModScaled(x: nat, p: nat, q: nat)
    requires p > 0 && q > 0
    ensures (x * q) % (p * q) == (x % p) * q
  {
    var d, lo := x / p, x % p;
    assert x * q == d * (p * q) + lo * q by {
      assert x == d * p + lo;
    }
    LowPartBound(q, p, lo, 0);
    assert q * lo == lo * q && q * p == p * q;
    DivModUnique(x * q, p * q, d, lo * q);
  }

  lemma {:induction false} DivAtMost(x: nat, d: nat)
    requires d >= 1
    ensures 0 <= x / d <= x
  {
    var q := x / d;
    assert x == d * q + x % d;
    MulSign(d, q);
    MulSign(q, d);
    assert q * d == d * q;
  }

  // ---------------------------------------------------------------------
  // Bitwise operators, one binary digit at a time from the least significant.

  /** `x & y`. */
  function BitAnd(x: nat, y: nat): (r: nat)
    ensures r <= x && r <= y
  {
    if x == 0 || y == 0 then 0
    else 2 * BitAnd(x / 2, y / 2) + (if x % 2 == 1 && y % 2 == 1 then 1 else 0)
  }

  /** `x | y`. */
  function BitOr(x: nat, y: nat): (r: nat)
    ensures x <= r && y <= r && r <= x + y
  {
    if x == 0 then y
    else if y == 0 then x
    else 2 * BitOr(x / 2, y / 2) + (if x % 2 == 1 || y % 2 == 1 then 1 else 0)
  }

  lemma {:induction false} BitAndIdempotent(x: nat)
    ensures BitAnd(x, x) == x
  {
    if x != 0 {
      BitAndIdempotent(x / 2);
    }
  }

  lemma {:induction false} BitAndCommutes(x: nat, y: nat)
    ensures BitAnd(x, y) == BitAnd(y, x)
  {
    if x != 0 && y != 0 {
      BitAndCommutes(x / 2, y / 2);
    }
  }

  /** AND with an all-ones mask at least as wide as x leaves x unchanged. */
  lemma {:induction false} BitAndAllOnes(x: nat, m: nat)
    requires x < Pow2(m)
    ensures BitAnd(x, Pow2(m) - 1) == x
  {
    if m > 0 && x != 0 {
      assert (Pow2(m) - 1) / 2 == Pow2(m - 1) - 1;
      BitAndAllOnes(x / 2, m - 1);
    }
  }

  lemma {:induction false} BitOrBound(x: nat, y: nat, m: nat)
    requires x < Pow2(m) && y < Pow2(m)
    ensures BitOr(x, y) < Pow2(m)
  {
    if m > 0 && x != 0 && y != 0 {
      BitOrBound(x / 2, y / 2, m - 1);
    }
  }

  /** OR of a number below 2^m with a multiple of 2^m is their sum: the bits do not overlap. */
  lemma {:induction false} BitOrDisjoint(lo: nat, hi: nat, m: nat)
    requires lo < Pow2(m)
    ensures BitOr(lo, hi * Pow2(m)) == lo + hi * Pow2(m)
  {
    if m > 0 && lo != 0 && hi != 0 {
      var y := hi * Pow2(m);
      assert y == 2 * (hi * Pow2(m - 1));
      BitOrDisjoint(lo / 2, hi, m - 1);
    }
  }

  // ---------------------------------------------------------------------
  // Limb operators as the compound operators of static_uint use them.

  /** `x >> k` on a limb; the precondition is the C++ rule that a shift must be narrower than the word. */
  function ShiftRight(x: Word, k: nat): (r: Word)
    requires k < WORD_BITS
  {
    var d := Pow2(k);
    DivAtMost(x, d);
    x / d
  }

  /** `x << k` on a limb: the bits moved past the top of the word are lost. */
  function ShiftLeft(x: Word, k: nat): (r: Word)
    requires k < WORD_BITS
  {
    (x * Pow2(k)) % BASE
  }

  /** `x & y` on limbs. */
  function WordAnd(x: Word, y: Word): (r: Word)
  {
    BitAnd(x, y)
  }

  /** `x | y` on limbs. */
  function WordOr(x: Word, y: Word): (r: Word)
  {
    Pow2Word();
    BitOrBound(x, y, WORD_BITS);
    BitOr(x, y)
  }

  // ---------------------------------------------------------------------
  // Bytes: byte j of a number is its j-th base-256 digit, counting from the
  // least significant. On a little-endian host this is the byte at address
  // offset j within the limb.

  function ByteOf(w: nat, j: nat): Byte
  {
    if j == 0 then w % 256 else ByteOf(w / 256, j - 1)
  }

  /** w with its byte j replaced by v. */
  function WithByte(w: nat, j: nat, v: Byte): nat
  {
    if j == 0 then w - w % 256 + v else WithByte(w / 256, j - 1, v) * 256 + w % 256
  }

  /** Byte j is what `(w >> (8 * j)) & 0xFF` extracts. */
  lemma {:induction false} ByteOfIsShiftMask(w: nat, j: nat)
    ensures ByteOf(w, j) == (w / Pow2(8 * j)) % 256
  {
    if j > 0 {
      ByteOfIsShiftMask(w / 256, j - 1);
      Pow2NextByte(j - 1);
      DivDiv(w, 256, Pow2(8 * (j - 1)));
    }
  }

  /** Writing byte j changes byte j to v and no other byte. */
  lemma {:induction false} ByteOfWithByte(w: nat, j: nat, v: Byte, k: nat)
    ensures ByteOf(WithByte(w, j, v), k) == if k == j then v else ByteOf(w, k)
  {
    if j == 0 {
      if k > 0 {
        assert (w - w % 256 + v) / 256 == w / 256;
      }
    } else {
      var u := WithByte(w / 256, j - 1, v);
      assert (u * 256 + w % 256) / 256 == u;
      if k > 0 {
        ByteOfWithByte(w / 256, j - 1, v, k - 1);
      }
    }
  }

  lemma {:induction false} WithByteBound(w: nat, j: nat, v: Byte, m: nat)
    requires j < m && w < Pow2(8 * m)
    ensures WithByte(w, j, v) < Pow2(8 * m)
  {
    Pow2NextByte(m - 1);
    if j == 0 {
      assert w / 256 < Pow2(8 * (m - 1));
      assert w - w % 256 == 256 * (w / 256);
    } else {
      WithByteBound(w / 256, j - 1, v, m - 1);
    }
  }

  /** Store v into byte j of a limb. */
  function WordWithByte(w: Word, j: nat, v: Byte): (r: Word)
    requires j < WORD_BYTES
  {
    Pow2Word();
    WithByteBound(w, j, v, WORD_BYTES);
    WithByte(w, j, v)
  }

  lemma {:induction false} ByteOfZero(j: nat)
    ensures ByteOf(0, j) == 0
  {
    if j > 0 {
      ByteOfZero(j - 1);
    }
  }
}
