# static_uint in Dafny

A model of `static_uint<size>` from `include/qg/static_uint.hpp`: a fixed-width
unsigned integer stored as an array of `ARR_SIZE` 64-bit limbs `data`, least
significant limb first. The model covers the sizing helpers of namespace
`detail`, the value-initialised, word, widening and copy constructors, the
three-way `compare` and the six relational operators, the ripple-carry `+=`
and `+`, the limb-wise `&=` and `&`, the two-phase `>>=` and `>>`,
`numeric_limits<static_uint>::max()`, the `big_endian_iterator` byte walk and
`from_big_endian`.

Every statement is made against the number the limbs stand for,
`Value(data) = data[0] + data[1] * 2^64 + data[2] * 2^128 + ...`
(`Limbs.Value`).

Layout, one module per file:

- `words.dfy` (`Words`): the 64-bit limb type `Word` (an `int` in `[0, 2^64)`),
  powers of two, bitwise AND/OR defined bit by bit, the shifts `>>` and `<<` on
  a limb (a shift by 64 or more is excluded, as in C++), and the bytes of a
  limb as its base-256 digits.
- `limbs.dfy` (`Limbs`): `Value`, the zero, single-word and all-ones limb
  arrays and their values.
- `detail.dfy` (`Detail`): `required_sizeof`, `required_array_size`, the
  width `static_assert` and `widen_array`.
- `ordering.dfy` (`Ordering`): `compare` as a recursive function that scans
  from the top limb down, and the relational operators.
- `addition.dfy` (`Addition`): the limbs `+=` computes with the carry rule of
  the code, and the corrected rule (see Findings).
- `bitwise.dfy` (`Bitwise`): the limbs `&=` computes.
- `shift.dfy` (`Shift`): the limbs `>>=` computes, phase by phase.
- `uint.dfy` (`Uint`): the class `StaticUint` with `const data: array<Word>`;
  `+=`, `&=` and `>>=` are methods that update `data` in place with the loops
  of the source, each proved to produce the limbs the functions above describe;
  `+`, `&`, `>>` and `max()` are methods that allocate a fresh value.
- `big_endian.dfy` (`BigEndian`): the class `BigEndianIterator` with the
  mutable position `(currIt, currByte)`, its `increment`, `equal`,
  `dereference` and the write through the dereferenced byte, and
  `from_big_endian`.

The width `size` is a constructor argument and a field of `StaticUint`
rather than a template argument; the `static_assert`s become preconditions.
`size_t` is 64 bits wide and the host is little-endian, so the byte at offset
`b` in a limb is the limb's `b`-th base-256 digit.

## Model

| member | source | states |
|---|---|---|
| Detail.RequiredSizeof | include/qg/static_uint.hpp:15-22 | the byte count is the least whose bits cover the width |
| Detail.RequiredArraySize | include/qg/static_uint.hpp:28-36 | the limb count is the least whose bytes cover the byte count |
| Detail.ArraySizeIsWordCeiling | include/qg/static_uint.hpp:15-36 | the two roundings together give the least number of 64-bit limbs covering the width |
| Detail.ArraySizeExamples | test/test.cpp:23-27 | widths 64, 128, 192 and 256 take 1, 2, 3 and 4 limbs; a 128-bit value is two words |
| Detail.ArraySizeMonotone | include/qg/static_uint.hpp:78-86 | a wider width never has fewer limbs, so widening has room for every source limb |
| Detail.WidthCheckAdmitsPartialLimb | include/qg/static_uint.hpp:65-67 | the check as written accepts width 72, which is not a multiple of 64 and gets two limbs (128 bits) |
| Detail.WordMultipleWidthIsExact | include/qg/static_uint.hpp:65-67 | with the intended check the limbs hold exactly the declared number of bits |
| Detail.WidthAccepted | include/qg/static_uint.hpp:65-67 | the width check as written, `size % 8 == 0`; its meaning is WidthCheckAdmitsPartialLimb (it admits partial limbs) and WordMultipleWidthIsExact (it is implied by the intended check) |
| Detail.WidenArray | include/qg/static_uint.hpp:42-56 | the wide array keeps the source limbs at their indices, is zero above them, and has the same value |
| Detail.WidenedMaxBelowMax | include/qg/static_uint.hpp:42-56 | a maximum widened to an array with more limbs is below the wider maximum |
| Detail.WidenedMaxCanEqualMax | include/qg/static_uint.hpp:65-67 | widths 200 and 256 both pass the check as written and both take four limbs, so the 200-bit maximum widened to 256 bits equals the 256-bit maximum |
| Detail.WidenedWordMultipleMaxBelowMax | include/qg/static_uint.hpp:78-86 | for widths that are multiples of 64, a narrower width has fewer limbs and its widened maximum is strictly below the wider maximum |
| Limbs.WordValue | include/qg/static_uint.hpp:72 | `data{in}` has ARR_SIZE limbs and value `in` |
| Limbs.MaxValue | include/qg/static_uint.hpp:298-303 | all-ones limbs are the value 2^(64 * ARR_SIZE) - 1 |
| Limbs.Value | include/qg/static_uint.hpp:70 | the number the limbs stand for, `data[0]` least significant; its meaning is ValueBound, MaxIsGreatest and Ordering.ValueInjective |
| Limbs.WordLimbs | include/qg/static_uint.hpp:72 | the limbs `data{in}` builds; WordValue gives their value `in` |
| Limbs.MaxLimbs | include/qg/static_uint.hpp:298-303 | the all-ones limbs of `max()`; MaxValue gives their value 2^(64 * n) - 1 and MaxIsGreatest shows none is larger |
| Limbs.MaxIsGreatest | include/qg/static_uint.hpp:298-303 | no array of the same length has a larger value than the all-ones array |
| Limbs.ValueBound | include/qg/static_uint.hpp:70 | n limbs hold a value below 2^(64 * n) |
| Ordering.CompareFrom | include/qg/static_uint.hpp:120-129 | the scan with limbs i - 1 down to 0 left returns the sign of the difference of those limbs' values, and 0 exactly when they are equal |
| Ordering.Compare | include/qg/static_uint.hpp:117-130 | `compare` is the sign of `Value(lhs) - Value(rhs)`, and 0 exactly when all limbs are equal |
| Ordering.Equal | include/qg/static_uint.hpp:132-136 | `==` holds exactly when the limbs are equal, and exactly when the values are |
| Ordering.Greater | include/qg/static_uint.hpp:137-141 | `>` holds exactly when the left value is larger |
| Ordering.Less | include/qg/static_uint.hpp:142-146 | `<` holds exactly when the left value is smaller |
| Ordering.GreaterEq | include/qg/static_uint.hpp:147-151 | `>=` holds exactly when the left value is not smaller |
| Ordering.LessEq | include/qg/static_uint.hpp:152-156 | `<=` holds exactly when the left value is not larger |
| Ordering.NotEqual | include/qg/static_uint.hpp:157-161 | `!=` holds exactly when some limb differs, and exactly when the values differ |
| Ordering.CompareIsTotalOrder | include/qg/static_uint.hpp:117-161 | `compare(a, a) == 0`, `compare` is antisymmetric and transitive, and `<=` is a total order |
| Ordering.ValueInjective | include/qg/static_uint.hpp:132-136 | equal values of one width have equal limbs |
| Addition.LimbStepCarry | include/qg/static_uint.hpp:169-170 | outside the case of a set carry meeting an all-ones limb, `data[i] < other.data[i]` is exactly the carry out of the limb sum |
| Addition.LimbStepWraps | include/qg/static_uint.hpp:169 | the new limb is the limb sum with the carry, wrapped once at most |
| Addition.LimbStep | include/qg/static_uint.hpp:169 | `data[i] += other.data[i] + carry` with both additions wrapping; LimbStepWraps gives its meaning |
| Addition.CarryIn | include/qg/static_uint.hpp:166-171 | the `overflow` flag entering step i, by the rule `data[i] < other.data[i]`; LimbStepCarry says when it is the true carry |
| Addition.AddLimbs | include/qg/static_uint.hpp:164-173 | the limbs `+=` leaves; AddModular and AddUpToTwoLimbs give their value, LostCarryExample shows where it is not the modular sum |
| Addition.AddModular | include/qg/static_uint.hpp:164-173 | when no carry meets an all-ones limb below the top, `+=` gives `(Value(a) + Value(b)) mod 2^(64 * ARR_SIZE)` |
| Addition.AddUpToTwoLimbs | include/qg/static_uint.hpp:164-173 | up to two limbs (128 bits) the sum is always correct modulo 2^(64 * ARR_SIZE) |
| Addition.AddWordMaxPlusOne | test/test.cpp:30-36 | `size_t max + 1` at 128 bits has high limb 1 and low limb 0 |
| Addition.AddWordMaxTwice | test/test.cpp:37-44 | `size_t max + size_t max` at 128 bits has high limb 1 and low limb `max * 2` wrapped |
| Addition.LostCarryExample | include/qg/static_uint.hpp:170 | `[max, max, 0] += [1, 0, 0]` gives `[0, 0, 0]` while the sum modulo 2^192 is 2^128 |
| Addition.LostCarryNotCommutative | include/qg/static_uint.hpp:164-179 | `[1, 0, 0] + [max, max, 0]` gives `[0, 0, 1]` while the swapped operands give `[0, 0, 0]`: `+` as written is not commutative |
| Addition.IntendedCarryExample | include/qg/static_uint.hpp:170 | with the corrected carry rule the same operands give `[0, 0, 1]` |
| Addition.AddLimbsIntended | include/qg/static_uint.hpp:164-173 | the limbs with the corrected carry rule; AddIntendedModular gives their value |
| Addition.AddIntendedModular | include/qg/static_uint.hpp:164-173 | with the corrected carry rule the sum is `(Value(a) + Value(b)) mod 2^(64 * ARR_SIZE)` for all operands |
| Addition.IntendedAgreesWithoutLostCarry | include/qg/static_uint.hpp:170 | where the code loses no carry the two carry rules give the same limbs |
| Bitwise.AndIdempotent | include/qg/static_uint.hpp:182-194 | `a & a == a` |
| Bitwise.AndCommutes | include/qg/static_uint.hpp:182-194 | `a & b == b & a` |
| Bitwise.AndWithMax | include/qg/static_uint.hpp:182-188 | AND with `max()` leaves every limb unchanged |
| Bitwise.AndBelowOperands | include/qg/static_uint.hpp:182-188 | the AND is no larger than either operand |
| Bitwise.AndLimbs | include/qg/static_uint.hpp:184-186 | the limbs `&=` leaves, `data[i] & rhs.data[i]` at each index; AndIdempotent, AndCommutes, AndWithMax and AndBelowOperands give its laws |
| Shift.LimbShiftValue | include/qg/static_uint.hpp:203-207 | moving the limbs down e places and zeroing the top e divides the value by 2^(64 * e) |
| Shift.LimbShift | include/qg/static_uint.hpp:203-207 | the limbs after phase one; LimbShiftValue gives their value |
| Shift.BitShiftLimb | include/qg/static_uint.hpp:212-220 | limb k after phase two; BitShiftLimbValue gives its value |
| Shift.BitShift | include/qg/static_uint.hpp:209-221 | the limbs after phase two; BitShiftValue gives their value |
| Shift.ShiftLimbs | include/qg/static_uint.hpp:196-223 | the limbs `>>=` leaves; ShiftValue gives their value, ShiftAllOut the full shift |
| Shift.BitShiftLimbValue | include/qg/static_uint.hpp:212-220 | a limb of phase two is the limb shifted right plus the low bits of the limb above moved to its top bits |
| Shift.BitShiftValue | include/qg/static_uint.hpp:209-221 | phase two with `0 < bitshift < 64` divides the value by 2^bitshift |
| Shift.ShiftValue | include/qg/static_uint.hpp:196-223 | `a >>= shift` with `shift / 64 <= ARR_SIZE` gives `Value(a) / 2^shift` |
| Shift.ShiftAllOut | include/qg/static_uint.hpp:196-207 | shifting by exactly 64 * ARR_SIZE gives zero |
| Shift.ShiftMaxWholeLimbs | test/test.cpp:78-83 | `max >> 64k` is the widened maximum of the width with k limbs fewer |
| Shift.BitShiftOfWord | include/qg/static_uint.hpp:209-221 | phase two on a single-word value shifts the word and keeps the high limbs zero |
| Shift.ShiftMaxTopLimb | test/test.cpp:57-76 | for `i < 64`, `max >> (64 * (ARR_SIZE - 1) + i)` is the single word `size_t max >> i` |
| Uint.StaticUint.constructor | include/qg/static_uint.hpp:71 | a value-initialised value has all limbs zero and value 0 |
| Uint.StaticUint.FromWord | include/qg/static_uint.hpp:72 | the word goes to `data[0]`, the other limbs are zero, the value is the word |
| Uint.StaticUint.Widen | include/qg/static_uint.hpp:78-86 | only from a width not above the target; the limbs are WidenArray of the source limbs and the value is kept |
| Uint.StaticUint.Copy | include/qg/static_uint.hpp:177 | the copy has the width and the limbs of the original |
| Uint.StaticUint.AddAssign | include/qg/static_uint.hpp:164-173 | the loop leaves the limbs AddLimbs gives, and the modular sum where no carry is lost |
| Uint.StaticUint.AddAssignIntended | include/qg/static_uint.hpp:164-173 | the loop with the corrected carry rule leaves the modular sum for all operands |
| Uint.StaticUint.AndAssign | include/qg/static_uint.hpp:182-188 | each limb becomes the AND of the old limbs, also when rhs is this value itself |
| Uint.StaticUint.ShiftRightAssign | include/qg/static_uint.hpp:196-223 | the new limbs are ShiftLimbs of the old ones and the value is the old value divided by 2^shift |
| Uint.StaticUint.MoveLimbsDown | include/qg/static_uint.hpp:203-207 | the copy and fill loops move the limbs down e places and zero the top e |
| Uint.StaticUint.ShiftBitsDown | include/qg/static_uint.hpp:209-221 | the accumulate loop from the top limb down produces the phase-two limbs |
| Uint.Add | include/qg/static_uint.hpp:174-179 | `lhs + rhs` is a fresh value with the limbs of `lhs += rhs`; the operands are unchanged |
| Uint.BitwiseAnd | include/qg/static_uint.hpp:189-194 | `lhs & rhs` is a fresh value with the limb-wise AND; the operands are unchanged |
| Uint.RightShift | include/qg/static_uint.hpp:225-230 | `lhs >> shift` is a fresh value with the shifted limbs; the operand is unchanged |
| Uint.Max | include/qg/static_uint.hpp:298-303 | every limb is all-ones and the value is 2^(64 * ARR_SIZE) - 1 |
| BigEndian.ByteAtValue | include/qg/static_uint.hpp:255-272 | position j of the walk is byte `8 * ARR_SIZE - 1 - j` of the value: the walk is most significant byte first |
| BigEndian.ByteAt | include/qg/static_uint.hpp:255-272 | the byte at position j of the walk, byte `7 - j % 8` of limb `ARR_SIZE - 1 - j / 8`; ByteAtValue gives its meaning |
| BigEndian.ByteAtUpdate | include/qg/static_uint.hpp:269-272 | storing into byte b of limb k changes the walk at that position only |
| BigEndian.BigEndianIterator.constructor | include/qg/static_uint.hpp:244-245 | a new iterator is at the top limb's most significant byte, position 0 |
| BigEndian.BigEndianIterator.End | include/qg/static_uint.hpp:246-249 | the end iterator is past the last limb at `max_byte`, position 8 * ARR_SIZE |
| BigEndian.BigEndianIterator.Increment | include/qg/static_uint.hpp:255-262 | the byte offset counts down and wraps to the next lower limb; the position advances by one |
| BigEndian.BigEndianIterator.Equal | include/qg/static_uint.hpp:264-267 | two iterators over one value are equal exactly when they are at the same position |
| BigEndian.BigEndianIterator.Dereference | include/qg/static_uint.hpp:269-272 | the byte read is the walk's byte at the iterator's position |
| BigEndian.BigEndianIterator.Write | include/qg/static_uint.hpp:269-272 | a write changes the byte at the iterator's position to v and no other byte |
| BigEndian.FromBigEndian | include/qg/static_uint.hpp:279-288 | at most 32 input bytes, target width at least 256; input byte j is the j-th most significant byte of the 256-bit value, later bytes and higher limbs are zero |
| BigEndian.DecodedDigits | include/qg/static_uint.hpp:279-288 | the decoded value is below 2^256 and its base-256 digit 31 - j is input byte j, zero past the input |

## Left out

- Host byte order: the byte addressing of `dereference` through `reinterpret_cast` is modelled as the little-endian digit order the source assumes; big-endian hosts are not modelled.
- The Boost `iterator_facade` plumbing, the `std::reverse_iterator` typedefs and the `begin`/`rbegin` accessors are represented only by the order in which the loops visit the limbs (from the top for `begin()`, from `data[0]` for `rbegin()`).
- `big_endian_iterator::end` calls a constructor that does not exist; `BigEndianIterator.End` represents the end position as one past the last limb at `max_byte`.
- `qg/constd.hpp` is not part of this model; `constd::copy`, `constd::fill` and `constd::accumulate` are taken to behave as the standard algorithms and are written out as loops.
- Uint.StaticUint.AddAssign: requires `other` to be a different array; `x += x` reads limbs it has already written, so its carry test always fails, and that case is not modelled.
- `constexpr` and `noexcept`, and the constant `numeric_limits` flags `is_specialized`, `is_integer`, `is_exact` and `is_signed`.
- The defaulted constructor leaves the limbs indeterminate unless the value is value-initialised; the model always zero-initialises, as every use in the source does.
- BigEndian.FromBigEndian: requires at most 32 bytes, because a longer input writes past the 256-bit array, which the code does not check.
- BigEndian.FromBigEndian: takes bytes only; the source accepts any container and stores each element through an `unsigned char&`, so wider element values are reduced modulo 256, which the model does not capture.
- Shift.ShiftValue: requires `shift / 64 <= ARR_SIZE`, because beyond it the copy of phase one starts past the end of the array; shifts from `64 * ARR_SIZE + 64` up, which should give zero, are undefined in the source and are not modelled.
- Uint.StaticUint.ShiftRightAssign: requires `shift / 64 <= ARR_SIZE`, for the same reason as Shift.ShiftValue.
- Uint.RightShift: requires `shift / 64 <= ARR_SIZE`, for the same reason as Shift.ShiftValue.
- Input lengths, widths and shift counts are unbounded integers except the shift count, which is an `unsigned int` (`UInt32`); the widths are not limited to `size_t`.
- The test harness, its `operator<<` printer and the commented-out comparison of a 255-bit maximum are not modelled.
- Commutativity and associativity of `+` are not stated as laws: they fail with the carry rule as written (Addition.LostCarryNotCommutative shows the swapped operands giving different limbs).

## Findings

| source | as written | input that shows it | evidently intended | confidence | as-written member | corrected member |
|---|---|---|---|---|---|---|
| include/qg/static_uint.hpp:170 | the carry out of a limb is `data[i] < other.data[i]`, which misses the carry when the carry in is set and the lhs limb is 2^64 - 1 | `[2^64-1, 2^64-1, 0] += [1, 0, 0]` at 192 bits gives `[0, 0, 0]` instead of `[0, 0, 1]` | also carry when the carry in is set and the new limb equals `other.data[i]` | high; not executed | Addition.LostCarryExample | Addition.AddIntendedModular |
| include/qg/static_uint.hpp:65-67 | the width must be a multiple of `sizeof(std::size_t)`, which is 8, while the width is in bits | `static_uint<72>` is accepted, gets two limbs and wraps at 2^128 instead of 2^72 | the width must be a multiple of the 64 bits of `std::size_t` | high; not executed | Detail.WidthCheckAdmitsPartialLimb | Detail.WordMultipleWidthIsExact |
| include/qg/static_uint.hpp:81-86 | widening is allowed whenever `other_size <= size`, and both widths need only pass the width check as written | `static_uint<256>{numeric_limits<static_uint<200>>::max()}` equals `numeric_limits<static_uint<256>>::max()`, both four all-ones limbs | widths are multiples of 64, so a narrower maximum widened is strictly below the wider maximum | high; not executed | Detail.WidenedMaxCanEqualMax | Detail.WidenedWordMultipleMaxBelowMax |

The class `StaticUint` follows the code as written: `AddAssign`, `Add` and
`Valid` use the carry rule and the width check of the source. The corrected
carry rule is `AddLimbsIntended`, run in place by
`StaticUint.AddAssignIntended`; the corrected width check is
`WidthIsWordMultiple`.
