# bigint.c in Dafny

This project models `bigint.c`, a small arbitrary-precision two's-complement integer library, and proves properties of the model. A number is a sequence of machine words, least significant word first. The sign is the top bit of the most significant word. The model covers:

- the word primitive `addAndCarry`;
- the word macros `HI_BIT` and `HI_3_BITS`;
- `add`, which adds `b` or its negation to `a`, grows the result by one word on overflow, and otherwise canonicalises it;
- `fromStr`, which parses an optional minus sign and decimal digits into a buffer sized in advance;
- the canonicalisation that `add` and `fromStr` share: trim redundant sign-extension words, then put one back if the sign would flip.

The word width is fixed at the default of 8 bits, so `BASE = 256`.

Modules, one per layer of the C file:

- `Words` (`words.dfy`): words, `HI_BIT`, `HI_3_BITS`, `~`, `<<` and `(WordType)-x`, all written out modulo 256. It also holds `addAndCarry` and the ×10 word step of `fromStr`.
- `Representation` (`representation.dfy`): the meaning of a word sequence.
  - `Unsigned(s)` is Σ s[i]·256^i.
  - `Signed(s)` is `Unsigned(s)` minus 256^|s| when the sign bit is set.
  - It also holds conversion back from a value (`ToWords`), sign and zero extension, complement and two's-complement negation, with their value lemmas.
- `Canon` (`canon.dfy`): the canonicalisation, both as a function (`Canonicalised`) and as the in-place trim loop of the C code (`Canonicalise`). It also holds the canonical-form lemmas: value preserved, idempotent, minimal and unique.
- `Addition` (`addition.dfy`): `add`, in three parts:
  - the specification function `AddSpec`, which is the code as written;
  - the method `Add`, with its three carry loops over an array;
  - its value theorems.

  It also holds concrete inputs that show where the code is not exact, and a corrected `AddCorrected` that is proved exact.
- `Decimal` (`decimal.dfy`): `fromStr`, in two parts:
  - the specification function `FromStrSpec`;
  - the method `FromStr`, with the digit loop, the in-place ×10 word loop, the in-place negation, and the shared trim.

  It also holds the buffer-sizing proof, the correctness theorem, the examples, and a corrected parse that accepts "-0".

The C `assert`s become the following:

| C `assert` | what can happen | in the model |
|---|---|---|
| bigint.c:146 | can fail: a character that is not a digit | the error result `NotADigit` |
| bigint.c:180 | can fail: the re-appended sign word would need a slot beyond the buffer | the error result `NoRoomForSignWord` |
| bigint.c:161 | never fails: no carry out of the top word | proved to hold |

Some behaviour of the code worth knowing before reading the table:

- **Word order.** `fromStr("128")` returns `[0x80, 0x00]`, least significant word first.
- **Buffer sizing.** `cap` is computed from `strlen(str)`, so the minus sign is counted.
- **The empty string.** It is accepted and gives `[0]`.
- **Commutativity.** `add` is not commutative as written (`NotCommutative`), and `AddCorrected` is (`AddCorrectedCommutes`).

## Model

| member | source | states |
|---|---|---|
| Words.HiBit | bigint.c:32 | the sign bit is 0 or 1, and it is 1 exactly when the word is at least 128 |
| Words.Hi3Bits | bigint.c:34 | the top three bits are a number from 0 to 7 |
| Words.ShiftLeft | bigint.c:151-155 | `x << k` stored back into a word; no contract of its own: ShiftOutThree and ShiftOutOne pin down the word kept and the bits that fall out for the two shifts the code uses |
| Words.Not | bigint.c:64 | `~w` has the other sign bit (HI_BIT) and the complementary top three bits (HI_3_BITS is 7 minus that of w); w and `~w` add up to 255 |
| Words.NotProps | bigint.c:64-69 | inverting twice gives the word back, and `~` of one fill word is the other, so `(WordType)-!signb` is the inverted fill word of b |
| Words.Fill | bigint.c:69 | `(WordType)-x` has its sign bit set exactly when x is true |
| Words.AddAndCarry | bigint.c:43-48 | a + b + c equals the stored word plus carry·256; the carry is at most 2, and at most 1 when c ≤ 1 |
| Words.ShiftOutThree | bigint.c:34 | 8·x is `x << 3` as a stored word plus 256·HI_3_BITS(x) |
| Words.ShiftOutOne | bigint.c:32 | 2·x is `x << 1` as a stored word plus 256·HI_BIT(x) |
| Words.TimesTenWord | bigint.c:149-157 | one ×10 word step stores (10x + c) mod 256 and carries (10x + c) div 256, which is at most 10 |
| Representation.Signed | bigint.c:36-40 | the two's-complement value of n words lies in [-256^n/2, 256^n/2), and it is negative exactly when the sign bit is set |
| Representation.NegativeIffUpperHalf | bigint.c:32 | the sign bit of the top word is set exactly when the unsigned value is in the upper half of its range |
| Representation.ToWordsValue | bigint.c:36-40 | n words taken from v and the part of v above them add back up to v |
| Representation.ToWordsUnique | bigint.c:36-40 | words and a carry whose sum is v are exactly the low words and the high part of v |
| Representation.WordsRoundTrip | bigint.c:36-40 | reading words as a number and writing the number back gives the same words |
| Representation.ValueRoundTrip | bigint.c:36-40 | a value below 256^n written as n words reads back as itself |
| Representation.UnsignedInjective | bigint.c:36-40 | two word sequences of the same length and the same value are equal |
| Representation.SignExtValue | bigint.c:67-71 | extending with the sign word keeps the sign and the signed value |
| Representation.ZeroExtValue | bigint.c:73-76 | extending with zero words keeps the unsigned value |
| Representation.Complement | bigint.c:64 | inverting every word keeps the length, and each result word and the matching input word add up to 255; ComplementValue and ComplementSigned give its value |
| Representation.Negated | bigint.c:165-172 | flip the bits and add one, throwing away the last carry, keeps the length; NegatedValue and NegatedTwice pin down its value |
| Representation.ComplementValue | bigint.c:64 | inverting every word maps the unsigned value u to 256^n - 1 - u |
| Representation.ComplementSigned | bigint.c:64 | inverting every word maps the signed value v to -v - 1 and flips the sign |
| Representation.NegatedValue | bigint.c:165-172 | negation maps the unsigned value v to 256^n - v, and maps 0 to 0; that is (256^n - v) mod 256^n |
| Representation.NegatedTwice | bigint.c:165-172 | negating twice gives the same words back |
| Canon.TrimFill | bigint.c:113-115 | the trim leaves a prefix whose top word is not the fill word, or a single word, and every dropped word is the fill word |
| Canon.Canonicalised | bigint.c:111-120 | the result has the requested sign, is canonical, and is at most one word longer than the input |
| Canon.CanonicalisedValue | bigint.c:111-120 | trimming on the input's own sign keeps the signed value and never makes the input longer |
| Canon.CanonicalisedIdempotent | bigint.c:173-182 | canonicalising twice with the same sign gives the same words as canonicalising once |
| Canon.CanonicalFixpoint | bigint.c:111-120 | a canonical number is left unchanged |
| Canon.CanonicalMinimal | bigint.c:111-120 | a canonical number of two or more words does not fit in one word fewer, so no further word can be dropped |
| Canon.CanonicalUnique | bigint.c:111-120 | two canonical numbers with the same value are the same words |
| Canon.CanonicalZero | bigint.c:111-120 | the only canonical zero is `[0]` |
| Canon.Canonicalise | bigint.c:173-182 | the in-place trim and re-append leaves the canonicalised words in the buffer; it reports no room exactly when they are longer than the buffer |
| Addition.Operand | bigint.c:60-76 | the word sequence the loops add in place of b has the full width |
| Addition.LoopTotal | bigint.c:60-98 | the number the loops add up is below 2·256^len, len = max(len a, len b); LoopValue ties it to the loop words and the carry |
| Addition.LoopWords | bigint.c:60-98 | the words the loops leave in `res->data` number max(len a, len b); LoopValue gives their value |
| Addition.LoopCarry | bigint.c:60-98 | the final carry of the loops; no contract of its own: LoopCarryBound bounds it by 1 and LoopValue gives its weight 256^len |
| Addition.OverflowTest | bigint.c:80-103 | the two overflow tests (bigint.c:80-82 with b's sign flipped, bigint.c:101-103); no contract of its own: OverflowedIff states it as the two's-complement overflow rule |
| Addition.AddSpec | bigint.c:50-125 | what `add` returns; no contract of its own: AddExactIff says exactly when it is a + b (or a - b), AddShape gives its shape and canonical form, AddOverflowWord its top word on overflow, and Add is proved to compute it |
| Addition.LoopCarryBound | bigint.c:60-98 | the carry left after the word loops is 0 or 1 |
| Addition.LoopValue | bigint.c:60-98 | the loop words plus carry·256^len equal Unsigned(a, zero-extended) + Unsigned(b or ~b, extended with b's effective sign) + the initial carry |
| Addition.OperandValue | bigint.c:60-76 | `~b` extended with the inverted sign of b, plus carry 1, is -b; b extended with its own sign is b |
| Addition.WidenedOperand | bigint.c:89-98 | zero-extending a non-negative a keeps its sign and its value |
| Addition.OverflowedIff | bigint.c:77-103 | the C overflow test of either branch (bigint.c:80-82 and bigint.c:101-103) is the two's-complement rule on a's own sign bit and the operand words: a and the operand have the same sign, and the loop words have the other |
| Addition.TwosComplementSum | bigint.c:99-103 | with no overflow the result words are the exact signed sum; with overflow the carry is the sign bit of a, and one more sign word makes the sum exact |
| Addition.AddExact | bigint.c:50-125 | the result is a + b, or a - b, when a is non-negative, or when a is at least as long as b and there is no overflow |
| Addition.AddInexact | bigint.c:50-125 | for a negative a that is shorter than b or for which the overflow rule fires, the result is not a + b (or a - b) |
| Addition.AddInexactOverflow | bigint.c:105-109 | for a negative a, an overflow result is the loop total with the carry as top word, which is not the exact sum |
| Addition.AddInexactShort | bigint.c:73-76 | a shorter negative a without overflow gives a result that is not the exact sum |
| Addition.AddInexactShortOffset | bigint.c:73-76 | a shorter negative a without overflow gives a result that exceeds the exact sum by exactly 256^len(a), or by 256^len(a) - 256^len when the result wraps round |
| Addition.AddExactIff | bigint.c:50-125 | the result is exact if and only if a is non-negative, or a is at least as long as b and there is no overflow |
| Addition.AddOverflowWord | bigint.c:105-109 | on overflow the extra word is the final carry, which equals the sign bit of a |
| Addition.AddShape | bigint.c:105-121 | the result is canonical; its length is max+1 exactly on overflow and otherwise at most max |
| Addition.SubtractSelf | bigint.c:50-125 | a - a is `[0]` for every a |
| Addition.AddZero | bigint.c:50-125 | adding `[0]` to a canonical a gives a back |
| Addition.AddCommutesNonNegative | bigint.c:50-125 | for non-negative operands, a + b and b + a are the same words |
| Addition.SubtractIsAddNegation | bigint.c:60-76 | for non-negative a, a - b equals a + (0 - b) |
| Addition.ShortNegativeOperand | bigint.c:95-98 | for the canonical operands -1 and 128, -1 + 128 gives 383: the shorter negative a is padded with zero words |
| Addition.ShortNegativeOperandNegated | bigint.c:73-76 | for the canonical operands -1 and 128, -1 - 128 gives `[0x7F, 0x00, 0x01]`, which is 65663 |
| Addition.NotCommutative | bigint.c:89-98 | 128 + (-1) gives 127 but (-1) + 128 does not |
| Addition.NegativeOverflow | bigint.c:109 | -128 + -128 gives 256: the raw carry 1 becomes the top word |
| Addition.SameWidthSumExact | bigint.c:60-121 | a same-width word sum, grown by the sign word on overflow and canonicalised otherwise, is exact and canonical |
| Addition.GrownCanonical | bigint.c:105-109 | growing by a fill word that differs from the sign of the result gives a canonical number |
| Addition.AddCorrectedExact | bigint.c:50-125 | the corrected addition is exactly a + b or a - b, for all operands, and canonical |
| Addition.AddCorrectedAgrees | bigint.c:50-125 | wherever the code is exact, the corrected addition gives the same words |
| Addition.AddCorrectedCommutes | bigint.c:50-125 | the corrected addition is commutative |
| Addition.AddCorrectedZero | bigint.c:50-125 | adding `[0]` to a canonical a with the corrected addition gives a back |
| Addition.AddCorrectedSubtract | bigint.c:60-76 | with the corrected addition, a - b equals a + (0 - b) for all a and b |
| Addition.CarryStep | bigint.c:63-65 | one addAndCarry call extends the running sum by one word |
| Addition.LoopResult | bigint.c:60-98 | the words and the carry that satisfy the running sum over all len words are those of the specification |
| Addition.LoopOperandsHold | bigint.c:60-98 | word i seen by the loops is a[i] or 0, and b[i], ~b[i] or the fill word |
| Addition.AddCommonWords | bigint.c:63-65 | the first loop leaves the running sum over the first min(len a, len b) words and a carry of at most 1 |
| Addition.AddLeftoversOfA | bigint.c:67-71 | the second loop extends the running sum to the length of a, using b's sign word |
| Addition.AddLeftoversOfB | bigint.c:73-76 | the third loop extends the running sum to the full length, using zero words for a |
| Addition.Add | bigint.c:50-125 | `add` on an array returns the specification's words. The result is canonical; its length is max+1 with the carry as top word on overflow, and at most max otherwise; it is exact under the conditions of AddExact |
| Decimal.DigitValue | bigint.c:152 | `*c - '0'` of a digit is at most 9 |
| Decimal.DecimalBound | bigint.c:145-163 | a string of k digits has a value below 10^k |
| Decimal.TenPowBound | bigint.c:134 | 10^k ≤ 2^⌊7k/2⌋ for every k other than 1 |
| Decimal.Capacity | bigint.c:135 | the buffer has at least one word; CapacityBound shows it holds any strlen-digit value with room for the sign bit |
| Decimal.CapacityBound | bigint.c:134-135 | twice 10^strlen is at most 256^cap, with cap = 1 + (7·strlen/2)/8 |
| Decimal.DigitsFit | bigint.c:134-135 | the digits of the string are a value below half of 256^cap |
| Decimal.SignedData | bigint.c:165-172 | the magnitude words have the decimal value and are non-negative; negating a non-zero magnitude gives -m with the sign bit set; negating zero gives zero |
| Decimal.SpecData | bigint.c:173-182 | trimming on the minus sign needs a slot beyond cap exactly when the number is negative zero, and otherwise keeps ±m |
| Decimal.FromStrSpec | bigint.c:131-189 | what `fromStr` returns; no contract of its own: FromStrCorrect states its two error cases and its result, and FromStr is proved to compute it |
| Decimal.FromStrCorrect | bigint.c:131-189 | `fromStr` fails with NotADigit exactly when a character after the sign is not a digit. It fails with NoRoomForSignWord exactly for a minus sign followed by digits of value zero. Otherwise it returns the canonical ±(decimal value) in at most cap words |
| Decimal.TimesTenStep | bigint.c:154-157 | one ×10 word step extends the running equation 10·x + digit by one word |
| Decimal.TimesTenPlus | bigint.c:149-161 | one digit turns the buffer's value x into 10·x + digit in place; the body proves the assert at bigint.c:161 (final carry 0) |
| Decimal.TimesTenHigherWords | bigint.c:154-158 | the word loop over the higher words keeps the running equation up to the whole buffer |
| Decimal.NegateStep | bigint.c:167-170 | one inverted word plus the carry extends the running equation ~x + 1 by one word |
| Decimal.NegateInPlace | bigint.c:165-172 | the in-place loop leaves the two's-complement negation of the buffer |
| Decimal.DigitStep | bigint.c:145-163 | one more digit keeps the prefix a digit string; its value becomes 10·old + digit and stays below 256^cap |
| Decimal.ParseDigits | bigint.c:145-163 | the digit loop stops exactly at a non-digit; otherwise the buffer holds the decimal value of the digits |
| Decimal.FromStr | bigint.c:131-189 | `fromStr` on an array returns what the specification returns; on success the result is canonical and at most cap words long |
| Decimal.ZeroWords | bigint.c:137 | a buffer of zero words has value 0 |
| Decimal.ParsesTo | bigint.c:131-189 | a canonical number with the value a digit string spells, other than a minus sign followed by digits of value zero, is what `fromStr` returns for it |
| Decimal.Parse127 | bigint.c:131-189 | "127" parses to `[0x7F]` |
| Decimal.Parse128 | bigint.c:131-189 | "128" parses to `[0x80, 0x00]` |
| Decimal.ParseMinusOne | bigint.c:131-189 | "-1" parses to `[0xFF]` |
| Decimal.ParseEmpty | bigint.c:145 | "" parses to `[0]` |
| Decimal.ParseNonDigit | bigint.c:146 | "12a" fails with NotADigit |
| Decimal.ParseNegativeZero | bigint.c:178-181 | "-0" and "-" fail with NoRoomForSignWord |
| Decimal.DoubleOf127 | bigint.c:50-125 | adding 127 to itself gives `[0xFE, 0x00]` |
| Decimal.FromStrCorrectedExact | bigint.c:173-182 | the corrected parse succeeds exactly on digit strings and returns the canonical ±(decimal value) in at most cap words |
| Decimal.CorrectedData | bigint.c:173-182 | trimming on the sign of the negated buffer keeps ±m within cap words, also for negative zero |
| Decimal.FromStrCorrectedAgrees | bigint.c:131-189 | wherever `fromStr` succeeds, the corrected parse gives the same words |
| Decimal.ParseNegativeZeroCorrected | bigint.c:178-181 | the corrected parse reads "-0" as `[0]` |

## Left out

- `printHex` and `main` (bigint.c:191-219): formatting, argument handling and exit codes are I/O.
- Allocation with `malloc`, `calloc`, `realloc`, `memcpy` and `free` (bigint.c:53, 108, 120, 137, 183-187): results are fresh arrays or sequences, and allocation failure is not modelled.
- Reference counting: the `refCount` field (bigint.c:37, 122, 184) is set to 0 and never read.
- Word widths of 16, 32 and 64 bits (bigint.c:8-26): the width is fixed at the default of 8 bits. The `PRIxWT` format macros belong to `printHex`.
- C integer promotion under `~` and `<<`: every word operation is taken modulo 256, which is what the truncating store into a word gives.
- C strings: a string is the characters before its terminating NUL; a NUL inside the Dafny string is not given that meaning.
- The `negateb` branches of `add` (bigint.c:60-104): the model uses one loop per phase. The word added for `b` is `b[i]` or `~b[i]`, the fill word is `(WordType)-signb` or `(WordType)-!signb`, and the initial carry is 0 or 1. These are the same words and carries as in each branch of the C code.
- Abort on a failing `assert` (bigint.c:146, 180): the model returns an error result instead. It does not model a build with assertions disabled.
- Addition.AddExact: exact only when a is non-negative, or when a is at least as long as b and there is no overflow, because the code as written is not exact outside these cases (`AddInexact`, `AddExactIff`, and Findings).
- Addition.AddCommutesNonNegative: commutativity only for non-negative operands, because for the code as written it fails otherwise (`NotCommutative`).
- Addition.SubtractIsAddNegation: only for non-negative a, for the same reason. The corrected addition satisfies it for all operands (`AddCorrectedSubtract`).

## Findings

| source | as written | input that shows it | evidently intended | confidence | as-written member | corrected member |
|---|---|---|---|---|---|---|
| bigint.c:95-98 | when a is shorter than b, the loop pads a with zero words even if a is negative | a = `[0xFF]` (-1) and b = `[0x80, 0x00]` (128) give `[0x7F, 0x01]`, which is 383 | pad a with its sign word `(WordType)-HI_BIT(a->data[a->len - 1])`, giving 127 | high, not executed | Addition.ShortNegativeOperand | Addition.AddCorrectedExact |
| bigint.c:73-76 | the same zero padding of a shorter negative a on the subtraction path | a = `[0xFF]` (-1) and b = `[0x80, 0x00]` (128), subtracting, give `[0x7F, 0x00, 0x01]`, which is 65663 | pad a with its sign word, giving -129 | high, not executed | Addition.ShortNegativeOperandNegated | Addition.AddCorrectedExact |
| bigint.c:109 | on overflow the extra top word is the raw carry, which is 1 for a negative overflow | a = b = `[0x80]` (-128) give `[0x00, 0x01]`, which is 256 | the extra word is the sign word of a, all ones here, giving `[0x00, 0xFF]`, which is -256 | high, not executed | Addition.NegativeOverflow | Addition.AddCorrectedExact |
| bigint.c:178-181 | a minus sign followed by digits of value zero trims on `negative = 1`; the zero buffer keeps sign bit 0, so the re-append needs a slot beyond cap and the assert fails | "-0" | read "-0" as zero, `[0]`, by trimming on the sign of the negated buffer | medium, not executed | Decimal.ParseNegativeZero | Decimal.ParseNegativeZeroCorrected |

For every input, not only these examples, `AddInexact` shows the code as written is inexact whenever a is negative and either shorter than b or overflowing; `AddExactIff` gives the exact condition. Commutativity holds for the corrected addition (`AddCorrectedCommutes`). For the code as written it is broken by the first finding (`NotCommutative`). `AddCorrected` is proved to agree with the code wherever the code is exact (`AddCorrectedAgrees`), and `FromStrCorrected` wherever `fromStr` succeeds (`FromStrCorrectedAgrees`).
