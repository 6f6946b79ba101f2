/**
 * `add(a, b, negateb)` (bigint.c:50-125): a + b, or a - b as a plus the two's
 * complement of b. Word loops with a running carry fill a buffer of
 * max(len a, len b) words, overflow is read off the sign bits, and the result
 * then either grows by the final carry or is canonicalised.
 *
 * `AddSpec` states what the loops compute in terms of values; the method `Add`
 * runs the loops and is proved equal to it. The C code departs from exact
 * arithmetic in two places, modelled as written: a shorter `a` is widened with
 * zero words even when it is negative, and the word added on overflow is the raw
 * carry. `AddCorrected` is the same algorithm with both places repaired.
 */
module Addition {
  import opened Words
  import opened Representation
  import opened Canon

  function Max(x: nat, y: nat): (r: nat)
    ensures r >= x && r >= y && (r == x || r == y)
  {
    if x > y then x else y
  }

  function Min(x: nat, y: nat): (r: nat)
    ensures r <= x && r <= y && (r == x || r == y)
  {
    if x < y then x else y
  }

  /**
   * The words added to `a`'s words: b sign-extended to n words with its own sign,
   * and every word inverted when b is negated (`~b->data[i]`, `(WordType)-!signb`).
   */
  function Operand(b: BigInt, n: nat, negateB: bool): (y: BigInt)
    requires |b| <= n
    ensures |y| == n
  {
    if negateB then Complement(SignExt(b, n)) else SignExt(b, n)
  }

  /** The initial carry: 1 adds the "+1" of the two's-complement negation of b. */
  function InitialCarry(negateB: bool): (r: nat)
  {
    if negateB then 1 else 0
  }

  /**
   * The number the three word loops of `add` add up: `a`'s words widened with
   * zero words (the loops over b's leftovers pass 0 for a), the operand, and the
   * initial carry.
   */
  function LoopTotal(a: BigInt, b: BigInt, negateB: bool): (r: nat)
    ensures r < 2 * Pow(Max(|a|, |b|))
  {
    var n := Max(|a|, |b|);
    Unsigned(ZeroExt(a, n)) + Unsigned(Operand(b, n, negateB)) + InitialCarry(negateB)
  }

  /** `res->data` after the loops: the low max(len a, len b) words of the total. */
  function LoopWords(a: BigInt, b: BigInt, negateB: bool): (res: BigInt)
    ensures |res| == Max(|a|, |b|)
  {
    ToWords(LoopTotal(a, b, negateB), Max(|a|, |b|))
  }

  /** The final `carry` of the loops: the total above its low words. */
  function LoopCarry(a: BigInt, b: BigInt, negateB: bool): (r: nat)
  {
    HighPart(LoopTotal(a, b, negateB), Max(|a|, |b|))
  }

  /**
   * The overflow test of bigint.c:80-82 and bigint.c:101-103 on the sign bits of
   * a's, b's and the unextended result's most significant words.
   */
  predicate OverflowTest(a: BigInt, b: BigInt, negateB: bool, res: BigInt)
  {
    var ha := HiBit(Msw(a));
    var hb := HiBit(Msw(b));
    var hr := HiBit(Msw(res));
    if negateB then ha != hb && ha != hr else ha == hb && ha != hr
  }

  predicate Overflowed(a: BigInt, b: BigInt, negateB: bool)
  {
    OverflowTest(a, b, negateB, LoopWords(a, b, negateB))
  }

  /** The total of the loops is below 2 * BASE^len, so the final carry is 0 or 1. */
  lemma LoopCarryBound(a: BigInt, b: BigInt, negateB: bool)
    ensures LoopCarry(a, b, negateB) <= 1
  {
    var n := Max(|a|, |b|);
    ToWordsValue(LoopTotal(a, b, negateB), n);
    MulLowerBound(LoopCarry(a, b, negateB), Pow(n));
  }

  /**
   * What `add` returns: on overflow the loop words grow by one word holding the
   * final carry (bigint.c:105-109); otherwise the loop words canonicalised with
   * the sign of their own top word (bigint.c:111-120).
   */
  function AddSpec(a: BigInt, b: BigInt, negateB: bool): (r: BigInt)
  {
    var res := LoopWords(a, b, negateB);
    if Overflowed(a, b, negateB) then
      LoopCarryBound(a, b, negateB);
      res + [LoopCarry(a, b, negateB)]
    else
      Canonicalised(res, IsNegative(res))
  }

  /** The two ways `add` finishes, read off `AddSpec`. */
  lemma AddSpecCases(a: BigInt, b: BigInt, negateB: bool)
    ensures LoopCarry(a, b, negateB) <= 1
    ensures Overflowed(a, b, negateB) ==> AddSpec(a, b, negateB) == LoopWords(a, b, negateB) + [LoopCarry(a, b, negateB)]
    ensures !Overflowed(a, b, negateB) ==>
              AddSpec(a, b, negateB) == Canonicalised(LoopWords(a, b, negateB), IsNegative(LoopWords(a, b, negateB)))
  {
    LoopCarryBound(a, b, negateB);
  }

  /** The loop words and the final carry split the total of the widened a, the operand words and the initial carry. */
  lemma LoopValue(a: BigInt, b: BigInt, negateB: bool)
    ensures var n := Max(|a|, |b|);
            Unsigned(ZeroExt(a, n)) + Unsigned(Operand(b, n, negateB)) + InitialCarry(negateB)
            == Unsigned(LoopWords(a, b, negateB)) + LoopCarry(a, b, negateB) * Pow(n)
  {
    ToWordsValue(LoopTotal(a, b, negateB), Max(|a|, |b|));
  }

  /**
   * Two's-complement addition of two n-word numbers and a carry-in of 0 or 1,
   * given as the n low words `res` of the unsigned total and the carry above
   * them: the carry is 0 or 1, the low words are the exact signed sum unless the
   * overflow rule fires, and when it fires, the carry-out is the common sign bit
   * and one more word of that sign gives the exact sum.
   */
  lemma TwosComplementSum(x: BigInt, y: BigInt, c0: nat, res: BigInt, carry: nat)
    requires |x| == |y| == |res| && c0 <= 1
    requires Unsigned(x) + Unsigned(y) + c0 == Unsigned(res) + carry * Pow(|x|)
    ensures carry <= 1
    ensures !(IsNegative(x) == IsNegative(y) && IsNegative(x) != IsNegative(res)) ==>
              Signed(res) == Signed(x) + Signed(y) + c0
    ensures IsNegative(x) == IsNegative(y) && IsNegative(x) != IsNegative(res) ==>
              carry == HiBit(Msw(x)) && Signed(res + [Fill(IsNegative(x))]) == Signed(x) + Signed(y) + c0
  {
    var n := |x|;
    var p := Pow(n);
    MulLowerBound(carry, p);
    CarryBit(carry, p);
    NegativeIffUpperHalf(x);
    NegativeIffUpperHalf(y);
    NegativeIffUpperHalf(res);
    SignedGrown(res, IsNegative(x));
    PowHalf(n);
    SignedSumArith(Unsigned(x), Unsigned(y), c0, Unsigned(res), carry, p, BASE / 2 * Pow(n - 1),
                   IsNegative(x), IsNegative(y), IsNegative(res));
  }

  lemma CarryBit(carry: nat, p: nat)
    requires carry <= 1
    ensures carry * p == if carry == 1 then p else 0
  {
  }

  /** BASE^n for n >= 1 is twice BASE^n / 2, the bound of the upper half. */
  lemma PowHalf(n: nat)
    requires n >= 1
    ensures Pow(n) == 2 * (BASE / 2 * Pow(n - 1))
  {
  }

  /** One more word of sign `negative` on top of res: its value is res's unsigned reading, less BASE^len if negative. */
  lemma SignedGrown(res: BigInt, negative: bool)
    ensures Signed(res + [Fill(negative)]) == Unsigned(res) as int - (if negative then Pow(|res|) else 0)
  {
    var g: BigInt := res + [Fill(negative)];
    UnsignedSnoc(res, Fill(negative));
    assert Msw(g) == Fill(negative);
    assert Pow(|g|) == BASE * Pow(|res|);
    GrownArith(Unsigned(res), Fill(negative), Pow(|res|), negative);
  }

  lemma GrownArith(u: int, f: int, p: int, negative: bool)
    requires f == if negative then BASE - 1 else 0
    ensures u + f * p - (if negative then BASE * p else 0) == u - (if negative then p else 0)
  {
  }

  /** The arithmetic of `TwosComplementSum` on plain numbers: unsigned readings below p and their sign bits. */
  lemma SignedSumArith(ux: int, uy: int, c0: int, ur: int, carry: int, p: int, half: int, ex: bool, ey: bool, er: bool)
    requires p == 2 * half
    requires 0 <= ux < p && 0 <= uy < p && 0 <= ur < p && 0 <= c0 <= 1 && 0 <= carry <= 1
    requires carry == 0 ==> ux + uy + c0 == ur
    requires carry == 1 ==> ux + uy + c0 == ur + p
    requires ex == (2 * ux >= p) && ey == (2 * uy >= p) && er == (2 * ur >= p)
    ensures var sum := (ux - if ex then p else 0) + (uy - if ey then p else 0) + c0;
            var sr := ur - if er then p else 0;
            var overflow := ex == ey && ex != er;
            && (!overflow ==> sr == sum)
            && (overflow ==> carry == (if ex then 1 else 0))
            && (overflow ==> ur - (if ex then p else 0) == sum)
  {
  }

  /** b's operand words carry the value +b or -b (with the initial carry) and the effective sign. */
  lemma OperandValue(b: BigInt, n: nat, negateB: bool)
    requires |b| <= n
    ensures IsNegative(Operand(b, n, negateB)) == (IsNegative(b) != negateB)
    ensures Signed(Operand(b, n, negateB)) + InitialCarry(negateB)
            == if negateB then -Signed(b) else Signed(b)
  {
    SignExtValue(b, n);
    if negateB {
      ComplementSigned(SignExt(b, n));
    }
  }

  /**
   * Zero extension keeps a's value and sign when a already has the full width or
   * is non-negative; this is where a shorter negative `a` goes wrong.
   */
  lemma WidenedOperand(a: BigInt, n: nat)
    requires |a| <= n && (|a| == n || !IsNegative(a))
    ensures |ZeroExt(a, n)| >= 1
    ensures IsNegative(ZeroExt(a, n)) == IsNegative(a)
    ensures Signed(ZeroExt(a, n)) == Signed(a)
  {
    if |a| == n {
      assert ZeroExt(a, n) == a;
    } else {
      ZeroExtNonNegative(a, n);
      SignExtValue(a, n);
    }
  }

  /**
   * The value of `add`: exact when a is non-negative, and exact when a is at least
   * as long as b and the overflow rule does not fire.
   */
  lemma AddExact(a: BigInt, b: BigInt, negateB: bool)
    requires !IsNegative(a) || (|a| >= |b| && !Overflowed(a, b, negateB))
    ensures Signed(AddSpec(a, b, negateB)) == Signed(a) + (if negateB then -Signed(b) else Signed(b))
  {
    var n := Max(|a|, |b|);
    var x: BigInt := ZeroExt(a, n);
    var y := Operand(b, n, negateB);
    var c0 := InitialCarry(negateB);
    var res := LoopWords(a, b, negateB);
    var carry := LoopCarry(a, b, negateB);
    var r := AddSpec(a, b, negateB);
    AddSpecCases(a, b, negateB);
    LoopValue(a, b, negateB);
    WidenedOperand(a, n);
    OperandValue(b, n, negateB);
    OverflowedIff(a, b, negateB);
    TwosComplementSum(x, y, c0, res, carry);
    if Overflowed(a, b, negateB) {
      // only a non-negative a gets here, and then the carry is the fill word 0
      assert r == res + [Fill(IsNegative(x))];
    } else {
      CanonicalisedValue(res, IsNegative(res));
      assert Signed(r) == Signed(res);
    }
    assert Signed(r) == Signed(x) + Signed(y) + c0;
  }

  /**
   * The converse of `AddExact`: for a negative a, the result is wrong whenever a
   * is shorter than b (a is widened with zero words, which adds BASE^len(a)) or
   * the overflow rule fires (the extra word is the carry, not the sign word).
   */
  lemma AddInexact(a: BigInt, b: BigInt, negateB: bool)
    requires IsNegative(a) && (|a| < |b| || Overflowed(a, b, negateB))
    ensures Signed(AddSpec(a, b, negateB)) != Signed(a) + (if negateB then -Signed(b) else Signed(b))
  {
    if Overflowed(a, b, negateB) {
      AddInexactOverflow(a, b, negateB);
    } else {
      AddInexactShort(a, b, negateB);
    }
  }

  /** On overflow the result is the loop total itself, which is above the exact sum. */
  lemma AddInexactOverflow(a: BigInt, b: BigInt, negateB: bool)
    requires IsNegative(a) && Overflowed(a, b, negateB)
    ensures Signed(AddSpec(a, b, negateB)) != Signed(a) + (if negateB then -Signed(b) else Signed(b))
  {
    var n := Max(|a|, |b|);
    var y := Operand(b, n, negateB);
    var res := LoopWords(a, b, negateB);
    var carry := LoopCarry(a, b, negateB);
    AddSpecCases(a, b, negateB);
    assert AddSpec(a, b, negateB) == res + [carry];
    UnsignedSnoc(res, carry);
    assert Msw(res + [carry]) == carry;
    LoopValue(a, b, negateB);
    ZeroExtValue(a, n);
    OperandValue(b, n, negateB);
  }

  /** Without overflow a short negative a gives a result that is not the exact sum. */
  lemma AddInexactShort(a: BigInt, b: BigInt, negateB: bool)
    requires IsNegative(a) && |a| < |b| && !Overflowed(a, b, negateB)
    ensures Signed(AddSpec(a, b, negateB)) != Signed(a) + (if negateB then -Signed(b) else Signed(b))
  {
    AddInexactShortOffset(a, b, negateB);
    PowGap(|a|, Max(|a|, |b|));
  }

  /**
   * Without overflow a short negative a leaves the result off from the exact sum
   * by BASE^len(a), less BASE^len when the result wrapped round.
   */
  lemma AddInexactShortOffset(a: BigInt, b: BigInt, negateB: bool)
    requires IsNegative(a) && |a| < |b| && !Overflowed(a, b, negateB)
    ensures var d := Signed(AddSpec(a, b, negateB)) - (Signed(a) + (if negateB then -Signed(b) else Signed(b)));
            d == Pow(|a|) || d == Pow(|a|) as int - Pow(Max(|a|, |b|))
  {
    var n := Max(|a|, |b|);
    var y := Operand(b, n, negateB);
    var res := LoopWords(a, b, negateB);
    ShortLoopFacts(a, b, negateB);
    PowGap(|a|, n);
    assert Signed(a) == Unsigned(a) - Pow(|a|);
    InexactArith(Unsigned(a), Unsigned(y), InitialCarry(negateB), Unsigned(res), LoopCarry(a, b, negateB) * Pow(n),
                 Pow(|a|), Pow(n), IsNegative(y), IsNegative(res), Signed(res), Signed(a) + Signed(y) + InitialCarry(negateB));
  }

  /** The facts about the loop words and the operand that AddInexactShortOffset's arithmetic needs. */
  lemma ShortLoopFacts(a: BigInt, b: BigInt, negateB: bool)
    requires IsNegative(a) && |a| < |b| && !Overflowed(a, b, negateB)
    ensures var n := Max(|a|, |b|);
            var y := Operand(b, n, negateB);
            var res := LoopWords(a, b, negateB);
            var cr := LoopCarry(a, b, negateB) * Pow(n);
            && Unsigned(res) + cr == Unsigned(a) + Unsigned(y) + InitialCarry(negateB)
            && (cr == 0 || cr == Pow(n))
            && (IsNegative(y) <==> 2 * Unsigned(y) >= Pow(n))
            && (IsNegative(res) <==> 2 * Unsigned(res) >= Pow(n))
            && !(IsNegative(y) && !IsNegative(res))
            && Signed(AddSpec(a, b, negateB)) == Signed(res)
            && Signed(a) + (if negateB then -Signed(b) else Signed(b)) == Signed(a) + Signed(y) + InitialCarry(negateB)
  {
    var n := Max(|a|, |b|);
    var y := Operand(b, n, negateB);
    var res := LoopWords(a, b, negateB);
    var carry := LoopCarry(a, b, negateB);
    AddSpecCases(a, b, negateB);
    assert AddSpec(a, b, negateB) == Canonicalised(res, IsNegative(res));
    CanonicalisedValue(res, IsNegative(res));
    LoopValue(a, b, negateB);
    LoopCarryBound(a, b, negateB);
    ZeroExtValue(a, n);
    OperandValue(b, n, negateB);
    OverflowedIff(a, b, negateB);
    NegativeIffUpperHalf(y);
    NegativeIffUpperHalf(res);
    CarryBit(carry, Pow(n));
  }

  /** A shorter width leaves room for at least one more word: BASE * BASE^i <= BASE^n. */
  lemma PowGap(i: nat, n: nat)
    requires i < n
    ensures BASE * Pow(i) <= Pow(n)
  {
    PowMonotone(i + 1, n);
    assert Pow(i + 1) == BASE * Pow(i);
  }

  /**
   * The arithmetic of AddInexactShortOffset: a sum whose first operand is read BASE^len(a)
   * too high, with no overflow, is off by BASE^len(a) or by BASE^len(a) - BASE^len.
   */
  lemma InexactArith(ua: int, uy: int, c0: int, ur: int, cr: int, pa: int, p: int, ny: bool, nr: bool,
                     got: int, exact: int)
    requires 0 < pa && BASE * pa <= p && (cr == 0 || cr == p)
    requires 0 <= ua < pa && 0 <= uy < p && 0 <= ur < p && 0 <= c0 <= 1
    requires ny == (2 * uy >= p) && nr == (2 * ur >= p) && !(ny && !nr)
    requires ur + cr == ua + uy + c0
    requires got == ur - (if nr then p else 0)
    requires exact == (ua - pa) + (uy - (if ny then p else 0)) + c0
    ensures got - exact == pa || got - exact == pa - p
  {
  }

  /** `add` is exact exactly when a is non-negative, or a is at least as long as b and there is no overflow. */
  lemma AddExactIff(a: BigInt, b: BigInt, negateB: bool)
    ensures Signed(AddSpec(a, b, negateB)) == Signed(a) + (if negateB then -Signed(b) else Signed(b))
            <==> !IsNegative(a) || (|a| >= |b| && !Overflowed(a, b, negateB))
  {
    if !IsNegative(a) || (|a| >= |b| && !Overflowed(a, b, negateB)) {
      AddExact(a, b, negateB);
    } else {
      AddInexact(a, b, negateB);
    }
  }

  /**
   * The overflow test in terms of the operand words: a's sign equals the sign of
   * the words added to it, and the sign of the loop words differs from it.
   */
  lemma OverflowedIff(a: BigInt, b: BigInt, negateB: bool)
    ensures var y := Operand(b, Max(|a|, |b|), negateB);
            var res := LoopWords(a, b, negateB);
            Overflowed(a, b, negateB) <==> IsNegative(a) == IsNegative(y) && IsNegative(a) != IsNegative(res)
  {
    OperandValue(b, Max(|a|, |b|), negateB);
  }

  /** On overflow the extra word, the final carry, is the sign bit of a: 0 or 1, never all ones. */
  lemma AddOverflowWord(a: BigInt, b: BigInt, negateB: bool)
    requires Overflowed(a, b, negateB)
    ensures LoopCarry(a, b, negateB) == HiBit(Msw(a))
    ensures AddSpec(a, b, negateB) == LoopWords(a, b, negateB) + [HiBit(Msw(a))]
  {
    var n := Max(|a|, |b|);
    var x: BigInt := ZeroExt(a, n);
    var y := Operand(b, n, negateB);
    var res := LoopWords(a, b, negateB);
    AddSpecCases(a, b, negateB);
    LoopValue(a, b, negateB);
    OverflowedIff(a, b, negateB);
    if !IsNegative(a) {
      WidenedOperand(a, n);
      TwosComplementSum(x, y, InitialCarry(negateB), res, LoopCarry(a, b, negateB));
    } else {
      // the operand is negative and the loop words are not: the total wrapped
      NegativeIffUpperHalf(y);
      NegativeIffUpperHalf(res);
    }
  }

  /**
   * The shape of `add`'s result: canonical; one word longer than the longer
   * operand exactly when the overflow rule fires, and otherwise no longer than it.
   */
  lemma AddShape(a: BigInt, b: BigInt, negateB: bool)
    ensures Canonical(AddSpec(a, b, negateB))
    ensures |AddSpec(a, b, negateB)| == Max(|a|, |b|) + 1 <==> Overflowed(a, b, negateB)
    ensures |AddSpec(a, b, negateB)| <= Max(|a|, |b|) + 1
  {
    var res := LoopWords(a, b, negateB);
    if Overflowed(a, b, negateB) {
      AddOverflowWord(a, b, negateB);
      assert (res + [HiBit(Msw(a))])[|res| - 1] == Msw(res);
    } else {
      CanonicalisedValue(res, IsNegative(res));
    }
  }

  /** `add(a, a, 1)` is the single word 0 for every a. */
  lemma SubtractSelf(a: BigInt)
    ensures AddSpec(a, a, true) == [0]
  {
    AddExact(a, a, true);
    AddShape(a, a, true);
    CanonicalZero(AddSpec(a, a, true));
  }

  /** Adding the canonical zero gives back a canonical a. */
  lemma AddZero(a: BigInt)
    requires Canonical(a)
    ensures AddSpec(a, [0], false) == a
  {
    AddExact(a, [0], false);
    AddShape(a, [0], false);
    CanonicalUnique(AddSpec(a, [0], false), a);
  }

  /** Commutativity of the plain add holds for non-negative operands. */
  lemma AddCommutesNonNegative(a: BigInt, b: BigInt)
    requires !IsNegative(a) && !IsNegative(b)
    ensures AddSpec(a, b, false) == AddSpec(b, a, false)
  {
    AddExact(a, b, false);
    AddExact(b, a, false);
    AddShape(a, b, false);
    AddShape(b, a, false);
    CanonicalUnique(AddSpec(a, b, false), AddSpec(b, a, false));
  }

  /** For a non-negative a, subtracting b is adding the negation `add(0, b, 1)` of b. */
  lemma SubtractIsAddNegation(a: BigInt, b: BigInt)
    requires !IsNegative(a)
    ensures AddSpec(a, b, true) == AddSpec(a, AddSpec([0], b, true), false)
  {
    var nb := AddSpec([0], b, true);
    AddExact([0], b, true);
    AddExact(a, nb, false);
    AddExact(a, b, true);
    AddShape(a, nb, false);
    AddShape(a, b, true);
    CanonicalUnique(AddSpec(a, b, true), AddSpec(a, nb, false));
  }

  /** -1 + 128 gives 383: the one-word -1 is widened with a zero word (bigint.c:95-98). */
  lemma ShortNegativeOperand()
    ensures Canonical([0xFF]) && Canonical([0x80, 0x00])
    ensures AddSpec([0xFF], [0x80, 0x00], false) == [0x7F, 0x01]
    ensures Signed([0x7F, 0x01]) == 383 != -1 + 128
  {
    assert ZeroExt([0xFF], 2) == [0xFF, 0x00];
    assert SignExt([0x80, 0x00], 2) == [0x80, 0x00];
    assert LoopTotal([0xFF], [0x80, 0x00], false) == 383;
    assert LoopWords([0xFF], [0x80, 0x00], false) == [0x7F, 0x01];
    assert TrimFill([0x7F, 0x01], false) == [0x7F, 0x01];
  }

  /**
   * -1 - 128 gives 65663: in the negated loop the one-word -1 is widened with a
   * zero word as well (bigint.c:73-76), and the overflow rule then fires.
   */
  lemma ShortNegativeOperandNegated()
    ensures Canonical([0xFF]) && Canonical([0x80, 0x00])
    ensures AddSpec([0xFF], [0x80, 0x00], true) == [0x7F, 0x00, 0x01]
    ensures Signed([0x7F, 0x00, 0x01]) == 65663 != -1 - 128
  {
    assert ZeroExt([0xFF], 2) == [0xFF, 0x00];
    assert SignExt([0x80, 0x00], 2) == [0x80, 0x00];
    assert Complement([0x80, 0x00]) == [0x7F, 0xFF];
    assert Unsigned([0x7F, 0xFF]) == 65407 && Unsigned([0xFF, 0x00]) == 255;
    assert LoopTotal([0xFF], [0x80, 0x00], true) == 65663;
    assert LoopWords([0xFF], [0x80, 0x00], true) == [0x7F, 0x00];
    assert LoopCarry([0xFF], [0x80, 0x00], true) == 1;
    assert Unsigned([0x7F, 0x00, 0x01]) == 65663;
  }

  /** 128 + -1 gives 127, so the two orders of the previous sum disagree. */
  lemma NotCommutative()
    ensures AddSpec([0x80, 0x00], [0xFF], false) == [0x7F]
    ensures AddSpec([0x80, 0x00], [0xFF], false) != AddSpec([0xFF], [0x80, 0x00], false)
  {
    ShortNegativeOperand();
    assert ZeroExt([0x80, 0x00], 2) == [0x80, 0x00];
    assert SignExt([0xFF], 2) == [0xFF, 0xFF];
    assert Unsigned([0xFF, 0xFF]) == 65535 && Unsigned([0x80, 0x00]) == 128;
    assert LoopTotal([0x80, 0x00], [0xFF], false) == 65663;
    assert LoopWords([0x80, 0x00], [0xFF], false) == [0x7F, 0x00];
    assert TrimFill([0x7F, 0x00], false) == [0x7F];
  }

  /** -128 + -128 gives 256: the overflow word is the carry 1 where all ones was needed (bigint.c:109). */
  lemma NegativeOverflow()
    ensures AddSpec([0x80], [0x80], false) == [0x00, 0x01]
    ensures Signed([0x00, 0x01]) == 256 != -128 + -128
  {
    assert ZeroExt([0x80], 1) == [0x80];
    assert SignExt([0x80], 1) == [0x80];
    assert LoopTotal([0x80], [0x80], false) == 256;
    assert LoopWords([0x80], [0x80], false) == [0x00];
    assert LoopCarry([0x80], [0x80], false) == 1;
  }

  /**
   * Addition of two words of equal width with the overflow rule on their own sign
   * bits: the low words of the total, grown by one fill word of x's sign on
   * overflow and canonicalised otherwise.
   */
  function SameWidthSum(x: BigInt, y: BigInt, c0: nat): (r: BigInt)
    requires |x| == |y|
  {
    var res: BigInt := ToWords(Unsigned(x) + Unsigned(y) + c0, |x|);
    if IsNegative(x) == IsNegative(y) && IsNegative(x) != IsNegative(res) then res + [Fill(IsNegative(x))]
    else Canonicalised(res, IsNegative(res))
  }

  lemma SameWidthSumExact(x: BigInt, y: BigInt, c0: nat)
    requires |x| == |y| && c0 <= 1
    ensures Signed(SameWidthSum(x, y, c0)) == Signed(x) + Signed(y) + c0
    ensures Canonical(SameWidthSum(x, y, c0))
  {
    var total := Unsigned(x) + Unsigned(y) + c0;
    var res: BigInt := ToWords(total, |x|);
    var overflow := IsNegative(x) == IsNegative(y) && IsNegative(x) != IsNegative(res);
    assert SameWidthSum(x, y, c0) == if overflow then res + [Fill(IsNegative(x))] else Canonicalised(res, IsNegative(res));
    var carry := HighPart(total, |x|);
    ToWordsValue(total, |x|);
    TwosComplementSum(x, y, c0, res, carry);
    if overflow {
      GrownCanonical(res, IsNegative(x));
    } else {
      CanonicalisedValue(res, IsNegative(res));
    }
  }

  /** One word of the opposite sign on top of res is a canonical top word. */
  lemma GrownCanonical(res: BigInt, negative: bool)
    requires IsNegative(res) != negative
    ensures Canonical(res + [Fill(negative)])
  {
    assert (res + [Fill(negative)])[|res| - 1] == Msw(res);
  }

  /**
   * The repaired algorithm: the shorter `a` is widened with its own sign, like b,
   * and the word added on overflow is the sign extension of a. The overflow rule
   * reads the same sign bits as bigint.c:80-82 and bigint.c:101-103, since the
   * widened a has a's sign and the operand words have b's sign, flipped when b is
   * negated.
   */
  function AddCorrected(a: BigInt, b: BigInt, negateB: bool): (r: BigInt)
  {
    var n := Max(|a|, |b|);
    SameWidthSum(SignExt(a, n), Operand(b, n, negateB), InitialCarry(negateB))
  }

  /** The repaired add is exact and canonical for all operands. */
  lemma AddCorrectedExact(a: BigInt, b: BigInt, negateB: bool)
    ensures Signed(AddCorrected(a, b, negateB)) == Signed(a) + (if negateB then -Signed(b) else Signed(b))
    ensures Canonical(AddCorrected(a, b, negateB))
  {
    var n := Max(|a|, |b|);
    SignExtValue(a, n);
    OperandValue(b, n, negateB);
    SameWidthSumExact(SignExt(a, n), Operand(b, n, negateB), InitialCarry(negateB));
  }

  /** Where the as-written add is exact, the repaired add gives the very same words. */
  lemma AddCorrectedAgrees(a: BigInt, b: BigInt, negateB: bool)
    requires !IsNegative(a) || (|a| >= |b| && !Overflowed(a, b, negateB))
    ensures AddCorrected(a, b, negateB) == AddSpec(a, b, negateB)
  {
    AddExact(a, b, negateB);
    AddShape(a, b, negateB);
    AddCorrectedExact(a, b, negateB);
    CanonicalUnique(AddCorrected(a, b, negateB), AddSpec(a, b, negateB));
  }

  lemma AddCorrectedCommutes(a: BigInt, b: BigInt)
    ensures AddCorrected(a, b, false) == AddCorrected(b, a, false)
  {
    AddCorrectedExact(a, b, false);
    AddCorrectedExact(b, a, false);
    CanonicalUnique(AddCorrected(a, b, false), AddCorrected(b, a, false));
  }

  lemma AddCorrectedZero(a: BigInt)
    requires Canonical(a)
    ensures AddCorrected(a, [0], false) == a
  {
    AddCorrectedExact(a, [0], false);
    CanonicalUnique(AddCorrected(a, [0], false), a);
  }

  lemma AddCorrectedSubtract(a: BigInt, b: BigInt)
    ensures AddCorrected(a, b, true) == AddCorrected(a, AddCorrected([0], b, true), false)
  {
    var nb := AddCorrected([0], b, true);
    AddCorrectedExact([0], b, true);
    AddCorrectedExact(a, nb, false);
    AddCorrectedExact(a, b, true);
    CanonicalUnique(AddCorrected(a, b, true), AddCorrected(a, nb, false));
  }

  /**
   * The running equation of the word loops after the first |words| words: those
   * result words and the carry make the sum of the first |words| words of x and
   * y and the initial carry.
   */
  ghost predicate Running(words: seq<Word>, carry: nat, x: seq<Word>, y: seq<Word>, c0: nat)
    requires |words| <= |x| && |words| <= |y|
  {
    Unsigned(words) + carry * Pow(|words|) == Unsigned(x[..|words|]) + Unsigned(y[..|words|]) + c0
  }

  /** One carry step: the word sum of the next words of x and y and the carry keeps the running equation. */
  lemma CarryStep(rs: seq<Word>, xs: seq<Word>, ys: seq<Word>, c0: nat, cin: nat, w: Word, cout: nat)
    requires |rs| < |xs| == |ys|
    requires Running(rs, cin, xs, ys, c0)
    requires xs[|rs|] + ys[|rs|] + cin == w + cout * BASE
    ensures Running(rs + [w], cout, xs, ys, c0)
  {
    var i := |rs|;
    var p := Pow(i);
    assert xs[..i + 1] == xs[..i] + [xs[i]];
    assert ys[..i + 1] == ys[..i] + [ys[i]];
    UnsignedSnoc(rs, w);
    UnsignedSnoc(xs[..i], xs[i]);
    UnsignedSnoc(ys[..i], ys[i]);
    assert Pow(i + 1) == BASE * p;
    StepArith(Unsigned(rs), Unsigned(xs[..i]), Unsigned(ys[..i]), c0, cin, xs[i], ys[i], w, cout, p);
  }

  lemma StepArith(ur: int, ux: int, uy: int, c0: int, cin: int, x: int, y: int, w: int, cout: int, p: int)
    requires ur + cin * p == ux + uy + c0
    requires x + y + cin == w + cout * BASE
    ensures ur + w * p + cout * (BASE * p) == ux + x * p + (uy + y * p) + c0
  {
    calc {
      w * p + cout * (BASE * p);
      (w + cout * BASE) * p;
      (x + y + cin) * p;
      x * p + y * p + cin * p;
    }
  }

  /** Word i of the widened a: a's word, or a zero word past a's end (the loops over b's leftovers pass 0). */
  lemma ZeroExtAt(a: BigInt, n: nat, i: nat)
    requires |a| <= n && i < n
    ensures ZeroExt(a, n)[i] == if i < |a| then a[i] else 0
  {
  }

  /**
   * Word i of the operand: `~b->data[i]` or `b->data[i]` within b, and past b's
   * end the fill word of b's sign, inverted when b is negated (`(WordType)-!signb`).
   */
  lemma OperandAt(b: BigInt, n: nat, negateB: bool, i: nat)
    requires |b| <= n && i < n
    ensures Operand(b, n, negateB)[i] ==
            if i < |b| then (if negateB then Not(b[i]) else b[i])
            else Fill(IsNegative(b) != negateB)
  {
    var e := SignExt(b, n);
    assert e[i] == if i < |b| then b[i] else Fill(IsNegative(b));
  }

  /** Words and a carry that satisfy the loops' running equation at the end are the loop words and the final carry. */
  lemma LoopResult(a: BigInt, b: BigInt, negateB: bool, words: seq<Word>, carry: nat)
    requires |words| == Max(|a|, |b|)
    requires Running(words, carry, ZeroExt(a, |words|), Operand(b, |words|, negateB), InitialCarry(negateB))
    ensures words == LoopWords(a, b, negateB) && carry == LoopCarry(a, b, negateB)
  {
    var n := |words|;
    assert ZeroExt(a, n)[..n] == ZeroExt(a, n) && Operand(b, n, negateB)[..n] == Operand(b, n, negateB);
    ToWordsUnique(words, carry, LoopTotal(a, b, negateB));
  }

  /**
   * The words the loops of `add` add, given word by word: x is a's words widened
   * with zeros (the loops over b's leftovers pass 0 for a), and y is b's words,
   * inverted when b is negated, widened with the fill word of b's sign, itself
   * inverted when b is negated.
   */
  ghost predicate LoopOperands(a: BigInt, b: BigInt, negateB: bool, x: seq<Word>, y: seq<Word>)
  {
    && |x| == |y| == Max(|a|, |b|)
    && (forall i :: 0 <= i < |x| ==> x[i] == if i < |a| then a[i] else 0)
    && (forall i :: 0 <= i < |y| ==>
          y[i] == if i < |b| then (if negateB then Not(b[i]) else b[i]) else Fill(IsNegative(b) != negateB))
  }

  lemma LoopOperandsHold(a: BigInt, b: BigInt, negateB: bool)
    ensures var n := Max(|a|, |b|);
            LoopOperands(a, b, negateB, ZeroExt(a, n), Operand(b, n, negateB))
  {
    var n := Max(|a|, |b|);
    forall i | 0 <= i < n
      ensures ZeroExt(a, n)[i] == if i < |a| then a[i] else 0
      ensures Operand(b, n, negateB)[i] ==
              if i < |b| then (if negateB then Not(b[i]) else b[i]) else Fill(IsNegative(b) != negateB)
    {
      ZeroExtAt(a, n, i);
      OperandAt(b, n, negateB, i);
    }
  }

  /** The first loop of `add` (bigint.c:63-65, bigint.c:85-87): the words a and b both have. */
  method AddCommonWords(a: BigInt, b: BigInt, negateB: bool, ghost x: seq<Word>, ghost y: seq<Word>, res: array<Word>)
      returns (carry: nat)
    requires LoopOperands(a, b, negateB, x, y) && res.Length == |x|
    modifies res
    ensures carry <= 1
    ensures Running(res[..Min(|a|, |b|)], carry, x, y, InitialCarry(negateB))
  {
    var upTo := Min(|a|, |b|);
    carry := if negateB then 1 else 0;
    ghost var done: seq<Word> := [];
    var i := 0;
    while i < upTo
      invariant 0 <= i <= upTo && carry <= 1
      invariant |done| == i && forall k :: 0 <= k < i ==> res[k] == done[k]
      invariant Running(done, carry, x, y, InitialCarry(negateB))
    {
      var s := AddAndCarry(a[i], if negateB then Not(b[i]) else b[i], carry);
      CarryStep(done, x, y, InitialCarry(negateB), carry, s.word, s.carry);
      res[i] := s.word;
      done := done + [s.word];
      carry := s.carry;
      i := i + 1;
    }
    assert res[..upTo] == done;
  }

  /**
   * The second loop of `add` (bigint.c:67-71, bigint.c:89-93): a's leftover words
   * against b's fill word, `(WordType)-signb`, or `(WordType)-!signb` when b is
   * negated. Afterwards the first len a words are done.
   */
  method AddLeftoversOfA(a: BigInt, b: BigInt, negateB: bool, ghost x: seq<Word>, ghost y: seq<Word>,
                         res: array<Word>, carryIn: nat)
      returns (carry: nat)
    requires LoopOperands(a, b, negateB, x, y) && res.Length == |x|
    requires carryIn <= 1 && Running(res[..Min(|a|, |b|)], carryIn, x, y, InitialCarry(negateB))
    modifies res
    ensures carry <= 1
    ensures Running(res[..|a|], carry, x, y, InitialCarry(negateB))
  {
    var signB := HiBit(b[|b| - 1]) == 1;
    var i := Min(|a|, |b|);
    carry := carryIn;
    ghost var done: seq<Word> := res[..i];
    while i < |a|
      invariant Min(|a|, |b|) <= i <= |a| && carry <= 1
      invariant |done| == i && forall k :: 0 <= k < i ==> res[k] == done[k]
      invariant Running(done, carry, x, y, InitialCarry(negateB))
    {
      var s := AddAndCarry(a[i], if negateB then Fill(!signB) else Fill(signB), carry);
      CarryStep(done, x, y, InitialCarry(negateB), carry, s.word, s.carry);
      res[i] := s.word;
      done := done + [s.word];
      carry := s.carry;
      i := i + 1;
    }
    assert res[..|a|] == done;
  }

  /**
   * The third loop of `add` (bigint.c:73-76, bigint.c:95-98): b's leftover words
   * against a zero word for a. Afterwards all max(len a, len b) words are done.
   */
  method AddLeftoversOfB(a: BigInt, b: BigInt, negateB: bool, ghost x: seq<Word>, ghost y: seq<Word>,
                         res: array<Word>, carryIn: nat)
      returns (carry: nat)
    requires LoopOperands(a, b, negateB, x, y) && res.Length == |x|
    requires carryIn <= 1 && Running(res[..|a|], carryIn, x, y, InitialCarry(negateB))
    modifies res
    ensures carry <= 1
    ensures Running(res[..], carry, x, y, InitialCarry(negateB))
  {
    var i := |a|;
    carry := carryIn;
    ghost var done: seq<Word> := res[..i];
    while i < |b|
      invariant |a| <= i <= res.Length && carry <= 1
      invariant |done| == i && forall k :: 0 <= k < i ==> res[k] == done[k]
      invariant Running(done, carry, x, y, InitialCarry(negateB))
    {
      var s := AddAndCarry(0, if negateB then Not(b[i]) else b[i], carry);
      CarryStep(done, x, y, InitialCarry(negateB), carry, s.word, s.carry);
      res[i] := s.word;
      done := done + [s.word];
      carry := s.carry;
      i := i + 1;
    }
    assert res[..] == done;
  }

  /**
   * `add` as the C code runs it: the word loops, the overflow test on the sign
   * bits, and then either one more word holding the final carry or the shared
   * canonicalisation.
   */
  method Add(a: BigInt, b: BigInt, negateB: bool) returns (r: BigInt)
    ensures r == AddSpec(a, b, negateB)
    ensures Canonical(r)
    ensures Overflowed(a, b, negateB) ==> |r| == Max(|a|, |b|) + 1 && r[|r| - 1] == HiBit(Msw(a))
    ensures !Overflowed(a, b, negateB) ==> |r| <= Max(|a|, |b|)
    ensures !IsNegative(a) || (|a| >= |b| && !Overflowed(a, b, negateB)) ==>
              Signed(r) == Signed(a) + (if negateB then -Signed(b) else Signed(b))
  {
    var len := Max(|a|, |b|);
    ghost var x := ZeroExt(a, len);
    ghost var y := Operand(b, len, negateB);
    LoopOperandsHold(a, b, negateB);
    var res := new Word[len];
    var carry := AddCommonWords(a, b, negateB, x, y, res);
    carry := AddLeftoversOfA(a, b, negateB, x, y, res, carry);
    carry := AddLeftoversOfB(a, b, negateB, x, y, res, carry);
    LoopResult(a, b, negateB, res[..], carry);
    ghost var sum: BigInt := res[..];
    var overflowed := OverflowTest(a, b, negateB, res[..]);
    AddSpecCases(a, b, negateB);
    if overflowed {
      // the buffer grows by one word, which holds the final carry
      r := res[..] + [carry];
    } else {
      var negative := HiBit(res[len - 1]) == 1;
      assert negative == IsNegative(sum);
      CanonicalisedValue(sum, negative);
      var n, fits := Canonicalise(res, negative);
      assert fits;
      r := res[..n];
    }
    AddShape(a, b, negateB);
    if overflowed {
      AddOverflowWord(a, b, negateB);
    }
    if !IsNegative(a) || (|a| >= |b| && !overflowed) {
      AddExact(a, b, negateB);
    }
  }
}
