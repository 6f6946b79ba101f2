/**
 * Machine words of the big integer and the one arithmetic primitive on them.
 *
 * The word width is fixed at 8 bits (the default WORD_BIT_SIZE), so a word is a
 * byte and BASE is 256. Every word operation of the C code (`~`, `<<`, the cast
 * `(WordType)-x`) is a truncating store, written out here modulo BASE.
 */
module Words {

  const WORD_BITS: nat := 8
  const BASE: nat := 256

  type Word = w: int | 0 <= w < 256

  /** 2^k. */
  function Pow2(k: nat): (p: nat)
    ensures p >= 1
  {
    if k == 0 then 1 else 2 * Pow2(k - 1)
  }

  /** HI_BIT: the sign bit of a word, 0 or 1. */
  function HiBit(w: Word): (b: nat)
    ensures b <= 1
    ensures b == 1 <==> w >= BASE / 2
  {
    w / 128  // w >> (WORD_BITS - 1)
  }

  /** HI_3_BITS: the three most significant bits of a word, 0 to 7. */
  function Hi3Bits(w: Word): (b: nat)
    ensures b <= 7
  {
    w / 32  // w >> (WORD_BITS - 3)
  }

  /** `w << k` stored back into a word: the bits shifted out of the top are lost. */
  function ShiftLeft(w: Word, k: nat): (r: Word)
  {
    (w * Pow2(k)) % BASE
  }

  /** `~w`: every bit of the word inverted. */
  function Not(w: Word): (r: Word)
    ensures r + w == BASE - 1
    ensures HiBit(r) == 1 - HiBit(w)
    ensures Hi3Bits(r) == 7 - Hi3Bits(w)
  {
    BASE - 1 - w
  }

  /** `(WordType)-negative`: the sign-extension word, all ones for a negative value and all zeros otherwise. */
  function Fill(negative: bool): (w: Word)
    ensures HiBit(w) == 1 <==> negative
  {
    if negative then BASE - 1 else 0
  }

  /**
   * Inverting twice gives the word back, and the complement of one fill word is
   * the other: `(WordType)-!negative` is `~` of `(WordType)-negative`.
   */
  lemma NotProps(w: Word)
    ensures Not(Not(w)) == w
    ensures Not(Fill(true)) == Fill(false) && Not(Fill(false)) == Fill(true)
  {
  }

  /** A word written through `addAndCarry`'s out-pointer together with the carry it returns. */
  datatype WordSum = WordSum(word: Word, carry: nat)

  /**
   * addAndCarry: `a + b` and then `+ c`, each truncated to a word; the carry-out is
   * the number of the two additions that wrapped around.
   */
  function AddAndCarry(a: Word, b: Word, c: Word): (s: WordSum)
    ensures a + b + c == s.word + s.carry * BASE
    ensures s.carry <= 2
    ensures c <= 1 ==> s.carry <= 1
  {
    var ab := (a + b) % BASE;
    var abc := (ab + c) % BASE;
    WordSum(abc, (if ab < a then 1 else 0) + (if abc < ab then 1 else 0))
  }

  /**
   * One word of the in-place `x := 10 * x + c`: `(x << 3) + (x << 1) + c` through
   * `addAndCarry`, with the bits that the two shifts push out of the word
   * (HI_3_BITS and HI_BIT of the old word) added to the carry. The new word and
   * the new carry are exactly the low word and the high part of `10 * x + c`.
   */
  lemma TimesTenWord(x: Word, c: Word)
    ensures var s := AddAndCarry(ShiftLeft(x, 3), ShiftLeft(x, 1), c);
            10 * x + c == s.word + BASE * (Hi3Bits(x) + HiBit(x) + s.carry)
            && Hi3Bits(x) + HiBit(x) + s.carry <= 10
  {
    ShiftOutThree(x);
    ShiftOutOne(x);
  }

  /** `x << 3` keeps the low five bits of x, shifted; HI_3_BITS is what falls out of the word. */
  lemma ShiftOutThree(x: Word)
    ensures 8 * x == ShiftLeft(x, 3) + BASE * Hi3Bits(x)
  {
    assert Pow2(3) == 8;
    var q, r := x / 32, x % 32;
    WordSplit(8 * x, q, 8 * r);
  }

  /** `x << 1` keeps the low seven bits of x, shifted; HI_BIT is what falls out of the word. */
  lemma ShiftOutOne(x: Word)
    ensures 2 * x == ShiftLeft(x, 1) + BASE * HiBit(x)
  {
    assert Pow2(1) == 2;
    var q, r := x / 128, x % 128;
    WordSplit(2 * x, q, 2 * r);
  }

  /** A number written as BASE * q + r with a word-sized r has r as its low word and q above it. */
  lemma WordSplit(v: int, q: int, r: int)
    requires v == BASE * q + r && 0 <= r < BASE
    ensures v % BASE == r && v / BASE == q
  {
  }
}
