/**
 * `fromStr` (bigint.c:131-189): a decimal string, optionally starting with '-',
 * parsed into a buffer of `cap` words sized from the string length. Each digit
 * multiplies the buffer by ten and adds the digit in place; a negative number is
 * then negated in place, and the buffer is canonicalised like the result of
 * `add`.
 *
 * A string is the characters before its terminating NUL. The two asserts of the
 * C code that can fail become errors: a character that is not a digit
 * (bigint.c:146), and a re-appended sign word with no slot left in the buffer
 * (bigint.c:180). The third assert, no carry out of the top word (bigint.c:161),
 * is proved to hold.
 */
module Decimal {
  import opened Words
  import opened Representation
  import opened Canon
  import opened Addition

  predicate IsDigit(ch: char)
  {
    '0' <= ch <= '9'
  }

  /** `*c - '0'`. */
  function DigitValue(ch: char): (d: Word)
    requires IsDigit(ch)
    ensures d <= 9
  {
    ch as int - '0' as int
  }

  predicate AllDigits(s: string)
  {
    forall i :: 0 <= i < |s| ==> IsDigit(s[i])
  }

  /** The number the digits spell, most significant digit first. */
  function DecimalValue(s: string): (r: nat)
    requires AllDigits(s)
  {
    if s == [] then 0 else 10 * DecimalValue(s[..|s| - 1]) + DigitValue(s[|s| - 1])
  }

  /** 10^k. */
  function Pow10(k: nat): (p: nat)
    ensures p >= 1
  {
    if k == 0 then 1 else 10 * Pow10(k - 1)
  }

  /** `cap = 1 + TO_LOGB2(strlen(str)) / WORD_BITS` with `TO_LOGB2(a) = a * 7 / 2` (bigint.c:134-135). */
  function Capacity(length: nat): (cap: nat)
    ensures cap >= 1
  {
    1 + (length * 7 / 2) / WORD_BITS
  }

  /** Why parsing can fail: the asserts at bigint.c:146 and bigint.c:180. */
  datatype ParseError = NotADigit | NoRoomForSignWord

  datatype ParseResult = Ok(value: BigInt) | Err(error: ParseError)

  /** Whether the string starts with the minus sign (bigint.c:141-144). */
  predicate HasMinus(str: string)
  {
    |str| > 0 && str[0] == '-'
  }

  /** The characters after the optional minus sign. */
  function DigitsOf(str: string): (r: string)
  {
    if HasMinus(str) then str[1..] else str
  }

  /**
   * What `fromStr` returns: the decimal value in `cap` words, negated when the
   * string starts with '-', canonicalised with the sign the string asks for.
   */
  function FromStrSpec(str: string): (r: ParseResult)
  {
    var negative := HasMinus(str);
    var digits := DigitsOf(str);
    if !AllDigits(digits) then Err(NotADigit)
    else
      var cap := Capacity(|str|);
      var magnitude := ToWords(DecimalValue(digits), cap);
      var data := if negative then Negated(magnitude) else magnitude;
      var r := Canonicalised(data, negative);
      if |r| > cap then Err(NoRoomForSignWord) else Ok(r)
  }

  // ---------------------------------------------------------------------------
  // Buffer sizing

  lemma {:induction false} DecimalBound(s: string)
    requires AllDigits(s)
    ensures DecimalValue(s) < Pow10(|s|)
  {
    if s != [] {
      DecimalBound(s[..|s| - 1]);
    }
  }

  lemma {:induction false} Pow10Monotone(i: nat, j: nat)
    requires i <= j
    ensures Pow10(i) <= Pow10(j)
  {
    if i < j {
      Pow10Monotone(i, j - 1);
    }
  }

  /** log2(10) < 7/2: ten to the k is at most two to the floor of 7k/2, for every k except 1. */
  lemma {:induction false} TenPowBound(k: nat)
    requires k != 1
    ensures Pow10(k) <= Pow2(k * 7 / 2)
  {
    if k == 2 {
      assert Pow10(2) == 100;
      assert Pow2(7) == 128;
    } else if k == 3 {
      assert Pow10(3) == 1000;
      Pow2Add(7, 3);
      assert Pow2(7) == 128 && Pow2(3) == 8;
    } else if k >= 4 {
      TenPowBound(k - 2);
      assert k * 7 / 2 == (k - 2) * 7 / 2 + 7;
      Pow2Add((k - 2) * 7 / 2, 7);
      assert Pow2(7) == 128;
    }
  }

  /**
   * The buffer is large enough: twice ten to the length of the string fits in
   * `cap` words. So a value of that many digits is below half of BASE^cap.
   */
  lemma CapacityBound(length: nat)
    ensures 2 * Pow10(length) <= Pow(Capacity(length))
  {
    var cap := Capacity(length);
    PowIsPow2(cap);
    if length == 1 {
      assert cap == 1 && Pow(1) == BASE;
    } else {
      TenPowBound(length);
      var f := length * 7 / 2;
      assert WORD_BITS * cap >= f + 1;
      Pow2Monotone(f + 1, WORD_BITS * cap);
    }
  }

  /** The digits of a string are a value below half of BASE^cap. */
  lemma DigitsFit(str: string)
    requires AllDigits(DigitsOf(str))
    ensures 2 * DecimalValue(DigitsOf(str)) < Pow(Capacity(|str|))
  {
    DecimalBound(DigitsOf(str));
    Pow10Monotone(|DigitsOf(str)|, |str|);
    CapacityBound(|str|);
  }

  // ---------------------------------------------------------------------------
  // What fromStr returns

  /** The magnitude words, and their negation, carry the value and sign the string asks for. */
  lemma SignedData(m: nat, cap: nat, negative: bool)
    requires cap >= 1 && 2 * m < Pow(cap)
    ensures var magnitude: BigInt := ToWords(m, cap);
            var data: BigInt := if negative then Negated(magnitude) else magnitude;
            && (negative && m == 0 ==> data == magnitude && Unsigned(data) == 0 && Msw(data) == 0)
            && (negative && m > 0 ==> IsNegative(data) && Signed(data) == -(m as int))
            && (!negative ==> !IsNegative(data) && Signed(data) == m)
  {
    var magnitude: BigInt := ToWords(m, cap);
    ValueRoundTrip(m, cap);
    NegativeIffUpperHalf(magnitude);
    if negative {
      var data: BigInt := Negated(magnitude);
      NegatedValue(magnitude);
      NegativeIffUpperHalf(data);
      if m == 0 {
        ZeroMsw(data);
        UnsignedInjective(data, magnitude);
      }
    }
  }

  /**
   * `fromStr` succeeds exactly on the digit strings other than a minus sign
   * followed by digits of value zero ("-", "-0", "-00", ...); on success its
   * result is canonical, fits in `cap` words, and is the decimal value, negated
   * when the string starts with '-'.
   */
  lemma FromStrCorrect(str: string)
    ensures FromStrSpec(str) == Err(NotADigit) <==> !AllDigits(DigitsOf(str))
    ensures FromStrSpec(str) == Err(NoRoomForSignWord) <==>
              AllDigits(DigitsOf(str)) && HasMinus(str) && DecimalValue(DigitsOf(str)) == 0
    ensures FromStrSpec(str).Ok? ==>
              var m := DecimalValue(DigitsOf(str));
              && Canonical(FromStrSpec(str).value)
              && |FromStrSpec(str).value| <= Capacity(|str|)
              && Signed(FromStrSpec(str).value) == if HasMinus(str) then -(m as int) else m
  {
    if AllDigits(DigitsOf(str)) {
      DigitsFit(str);
      SpecData(DecimalValue(DigitsOf(str)), Capacity(|str|), HasMinus(str));
    }
  }

  /**
   * Canonicalising on the minus sign keeps the signed value, except for a negated
   * zero: its sign bit is 0, and the re-appended all-ones word needs a slot
   * beyond the buffer.
   */
  lemma SpecData(m: nat, cap: nat, negative: bool)
    requires cap >= 1 && 2 * m < Pow(cap)
    ensures var magnitude: BigInt := ToWords(m, cap);
            var data: BigInt := if negative then Negated(magnitude) else magnitude;
            var r := Canonicalised(data, negative);
            && (|r| > cap <==> negative && m == 0)
            && (|r| <= cap ==> Signed(r) == if negative then -(m as int) else m)
  {
    var magnitude: BigInt := ToWords(m, cap);
    var data: BigInt := if negative then Negated(magnitude) else magnitude;
    SignedData(m, cap, negative);
    if negative && m == 0 {
      assert TrimFill(data, true) == data;
    } else {
      CanonicalisedValue(data, negative);
    }
  }

  // ---------------------------------------------------------------------------
  // The in-place loops

  /** The running equation of the word loop of one digit, after the first i words. */
  ghost predicate TimesTenRunning(done: seq<Word>, carry: nat, s0: seq<Word>, digit: nat)
    requires |done| <= |s0|
  {
    Unsigned(done) + carry * Pow(|done|) == 10 * Unsigned(s0[..|done|]) + digit
  }

  /** One word of `x := 10 * x + digit` keeps the running equation. */
  lemma TimesTenStep(done: seq<Word>, s0: seq<Word>, digit: nat, cin: nat, w: Word, cout: nat)
    requires |done| < |s0|
    requires TimesTenRunning(done, cin, s0, digit)
    requires 10 * s0[|done|] + cin == w + BASE * cout
    ensures TimesTenRunning(done + [w], cout, s0, digit)
  {
    var i := |done|;
    assert s0[..i + 1] == s0[..i] + [s0[i]];
    UnsignedSnoc(done, w);
    UnsignedSnoc(s0[..i], s0[i]);
    assert Pow(i + 1) == BASE * Pow(i);
    TimesTenArith(Unsigned(done), Unsigned(s0[..i]), digit, cin, s0[i], w, cout, Pow(i));
  }

  lemma TimesTenArith(ud: int, us: int, digit: int, cin: int, x: int, w: int, cout: int, p: int)
    requires ud + cin * p == 10 * us + digit
    requires 10 * x + cin == w + BASE * cout
    ensures ud + w * p + cout * (BASE * p) == 10 * (us + x * p) + digit
  {
    calc {
      w * p + cout * (BASE * p);
      (w + BASE * cout) * p;
      (10 * x + cin) * p;
      10 * (x * p) + cin * p;
    }
  }

  /**
   * One digit: `data := 10 * data + digit` in place (bigint.c:149-161). The first
   * word takes the digit as its carry-in, every higher word the carry of the word
   * below; the bits that `<< 3` and `<< 1` push out of a word go to the carry.
   * The caller's sizing makes the result fit, so the final carry is 0, which is
   * the assert at bigint.c:161.
   */
  method TimesTenPlus(data: array<Word>, digit: Word)
    requires data.Length >= 1 && 10 * Unsigned(data[..]) + digit < Pow(data.Length)
    modifies data
    ensures Unsigned(data[..]) == 10 * Unsigned(old(data[..])) + digit
  {
    ghost var s0 := data[..];
    var x := data[0];
    var s := AddAndCarry(ShiftLeft(x, 3), ShiftLeft(x, 1), digit);
    var carry: nat := Hi3Bits(x) + HiBit(x) + s.carry;
    TimesTenWord(x, digit);
    assert s0[..0] == [];
    TimesTenStep([], s0, digit, digit, s.word, carry);
    data[0] := s.word;
    assert data[..1] == [s.word];
    carry := TimesTenHigherWords(data, s0, digit, carry);
    assert s0[..data.Length] == s0;
    MulLowerBound(carry, Pow(data.Length));
    assert carry == 0;
  }

  /** The word loop of one digit over the words above the first (bigint.c:154-158). */
  method TimesTenHigherWords(data: array<Word>, ghost s0: seq<Word>, digit: nat, carryIn: nat)
    returns (carry: nat)
    requires data.Length == |s0| >= 1 && carryIn <= 10
    requires forall k :: 1 <= k < data.Length ==> data[k] == s0[k]
    requires TimesTenRunning(data[..1], carryIn, s0, digit)
    modifies data
    ensures TimesTenRunning(data[..], carry, s0, digit)
  {
    carry := carryIn;
    ghost var done: seq<Word> := data[..1];
    var i := 1;
    while i < data.Length
      invariant 1 <= i <= data.Length && carry <= 10
      invariant |done| == i && forall k :: 0 <= k < i ==> data[k] == done[k]
      invariant forall k :: i <= k < data.Length ==> data[k] == s0[k]
      invariant TimesTenRunning(done, carry, s0, digit)
    {
      var x := data[i];
      var s := AddAndCarry(ShiftLeft(x, 3), ShiftLeft(x, 1), carry);
      var newCarry := Hi3Bits(x) + HiBit(x) + s.carry;
      TimesTenWord(x, carry);
      TimesTenStep(done, s0, digit, carry, s.word, newCarry);
      data[i] := s.word;
      done := done + [s.word];
      carry := newCarry;
      i := i + 1;
    }
    assert data[..] == done;
  }

  /** The running equation of the negation loop: the words so far and the carry make the complement plus one. */
  ghost predicate NegateRunning(done: seq<Word>, carry: nat, s0: seq<Word>)
    requires |done| <= |s0|
  {
    Unsigned(done) + carry * Pow(|done|) == Unsigned(Complement(s0)[..|done|]) + 1
  }

  lemma NegateStep(done: seq<Word>, s0: seq<Word>, cin: nat, w: Word, cout: nat)
    requires |done| < |s0|
    requires NegateRunning(done, cin, s0)
    requires Not(s0[|done|]) + cin == w + cout * BASE
    ensures NegateRunning(done + [w], cout, s0)
  {
    var i := |done|;
    var c := Complement(s0);
    assert c[..i + 1] == c[..i] + [c[i]];
    UnsignedSnoc(done, w);
    UnsignedSnoc(c[..i], c[i]);
    assert Pow(i + 1) == BASE * Pow(i);
    NegateArith(Unsigned(done), Unsigned(c[..i]), cin, c[i], w, cout, Pow(i));
  }

  lemma NegateArith(ud: int, uc: int, cin: int, x: int, w: int, cout: int, p: int)
    requires ud + cin * p == uc + 1
    requires x + cin == w + cout * BASE
    ensures ud + w * p + cout * (BASE * p) == uc + x * p + 1
  {
    calc {
      w * p + cout * (BASE * p);
      (w + cout * BASE) * p;
      (x + cin) * p;
      x * p + cin * p;
    }
  }

  /**
   * In-place two's-complement negation (bigint.c:165-172): invert each word and
   * add the running carry, starting from 1; the last carry is thrown away.
   */
  method NegateInPlace(data: array<Word>)
    requires data.Length >= 1
    modifies data
    ensures data[..] == Negated(old(data[..]))
  {
    ghost var s0 := data[..];
    var carry: nat := 1;
    ghost var done: seq<Word> := [];
    var i := 0;
    while i < data.Length
      invariant 0 <= i <= data.Length && carry <= 1
      invariant |done| == i && forall k :: 0 <= k < i ==> data[k] == done[k]
      invariant forall k :: i <= k < data.Length ==> data[k] == s0[k]
      invariant NegateRunning(done, carry, s0)
    {
      data[i] := Not(data[i]);
      var s := AddAndCarry(data[i], carry, 0);
      NegateStep(done, s0, carry, s.word, s.carry);
      data[i] := s.word;
      done := done + [s.word];
      carry := s.carry;
      i := i + 1;
    }
    assert data[..] == done && Complement(s0)[..data.Length] == Complement(s0);
    ToWordsUnique(data[..], carry, Unsigned(Complement(s0)) + 1);
  }

  /** One more digit: the prefix stays a digit string, its value grows by the digit, and it still fits. */
  lemma DigitStep(str: string, start: nat, c: nat)
    requires start <= c < |str| && AllDigits(str[start..c]) && IsDigit(str[c])
    ensures AllDigits(str[start..c + 1])
    ensures DecimalValue(str[start..c + 1]) == 10 * DecimalValue(str[start..c]) + DigitValue(str[c])
    ensures DecimalValue(str[start..c + 1]) < Pow(Capacity(|str|))
  {
    var next := str[start..c + 1];
    assert next[..c - start] == str[start..c];
    DecimalBound(next);
    Pow10Monotone(|next|, |str|);
    CapacityBound(|str|);
  }

  /**
   * The digit loop (bigint.c:145-163) on the zeroed buffer: false at the first
   * character that is not a digit (the assert at bigint.c:146), and otherwise
   * the buffer holds the decimal value of all the digits.
   */
  method ParseDigits(str: string, start: nat, data: array<Word>) returns (ok: bool)
    requires start <= |str| && data.Length == Capacity(|str|)
    requires Unsigned(data[..]) == 0
    modifies data
    ensures ok <==> AllDigits(str[start..])
    ensures ok ==> Unsigned(data[..]) == DecimalValue(str[start..])
  {
    assert str[start..start] == [];
    var c := start;
    while c < |str|
      invariant start <= c <= |str|
      invariant AllDigits(str[start..c])
      invariant Unsigned(data[..]) == DecimalValue(str[start..c])
    {
      if !IsDigit(str[c]) {
        assert str[start..][c - start] == str[c];
        return false;
      }
      DigitStep(str, start, c);
      TimesTenPlus(data, DigitValue(str[c]));
      c := c + 1;
    }
    assert str[start..c] == str[start..];
    return true;
  }

  /**
   * `fromStr` as the C code runs it: a zeroed buffer of `cap` words (`calloc`),
   * the digit loop, the negation when the string starts with '-', and the shared
   * canonicalisation; the failing asserts are returned as errors.
   */
  method FromStr(str: string) returns (r: ParseResult)
    ensures r == FromStrSpec(str)
    ensures r.Ok? ==> Canonical(r.value) && |r.value| <= Capacity(|str|)
  {
    var cap := Capacity(|str|);
    var data := new Word[cap](_ => 0);
    var negative := |str| > 0 && str[0] == '-';
    var start := if negative then 1 else 0;
    assert DigitsOf(str) == str[start..];
    ZeroWords(data[..]);
    var ok := ParseDigits(str, start, data);
    if !ok {
      return Err(NotADigit);
    }
    ghost var magnitude: BigInt := ToWords(DecimalValue(DigitsOf(str)), cap);
    assert data[..] == magnitude by {
      WordsRoundTrip(data[..]);
    }
    if negative {
      NegateInPlace(data);
    }
    ghost var signed: BigInt := data[..];
    assert signed == if negative then Negated(magnitude) else magnitude;
    var len, fits := Canonicalise(data, negative);
    assert FromStrSpec(str) == if |Canonicalised(signed, negative)| > cap then Err(NoRoomForSignWord)
                               else Ok(Canonicalised(signed, negative));
    if !fits {
      return Err(NoRoomForSignWord);
    }
    r := Ok(data[..len]);
  }

  /** A buffer of zero words reads as zero. */
  lemma {:induction false} ZeroWords(s: seq<Word>)
    requires forall i :: 0 <= i < |s| ==> s[i] == 0
    ensures Unsigned(s) == 0
  {
    if s != [] {
      ZeroWords(s[1..]);
    }
  }

  // ---------------------------------------------------------------------------
  // Examples at eight-bit words

  lemma ParsesTo(str: string, v: BigInt)
    requires AllDigits(DigitsOf(str)) && !(HasMinus(str) && DecimalValue(DigitsOf(str)) == 0)
    requires Canonical(v)
    requires Signed(v) == if HasMinus(str) then -(DecimalValue(DigitsOf(str)) as int) else DecimalValue(DigitsOf(str))
    ensures FromStrSpec(str) == Ok(v)
  {
    FromStrCorrect(str);
    CanonicalUnique(FromStrSpec(str).value, v);
  }

  lemma Parse127()
    ensures FromStrSpec("127") == Ok([0x7F])
  {
    assert DigitsOf("127") == "127";
    assert DecimalValue("127") == 127 by {
      assert "127"[..2] == "12" && "12"[..1] == "1" && "1"[..0] == "";
    }
    ParsesTo("127", [0x7F]);
  }

  lemma Parse128()
    ensures FromStrSpec("128") == Ok([0x80, 0x00])
  {
    assert DigitsOf("128") == "128";
    assert DecimalValue("128") == 128 by {
      assert "128"[..2] == "12" && "12"[..1] == "1" && "1"[..0] == "";
    }
    assert Unsigned([0x80, 0x00]) == 128;
    ParsesTo("128", [0x80, 0x00]);
  }

  lemma ParseMinusOne()
    ensures FromStrSpec("-1") == Ok([0xFF])
  {
    assert DigitsOf("-1") == "1";
    assert DecimalValue("1") == 1 by {
      assert "1"[..0] == "";
    }
    ParsesTo("-1", [0xFF]);
  }

  /** The empty string parses as zero: no digits leave the zeroed buffer. */
  lemma ParseEmpty()
    ensures FromStrSpec("") == Ok([0])
  {
    ParsesTo("", [0]);
  }

  lemma ParseNonDigit()
    ensures FromStrSpec("12a") == Err(NotADigit)
  {
    assert !IsDigit(DigitsOf("12a")[2]);
  }

  /** "-0" and "-" fail: the negated zero keeps sign bit 0, and re-appending the sign word finds no slot. */
  lemma ParseNegativeZero()
    ensures FromStrSpec("-0") == Err(NoRoomForSignWord)
    ensures FromStrSpec("-") == Err(NoRoomForSignWord)
  {
    assert DigitsOf("-0") == "0";
    assert DecimalValue("0") == 0 by {
      assert "0"[..0] == "";
    }
    FromStrCorrect("-0");
    assert DigitsOf("-") == "";
    FromStrCorrect("-");
  }

  /** `add(fromStr("127"), fromStr("127"), 0)` is 254 in two words. */
  lemma DoubleOf127()
    ensures AddSpec([0x7F], [0x7F], false) == [0xFE, 0x00]
  {
    AddExact([0x7F], [0x7F], false);
    AddShape([0x7F], [0x7F], false);
    assert Unsigned([0xFE, 0x00]) == 254;
    CanonicalUnique(AddSpec([0x7F], [0x7F], false), [0xFE, 0x00]);
  }

  // ---------------------------------------------------------------------------
  // The repaired parse

  /**
   * `fromStr` with the canonicalisation run on the sign of the negated buffer
   * rather than on the minus sign, so that a negated zero is zero.
   */
  function FromStrCorrected(str: string): (r: ParseResult)
  {
    var digits := DigitsOf(str);
    if !AllDigits(digits) then Err(NotADigit)
    else
      var magnitude := ToWords(DecimalValue(digits), Capacity(|str|));
      var data: BigInt := if HasMinus(str) then Negated(magnitude) else magnitude;
      Ok(Canonicalised(data, IsNegative(data)))
  }

  /** The repaired parse accepts every digit string and gives its exact value, canonical, in at most `cap` words. */
  lemma FromStrCorrectedExact(str: string)
    ensures FromStrCorrected(str).Ok? <==> AllDigits(DigitsOf(str))
    ensures FromStrCorrected(str).Ok? ==>
              var m := DecimalValue(DigitsOf(str));
              && Canonical(FromStrCorrected(str).value)
              && |FromStrCorrected(str).value| <= Capacity(|str|)
              && Signed(FromStrCorrected(str).value) == if HasMinus(str) then -(m as int) else m
  {
    if AllDigits(DigitsOf(str)) {
      DigitsFit(str);
      CorrectedData(DecimalValue(DigitsOf(str)), Capacity(|str|), HasMinus(str));
    }
  }

  /** Canonicalising on the sign of the data keeps the signed value of the magnitude or of its negation. */
  lemma CorrectedData(m: nat, cap: nat, negative: bool)
    requires cap >= 1 && 2 * m < Pow(cap)
    ensures var magnitude: BigInt := ToWords(m, cap);
            var data: BigInt := if negative then Negated(magnitude) else magnitude;
            var r := Canonicalised(data, IsNegative(data));
            |r| <= cap && Signed(r) == if negative then -(m as int) else m
  {
    var magnitude: BigInt := ToWords(m, cap);
    var data: BigInt := if negative then Negated(magnitude) else magnitude;
    SignedData(m, cap, negative);
    CanonicalisedValue(data, IsNegative(data));
    if negative && m == 0 {
      ValueRoundTrip(m, cap);
      NegativeIffUpperHalf(magnitude);
    }
  }

  /** Wherever the parse as written succeeds, the repaired parse gives the same words. */
  lemma FromStrCorrectedAgrees(str: string)
    requires FromStrSpec(str).Ok?
    ensures FromStrCorrected(str) == FromStrSpec(str)
  {
    FromStrCorrect(str);
    FromStrCorrectedExact(str);
    CanonicalUnique(FromStrCorrected(str).value, FromStrSpec(str).value);
  }

  lemma ParseNegativeZeroCorrected()
    ensures FromStrCorrected("-0") == Ok([0])
  {
    assert DigitsOf("-0") == "0";
    assert DecimalValue("0") == 0 by {
      assert "0"[..0] == "";
    }
    FromStrCorrectedExact("-0");
    CanonicalZero(FromStrCorrected("-0").value);
  }
}
