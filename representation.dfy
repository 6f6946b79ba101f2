/**
 * The BigInt representation: a sequence of words, least significant first, read
 * as one two's-complement integer of `len * WORD_BITS` bits. `Unsigned` and
 * `Signed` give the value of a word sequence; everything the C code does to
 * words is proved against these two functions.
 */
module Representation {
  import opened Words

  /** The words of a BigInt (`data[0..len-1]`); `len`, the word count, is at least 1. */
  type BigInt = s: seq<Word> | |s| >= 1 witness [0]

  /** BASE^n. */
  function Pow(n: nat): (p: nat)
    ensures p >= 1
  {
    if n == 0 then 1 else BASE * Pow(n - 1)
  }

  lemma {:induction false} PowIsPow2(n: nat)
    ensures Pow(n) == Pow2(WORD_BITS * n)
  {
    if n > 0 {
      PowIsPow2(n - 1);
      Pow2Add(WORD_BITS * (n - 1), WORD_BITS);
      assert Pow2(WORD_BITS) == BASE;
    }
  }

  lemma {:induction false} Pow2Add(i: nat, j: nat)
    ensures Pow2(i + j) == Pow2(i) * Pow2(j)
  {
    if j > 0 {
      Pow2Add(i, j - 1);
    }
  }

  lemma {:induction false} Pow2Monotone(i: nat, j: nat)
    requires i <= j
    ensures Pow2(i) <= Pow2(j)
  {
    if i < j {
      Pow2Monotone(i, j - 1);
    }
  }

  lemma {:induction false} PowMonotone(i: nat, j: nat)
    requires i <= j
    ensures Pow(i) <= Pow(j)
  {
    if i < j {
      PowMonotone(i, j - 1);
    }
  }

  lemma MulMonotone(a: int, b: int, p: nat)
    requires a <= b
    ensures a * p <= b * p
  {
    assert b * p - a * p == (b - a) * p;
  }

  /** A multiple h * p of p with h >= 1 is at least p; with h >= 2 at least 2 * p. */
  lemma MulLowerBound(h: nat, p: nat)
    ensures h >= 1 ==> h * p >= p
    ensures h >= 2 ==> h * p >= 2 * p
  {
    if h >= 1 {
      MulMonotone(1, h, p);
    }
    if h >= 2 {
      MulMonotone(2, h, p);
    }
  }

  /** The words read as an unsigned number: the sum of s[i] * BASE^i. */
  function Unsigned(s: seq<Word>): (v: nat)
    ensures v < Pow(|s|)
  {
    if s == [] then 0 else s[0] + BASE * Unsigned(s[1..])
  }

  /** Appending a word at the most significant end adds it with weight BASE^|s|. */
  lemma {:induction false} UnsignedSnoc(s: seq<Word>, w: Word)
    ensures Unsigned(s + [w]) == Unsigned(s) + w * Pow(|s|)
  {
    if s == [] {
      assert [w][1..] == [];
    } else {
      var t := s + [w];
      assert t[1..] == s[1..] + [w];
      UnsignedSnoc(s[1..], w);
      assert Unsigned(t) == s[0] + BASE * Unsigned(s[1..] + [w]);
      assert Pow(|s|) == BASE * Pow(|s| - 1);
      ScaleBase(w, Pow(|s| - 1));
    }
  }

  /** The most significant word, `data[len - 1]`. */
  function Msw(s: BigInt): (r: Word)
  {
    s[|s| - 1]
  }

  /** The sign of a BigInt is the top bit of its most significant word. */
  predicate IsNegative(s: BigInt)
  {
    HiBit(Msw(s)) == 1
  }

  /** The sign bit is set exactly when the unsigned reading lies in the upper half of its range. */
  lemma NegativeIffUpperHalf(s: BigInt)
    ensures IsNegative(s) <==> 2 * Unsigned(s) >= Pow(|s|)
  {
    var p := s[..|s| - 1];
    assert s == p + [Msw(s)];
    UnsignedSnoc(p, Msw(s));
    UpperHalf(Unsigned(p), Msw(s), Pow(|p|));
  }

  lemma UpperHalf(u: nat, m: Word, q: nat)
    requires u < q
    ensures m >= BASE / 2 <==> 2 * (u + m * q) >= BASE * q
  {
    if m >= BASE / 2 {
      MulMonotone(BASE / 2, m, q);
    } else {
      MulMonotone(m, BASE / 2 - 1, q);
    }
  }

  /** The two's-complement value: the unsigned reading, less BASE^len when the sign bit is set. */
  function Signed(s: BigInt): (v: int)
    ensures -(Pow(|s|) as int) <= 2 * v < Pow(|s|)
    ensures v < 0 <==> IsNegative(s)
  {
    NegativeIffUpperHalf(s);
    Unsigned(s) - (if IsNegative(s) then Pow(|s|) else 0)
  }

  /** The n low words of v, least significant first. */
  function ToWords(v: nat, n: nat): (s: seq<Word>)
    ensures |s| == n
  {
    if n == 0 then [] else [v % BASE] + ToWords(v / BASE, n - 1)
  }

  /** What is left of v above its n low words: v div BASE^n. */
  function HighPart(v: nat, n: nat): (r: nat)
  {
    if n == 0 then v else HighPart(v / BASE, n - 1)
  }

  /** v splits into its n low words and its high part. */
  lemma {:induction false} ToWordsValue(v: nat, n: nat)
    ensures v == Unsigned(ToWords(v, n)) + HighPart(v, n) * Pow(n)
  {
    if n > 0 {
      var s := ToWords(v, n);
      var rest := ToWords(v / BASE, n - 1);
      assert s[1..] == rest;
      ToWordsValue(v / BASE, n - 1);
      assert Unsigned(s) == v % BASE + BASE * Unsigned(rest);
      assert HighPart(v, n) == HighPart(v / BASE, n - 1);
      SplitArith(v, Unsigned(rest), HighPart(v, n), Pow(n - 1));
    }
  }

  lemma SplitArith(v: int, u: int, h: int, q: int)
    requires v / BASE == u + h * q
    ensures v == v % BASE + BASE * u + h * (BASE * q)
  {
    ScaleBase(h, q);
  }

  /** Moving the factor BASE out of a product. */
  lemma ScaleBase(a: int, b: int)
    ensures a * (BASE * b) == BASE * (a * b)
  {
  }

  /** The split of v into low words and a high part is unique. */
  lemma {:induction false} ToWordsUnique(s: seq<Word>, c: nat, v: nat)
    requires v == Unsigned(s) + c * Pow(|s|)
    ensures s == ToWords(v, |s|) && c == HighPart(v, |s|)
  {
    if s != [] {
      var q := Unsigned(s[1..]) + c * Pow(|s| - 1);
      calc {
        v;
        s[0] + BASE * Unsigned(s[1..]) + c * (BASE * Pow(|s| - 1));
        s[0] + BASE * q;
      }
      assert v % BASE == s[0] && v / BASE == q;
      ToWordsUnique(s[1..], c, q);
      assert s == [s[0]] + s[1..];
    }
  }

  /** Reading words as a number and writing the number back gives the same words. */
  lemma WordsRoundTrip(s: seq<Word>)
    ensures ToWords(Unsigned(s), |s|) == s
  {
    ToWordsUnique(s, 0, Unsigned(s));
  }

  /** Writing a number that fits in n words and reading it back gives the number. */
  lemma ValueRoundTrip(v: nat, n: nat)
    requires v < Pow(n)
    ensures Unsigned(ToWords(v, n)) == v && HighPart(v, n) == 0
  {
    ToWordsValue(v, n);
    MulLowerBound(HighPart(v, n), Pow(n));
  }

  lemma UnsignedInjective(s: seq<Word>, t: seq<Word>)
    requires |s| == |t| && Unsigned(s) == Unsigned(t)
    ensures s == t
  {
    WordsRoundTrip(s);
    WordsRoundTrip(t);
  }

  /** A BigInt whose unsigned reading is zero has a zero most significant word. */
  lemma ZeroMsw(s: BigInt)
    requires Unsigned(s) == 0
    ensures Msw(s) == 0
  {
    var p := s[..|s| - 1];
    assert s == p + [Msw(s)];
    UnsignedSnoc(p, Msw(s));
    MulLowerBound(Msw(s), Pow(|p|));
  }

  /** Sign extension: s widened to n words with copies of its fill word. */
  function SignExt(s: BigInt, n: nat): (t: BigInt)
    requires |s| <= n
    ensures |t| == n && t[..|s|] == s
  {
    s + seq(n - |s|, _ => Fill(IsNegative(s)))
  }

  /** Zero extension: s widened to n words with zero words. */
  function ZeroExt(s: seq<Word>, n: nat): (t: seq<Word>)
    requires |s| <= n
    ensures |t| == n && t[..|s|] == s
  {
    s + seq(n - |s|, _ => 0)
  }

  /** One more sign-extension word changes neither the value nor the sign. */
  lemma SignExtendOne(s: BigInt)
    ensures IsNegative(s + [Fill(IsNegative(s))]) == IsNegative(s)
    ensures Signed(s + [Fill(IsNegative(s))]) == Signed(s)
  {
    UnsignedSnoc(s, Fill(IsNegative(s)));
  }

  lemma {:induction false} SignExtValue(s: BigInt, n: nat)
    requires |s| <= n
    ensures IsNegative(SignExt(s, n)) == IsNegative(s)
    ensures Signed(SignExt(s, n)) == Signed(s)
  {
    if n == |s| {
      assert SignExt(s, n) == s;
    } else {
      SignExtValue(s, n - 1);
      var t := SignExt(s, n - 1);
      assert SignExt(s, n) == t + [Fill(IsNegative(t))];
      SignExtendOne(t);
    }
  }

  lemma {:induction false} ZeroExtValue(s: seq<Word>, n: nat)
    requires |s| <= n
    ensures Unsigned(ZeroExt(s, n)) == Unsigned(s)
  {
    if n == |s| {
      assert ZeroExt(s, n) == s;
    } else {
      ZeroExtValue(s, n - 1);
      var t := ZeroExt(s, n - 1);
      assert ZeroExt(s, n) == t + [0];
      UnsignedSnoc(t, 0);
    }
  }

  /** For a non-negative value, zero extension is sign extension. */
  lemma ZeroExtNonNegative(s: BigInt, n: nat)
    requires |s| <= n && !IsNegative(s)
    ensures ZeroExt(s, n) == SignExt(s, n)
  {
  }

  /** Every word inverted (`~`), as the C code does word by word. */
  function Complement(s: seq<Word>): (t: seq<Word>)
    ensures |t| == |s|
    ensures forall i :: 0 <= i < |s| ==> t[i] as int + s[i] as int == BASE - 1
  {
    seq(|s|, i requires 0 <= i < |s| => Not(s[i]))
  }

  /** Inverting every word reflects the unsigned reading inside its range. */
  lemma {:induction false} ComplementValue(s: seq<Word>)
    ensures Unsigned(Complement(s)) == Pow(|s|) - 1 - Unsigned(s)
  {
    if s != [] {
      assert Complement(s)[1..] == Complement(s[1..]);
      ComplementValue(s[1..]);
    }
  }

  /** Inverting every word maps the two's-complement value v to -v - 1 and flips the sign. */
  lemma ComplementSigned(s: BigInt)
    ensures IsNegative(Complement(s)) == !IsNegative(s)
    ensures Signed(Complement(s)) == -Signed(s) - 1
  {
    ComplementValue(s);
  }

  /**
   * Two's-complement negation in place: invert every word, add 1 with carry
   * across the words, and throw the last carry away.
   */
  function Negated(s: seq<Word>): (t: seq<Word>)
    ensures |t| == |s|
  {
    ToWords(Unsigned(Complement(s)) + 1, |s|)
  }

  /** Negation turns the unsigned reading v into (BASE^len - v) mod BASE^len. */
  lemma NegatedValue(s: seq<Word>)
    ensures Unsigned(s) == 0 ==> Unsigned(Negated(s)) == 0
    ensures Unsigned(s) > 0 ==> Unsigned(Negated(s)) == Pow(|s|) - Unsigned(s)
  {
    if Unsigned(s) > 0 {
      NegatedNonZero(s);
    } else {
      NegatedZero(s);
    }
  }

  /** Negating twice gives back the same words. */
  lemma NegatedTwice(s: seq<Word>)
    ensures Negated(Negated(s)) == s
  {
    NegatedValue(s);
    NegatedValue(Negated(s));
    UnsignedInjective(Negated(Negated(s)), s);
  }

  lemma NegatedNonZero(s: seq<Word>)
    requires Unsigned(s) > 0
    ensures Unsigned(Negated(s)) == Pow(|s|) - Unsigned(s)
  {
    ComplementPlusOne(s);
    ValueRoundTrip(Unsigned(Complement(s)) + 1, |s|);
  }

  lemma NegatedZero(s: seq<Word>)
    requires Unsigned(s) == 0
    ensures Unsigned(Negated(s)) == 0
  {
    ComplementPlusOne(s);
    var p := Pow(|s|);
    assert Negated(s) == ToWords(p, |s|);
    ToWordsValue(p, |s|);
    OnlyMultiple(Unsigned(ToWords(p, |s|)), HighPart(p, |s|), p);
  }

  lemma ComplementPlusOne(s: seq<Word>)
    ensures Unsigned(Complement(s)) + 1 == Pow(|s|) - Unsigned(s)
  {
    ComplementValue(s);
  }

  /** A number below p that differs from p by a multiple of p is zero. */
  lemma OnlyMultiple(u: nat, h: nat, p: nat)
    requires p == u + h * p && u < p
    ensures u == 0
  {
    MulLowerBound(h, p);
  }
}
