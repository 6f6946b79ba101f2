/**
 * Canonical form and the canonicalisation that `add` and `fromStr` both run on
 * their result: drop most significant words equal to `(WordType)-negative` while
 * more than one word is left, then put one such word back if the sign bit of the
 * new most significant word is not `negative`.
 */
module Canon {
  import opened Words
  import opened Representation

  /**
   * No most significant word can be dropped without changing the value: one word
   * is left, or the top word is not the sign extension of the word below it.
   */
  predicate Canonical(s: BigInt)
  {
    |s| == 1 || s[|s| - 1] != Fill(HiBit(s[|s| - 2]) == 1)
  }

  /** The trim loop: how many words are left once the top words equal to Fill(negative) are dropped. */
  function TrimFill(s: BigInt, negative: bool): (t: BigInt)
    ensures |t| <= |s| && t == s[..|t|]
    ensures |t| == 1 || Msw(t) != Fill(negative)
    ensures forall k :: |t| <= k < |s| ==> s[k] == Fill(negative)
  {
    if |s| > 1 && Msw(s) == Fill(negative) then TrimFill(s[..|s| - 1], negative) else s
  }

  /**
   * Trim, then re-append one fill word when the sign bit of the remaining top
   * word is not `negative`. The result can be one word longer than s; the callers
   * then need a slot beyond their buffer (see `Canonicalise`).
   */
  function Canonicalised(s: BigInt, negative: bool): (r: BigInt)
    ensures IsNegative(r) == negative
    ensures Canonical(r)
    ensures |r| <= |s| + 1
  {
    var t := TrimFill(s, negative);
    if IsNegative(t) != negative then t + [Fill(negative)] else t
  }

  /**
   * When `negative` is the sign of s, canonicalisation keeps the value and never
   * needs more words than s has.
   */
  lemma CanonicalisedValue(s: BigInt, negative: bool)
    requires negative == IsNegative(s)
    ensures |Canonicalised(s, negative)| <= |s|
    ensures Signed(Canonicalised(s, negative)) == Signed(s)
  {
    var t := TrimFill(s, negative);
    var r := Canonicalised(s, negative);
    if IsNegative(t) != negative {
      assert |t| < |s|;
      assert s[|t|] == Fill(negative);
      assert s[..|r|] == r;
    }
    assert s == SignExt(r, |s|);
    SignExtValue(r, |s|);
  }

  /** Canonicalising twice with the same sign is canonicalising once. */
  lemma CanonicalisedIdempotent(s: BigInt, negative: bool)
    ensures Canonicalised(Canonicalised(s, negative), negative) == Canonicalised(s, negative)
  {
    var t := TrimFill(s, negative);
    var r := Canonicalised(s, negative);
    if r != t {
      assert r[..|r| - 1] == t;
      assert TrimFill(r, negative) == TrimFill(t, negative);
    }
  }

  /** A canonical BigInt is left as it is. */
  lemma CanonicalFixpoint(s: BigInt)
    requires Canonical(s)
    ensures Canonicalised(s, IsNegative(s)) == s
  {
    var negative := IsNegative(s);
    if |s| > 1 && Msw(s) == Fill(negative) {
      var p := s[..|s| - 1];
      assert Msw(p) == s[|s| - 2];
      assert TrimFill(s, negative) == TrimFill(p, negative) == p;
      assert s == p + [Fill(negative)];
    }
  }

  /** What a canonical top word rules out: the value fits in one word fewer. */
  lemma TopWordNeeded(u: nat, w: Word, q: nat)
    requires u < q
    ensures var v := u + w * q - (if HiBit(w) == 1 then BASE * q else 0);
            -(q as int) <= 2 * v < q ==> (w == 0 && 2 * u < q) || (w == BASE - 1 && 2 * u >= q)
  {
    if 1 <= w < BASE / 2 {
      MulMonotone(1, w, q);
    } else if BASE / 2 <= w < BASE - 1 {
      MulMonotone(w, BASE - 2, q);
    }
  }

  /** A canonical BigInt of two or more words does not fit in one word fewer. */
  lemma CanonicalMinimal(s: BigInt)
    requires Canonical(s) && |s| >= 2
    ensures !(-(Pow(|s| - 1) as int) <= 2 * Signed(s) < Pow(|s| - 1))
  {
    var p: BigInt := s[..|s| - 1];
    assert s == p + [Msw(s)];
    assert Msw(p) == s[|s| - 2];
    UnsignedSnoc(p, Msw(s));
    NegativeIffUpperHalf(p);
    TopWordNeeded(Unsigned(p), Msw(s), Pow(|p|));
  }

  /** Canonical form is unique: two canonical BigInts with the same value are the same words. */
  lemma CanonicalUnique(s: BigInt, t: BigInt)
    requires Canonical(s) && Canonical(t) && Signed(s) == Signed(t)
    ensures s == t
  {
    if |s| < |t| {
      CanonicalMinimal(t);
      PowMonotone(|s|, |t| - 1);
    } else if |t| < |s| {
      CanonicalMinimal(s);
      PowMonotone(|t|, |s| - 1);
    } else {
      UnsignedInjective(s, t);
    }
  }

  /** The only canonical zero is the single word 0. */
  lemma CanonicalZero(s: BigInt)
    requires Canonical(s) && Signed(s) == 0
    ensures s == [0]
  {
    CanonicalUnique(s, [0]);
  }

  /**
   * The shared canonicalisation, in place on the first `data.Length` words
   * (bigint.c:111-120 in `add`, bigint.c:173-182 in `fromStr`). `fits` is false
   * when the re-appended word would need a slot beyond the buffer, which is the
   * case the assert at bigint.c:180 rejects.
   */
  method Canonicalise(data: array<Word>, negative: bool) returns (len: nat, fits: bool)
    requires data.Length >= 1
    modifies data
    ensures fits <==> |Canonicalised(old(data[..]), negative)| <= data.Length
    ensures fits ==> 1 <= len <= data.Length && data[..len] == Canonicalised(old(data[..]), negative)
  {
    ghost var s: BigInt := data[..];
    len := data.Length;
    while len > 1 && data[len - 1] == Fill(negative)
      invariant 1 <= len <= data.Length
      invariant data[..] == s
      invariant TrimFill(data[..len], negative) == TrimFill(s, negative)
    {
      assert data[..len][..len - 1] == data[..len - 1];
      len := len - 1;
    }
    ghost var t := data[..len];
    assert TrimFill(t, negative) == t;
    fits := true;
    if (HiBit(data[len - 1]) == 1) != negative {
      if len == data.Length {
        fits := false;
      } else {
        data[len] := Fill(negative);
        len := len + 1;
        assert data[..len] == t + [Fill(negative)];
      }
    }
  }
}
