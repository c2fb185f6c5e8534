/**
 * The two inline helpers of src/hive.h that size a cell: rounding up to the
 * next power of two by smearing the top bit, and rounding up to a multiple of
 * a power-of-two alignment by masking. Both work on `size_t`, so both wrap at
 * 2^64; the lemmas say exactly where.
 */
module HiveMath {
  import opened Words

  // ---------------------------------------------------------------------------
  // hive_nxtpow2

  /** One line `v |= v >> s` of the smear: bit i also takes in bit i + s. */
  function OrShr(v: Size, s: nat): (r: Size)
    requires s < WORD_BITS
    ensures forall i :: 0 <= i < WORD_BITS ==>
      Bits(r)[i] == (Bits(v)[i] || (i + s < WORD_BITS && Bits(v)[i + s]))
  {
    OrBits(v, Shr(v, s));
    ShrBits(v, s);
    Or(v, Shr(v, s))
  }

  /**
   * The six smearing lines. Afterwards bit i is set exactly when some bit at
   * or above i was: every bit below the top set bit becomes set.
   */
  function Smear(v: Size): (r: Size)
    ensures forall i :: 0 <= i < WORD_BITS ==> Bits(r)[i] == Reach(v, i, WORD_BITS)
  {
    forall i | 0 <= i < WORD_BITS
      ensures Bits(v)[i] == Reach(v, i, 1)
    {
      if Bits(v)[i] {
        assert Reach(v, i, 1);
      }
    }
    SmearStep(v, v, 1);
    var v1 := OrShr(v, 1);
    SmearStep(v, v1, 2);
    var v2 := OrShr(v1, 2);
    SmearStep(v, v2, 4);
    var v3 := OrShr(v2, 4);
    SmearStep(v, v3, 8);
    var v4 := OrShr(v3, 8);
    SmearStep(v, v4, 16);
    var v5 := OrShr(v4, 16);
    SmearStep(v, v5, 32);
    OrShr(v5, 32)
  }

  /** `hive_nxtpow2`: 1 for 0, otherwise decrement, smear, increment. */
  function NextPow2(v: Size): Size
  {
    if v == 0 then 1 else Add(Smear(Sub(v, 1)), 1)
  }

  /**
   * The arithmetic behind NextPow2: 2^l + 0 wraps exactly when the bit length
   * l of v - 1 is 64, and otherwise 2^l is the power of two in [v, 2v).
   */
  lemma NextPow2Cases(v: Size)
    requires v >= 1
    ensures BitLen(v - 1) <= WORD_BITS
    ensures v <= WORD_MODULUS / 2 ==>
      && BitLen(v - 1) < WORD_BITS && Pow2(BitLen(v - 1)) < WORD_MODULUS
      && IsPow2(Pow2(BitLen(v - 1))) && v <= Pow2(BitLen(v - 1)) < 2 * v
    ensures v > WORD_MODULUS / 2 ==> BitLen(v - 1) == WORD_BITS && Pow2(BitLen(v - 1)) == WORD_MODULUS
  {
    var l := BitLen(v - 1);
    BitLenWord(v - 1);
    Pow2Word();
    Pow2Order(l, WORD_BITS - 1);
    Pow2Order(l, WORD_BITS);
    if v <= WORD_MODULUS / 2 {
      BitLenBracket(v - 1);
      IsPow2Pow2(l);
    }
  }

  /** Some bit of `x` in [i, i + w) is set. */
  ghost predicate Reach(x: Size, i: nat, w: nat)
  {
    exists j :: i <= j < i + w && j < WORD_BITS && Bits(x)[j]
  }

  /** One smearing line doubles the window of bits that each bit summarises. */
  lemma SmearStep(x: Size, y: Size, w: nat)
    requires 1 <= w < WORD_BITS
    requires forall i :: 0 <= i < WORD_BITS ==> Bits(y)[i] == Reach(x, i, w)
    ensures forall i :: 0 <= i < WORD_BITS ==> Bits(OrShr(y, w))[i] == Reach(x, i, 2 * w)
  {
    var z := OrShr(y, w);
    forall i | 0 <= i < WORD_BITS
      ensures Bits(z)[i] == Reach(x, i, 2 * w)
    {
      assert Bits(z)[i] == (Bits(y)[i] || (i + w < WORD_BITS && Bits(y)[i + w]));
      if Reach(x, i, 2 * w) {
        var j :| i <= j < i + 2 * w && j < WORD_BITS && Bits(x)[j];
        if j >= i + w {
          assert Reach(x, i + w, w);
        } else {
          assert Reach(x, i, w);
        }
      }
      if i + w < WORD_BITS && Reach(x, i + w, w) {
        var j :| i + w <= j < i + 2 * w && j < WORD_BITS && Bits(x)[j];
        assert i <= j < i + 2 * w;
      }
    }
  }

  /** Some bit at or above i is set exactly when i is below the bit length. */
  lemma ReachBelowBitLen(x: Size, i: nat)
    requires i < WORD_BITS
    ensures Reach(x, i, WORD_BITS) == (i < BitLen(x))
  {
    var l := BitLen(x);
    BitLenWord(x);
    if i < l {
      TopBitSet(x, WORD_BITS, l);
      assert i <= l - 1 < i + WORD_BITS && Bits(x)[l - 1];
    } else if Reach(x, i, WORD_BITS) {
      var j :| i <= j < i + WORD_BITS && j < WORD_BITS && Bits(x)[j];
      HighBitsClear(x, WORD_BITS, l, j);
      assert false;
    }
  }

  /** The smear of x is 2^l - 1, l being the bit length of x. */
  lemma SmearValue(x: Size)
    ensures BitLen(x) <= WORD_BITS
    ensures Smear(x) == Pow2(BitLen(x)) - 1
  {
    var l := BitLen(x);
    var s := Smear(x);
    BitLenWord(x);
    forall i | 0 <= i < WORD_BITS
      ensures Bits(s)[i] == (i < l)
    {
      ReachBelowBitLen(x, i);
    }
    LowOnesValue(s, l);
  }

  /** Decrement, smear and increment leave 2^BitLen(v - 1), wrapped to the word. */
  lemma NextPow2Smeared(v: Size)
    requires v >= 1
    ensures BitLen(v - 1) <= WORD_BITS
    ensures NextPow2(v) == Pow2(BitLen(v - 1)) % WORD_MODULUS
  {
    var x := Sub(v, 1);
    assert x == v - 1;
    SmearValue(x);
    var l := BitLen(x);
    Pow2Word();
    Pow2Order(l, WORD_BITS);
    var p := Pow2(l);
    assert NextPow2(v) == Add(p - 1, 1);
    if p < WORD_MODULUS {
      assert Add(p - 1, 1) == p == p % WORD_MODULUS;
    } else {
      assert Add(p - 1, 1) == 0 == p % WORD_MODULUS;
    }
  }

  /** p reduced to the word is p itself below the modulus and 0 at it. */
  lemma WrapPow2(r: Size, p: nat, v: Size)
    requires 1 <= p <= WORD_MODULUS && r == p % WORD_MODULUS
    requires v <= WORD_MODULUS / 2 ==> IsPow2(p) && p < WORD_MODULUS && v <= p < 2 * v
    requires v > WORD_MODULUS / 2 ==> p == WORD_MODULUS
    ensures v <= WORD_MODULUS / 2 ==> IsPow2(r) && v <= r < 2 * v
    ensures v > WORD_MODULUS / 2 ==> r == 0
  {
  }

  /**
   * What `hive_nxtpow2` computes: 1 for 0; for 1 <= v <= 2^63 the power of
   * two r with v <= r < 2v; for larger v the 64-bit increment wraps to 0.
   */
  lemma NextPow2Spec(v: Size)
    ensures v == 0 ==> NextPow2(v) == 1
    ensures 1 <= v <= WORD_MODULUS / 2 ==> IsPow2(NextPow2(v)) && v <= NextPow2(v) < 2 * v
    ensures v > WORD_MODULUS / 2 ==> NextPow2(v) == 0
  {
    if v > 0 {
      NextPow2Smeared(v);
      NextPow2Cases(v);
      WrapPow2(NextPow2(v), Pow2(BitLen(v - 1)), v);
    }
  }

  /** The result is the least power of two at or above v. */
  lemma NextPow2Least(v: Size, p: nat)
    requires IsPow2(p) && v <= p
    ensures NextPow2(v) <= p
  {
    NextPow2Spec(v);
    if 1 <= v <= WORD_MODULUS / 2 {
      Pow2Below(NextPow2(v), p, v);
    }
  }

  /** A power of two is its own next power of two. */
  lemma NextPow2OfPow2(v: Size)
    requires IsPow2(v)
    ensures NextPow2(v) == v
  {
    Pow2InWord(v);
    NextPow2Spec(v);
    NextPow2Least(v, v);
  }

  /**
   * Rounding twice is rounding once for every v up to 2^63; above that the
   * wrapped 0 is rounded on to 1.
   */
  lemma NextPow2Idempotent(v: Size)
    ensures v <= WORD_MODULUS / 2 ==> NextPow2(NextPow2(v)) == NextPow2(v)
    ensures v > WORD_MODULUS / 2 ==> NextPow2(NextPow2(v)) == 1
  {
    NextPow2Spec(v);
    if v == 0 {
      IsPow2Pow2(0);
      NextPow2OfPow2(1);
    } else if v <= WORD_MODULUS / 2 {
      NextPow2OfPow2(NextPow2(v));
    }
  }

  // ---------------------------------------------------------------------------
  // hive_align_up

  /**
   * `hive_align_up`: `(v + align - 1) & ~(align - 1)` on size_t. For a
   * power-of-two alignment and no wrap in v + align - 1, the result is the
   * multiple of align in [v, v + align).
   */
  function AlignUp(v: Size, align: Size): (r: Size)
    ensures IsPow2(align) && v + align - 1 < WORD_MODULUS ==> r % align == 0 && v <= r < v + align
  {
    var m := Sub(align, 1);
    var w := Sub(Add(v, align), 1);
    var r := And(w, Not(m));
    if IsPow2(align) && v + align - 1 < WORD_MODULUS then
      var k := Log2(align);
      Pow2Word();
      Pow2Order(WORD_BITS, k);
      LowMaskBits(k, m);
      assert w == v + align - 1;
      NotBits(m);
      AndBits(w, Not(m));
      ClearLowBits(w, r, k);
      r
    else
      r
  }

  /** No multiple of align at or above v lies below the result. */
  lemma AlignUpLeast(v: Size, align: Size, m: nat)
    requires IsPow2(align) && v + align - 1 < WORD_MODULUS
    requires m % align == 0 && v <= m
    ensures AlignUp(v, align) <= m
  {
    var r := AlignUp(v, align);
    MultiplesSpread(align, m, r);
  }

  /** An aligned value is left unchanged; hence aligning twice is aligning once. */
  lemma AlignUpAligned(v: Size, align: Size)
    requires IsPow2(align) && v % align == 0
    ensures v + align - 1 < WORD_MODULUS
    ensures AlignUp(v, align) == v
  {
    Pow2InWord(align);
    var k := Log2(align);
    Pow2Word();
    Pow2Order(WORD_BITS, k);
    Pow2Divides(k, WORD_BITS);
    MultiplesSpread(align, v, WORD_MODULUS);
    MultiplesSpread(align, v, AlignUp(v, align));
  }

  lemma AlignUpIdempotent(v: Size, align: Size)
    requires IsPow2(align) && v + align - 1 < WORD_MODULUS
    ensures AlignUp(AlignUp(v, align), align) == AlignUp(v, align)
  {
    AlignUpAligned(AlignUp(v, align), align);
  }

  /** Aligning a power of two to a power of two gives the larger of the two. */
  lemma AlignUpPow2(v: Size, align: Size)
    requires IsPow2(v) && IsPow2(align)
    ensures AlignUp(v, align) == if v < align then align else v
    ensures IsPow2(AlignUp(v, align))
  {
    Pow2InWord(v);
    Pow2InWord(align);
    var j, k := Log2(v), Log2(align);
    if v < align {
      MultipleMod(align, 1);
      AlignUpLeast(v, align, align);
      MultipleMod(align, 0);
      MultiplesSpread(align, 0, AlignUp(v, align));
    } else {
      Pow2Order(k, j);
      Pow2Divides(k, j);
      AlignUpAligned(v, align);
    }
  }

  /** With alignment 0 the mask is empty: the result is 0 whatever v is. */
  lemma AlignUpZeroAlign(v: Size)
    ensures AlignUp(v, 0) == 0
  {
    var mask := Not(Sub(0, 1));
    LowMaskFits(WORD_BITS);
    Pow2Word();
    LowMaskBits(WORD_BITS, SIZE_MAX);
    ZeroBits();
    NotBits(SIZE_MAX);
    BitsInjective(mask, 0);
    var w := Sub(Add(v, 0), 1);
    AndBits(w, mask);
    BitsInjective(And(w, mask), 0);
  }
}
