/**
 * Unsigned 64-bit machine words, as C's `size_t` and `uintptr_t` behave on the
 * 64-bit targets the allocator is written for.
 *
 * A word is a `nat` below 2^64. Addition and subtraction wrap modulo 2^64.
 * The bitwise operators `|`, `&`, `~` and `>>` are defined on the word's 64
 * bits, least significant first (`Bits`), so that the bit-smearing and
 * masking code of the allocator can be written operator for operator.
 */
module Words {
  const WORD_BITS: nat := 64
  const WORD_MODULUS: nat := 0x1_0000_0000_0000_0000

  /** A value of C type `size_t` (equally `uintptr_t`) on a 64-bit target. */
  type Size = x: nat | x < WORD_MODULUS

  const SIZE_MAX: Size := WORD_MODULUS - 1

  // ---------------------------------------------------------------------------
  // Powers of two

  function Pow2(k: nat): (r: nat)
    ensures r >= 1
  {
    if k == 0 then 1 else 2 * Pow2(k - 1)
  }

  lemma {:induction false} Pow2Add(a: nat, b: nat)
    ensures Pow2(a + b) == Pow2(a) * Pow2(b)
  {
    if a > 0 {
      Pow2Add(a - 1, b);
    }
  }

  lemma Pow2Of16()
    ensures Pow2(16) == 0x1_0000
  {
    assert Pow2(8) == 0x100;
    Pow2Add(8, 8);
  }

  lemma Pow2Of32()
    ensures Pow2(32) == 0x1_0000_0000
  {
    Pow2Of16();
    Pow2Add(16, 16);
  }

  lemma Pow2Word()
    ensures Pow2(WORD_BITS) == WORD_MODULUS
    ensures Pow2(WORD_BITS - 1) == WORD_MODULUS / 2
  {
    Pow2Of32();
    Pow2Add(32, 32);
  }

  /** Pow2 is strictly increasing. */
  lemma {:induction false} Pow2Increasing(j: nat, k: nat)
    requires j < k
    ensures Pow2(j) < Pow2(k)
  {
    if j + 1 < k {
      Pow2Increasing(j, k - 1);
    }
  }

  lemma Pow2Monotone(j: nat, k: nat)
    requires j <= k
    ensures Pow2(j) <= Pow2(k)
  {
    if j < k {
      Pow2Increasing(j, k);
    }
  }

  /** Pow2 preserves and reflects the order of exponents. */
  lemma Pow2Order(j: nat, k: nat)
    ensures j < k <==> Pow2(j) < Pow2(k)
    ensures j <= k <==> Pow2(j) <= Pow2(k)
  {
    if j < k {
      Pow2Increasing(j, k);
    } else {
      Pow2Monotone(k, j);
    }
  }

  /** The powers of two, recognised by halving. */
  predicate IsPow2(n: nat)
    decreases n
  {
    if n <= 1 then n == 1 else n % 2 == 0 && IsPow2(n / 2)
  }

  /** The exponent of a power of two. */
  function Log2(n: nat): (k: nat)
    requires IsPow2(n)
    ensures Pow2(k) == n
    decreases n
  {
    if n == 1 then 0 else 1 + Log2(n / 2)
  }

  lemma {:induction false} IsPow2Pow2(k: nat)
    ensures IsPow2(Pow2(k))
  {
    if k > 0 {
      IsPow2Pow2(k - 1);
      assert Pow2(k) / 2 == Pow2(k - 1);
    }
  }

  /** The number of bits needed to write `x`: its top set bit is bit l-1. */
  function BitLen(x: nat): (l: nat)
    ensures x == 0 ==> l == 0
    ensures x > 0 ==> l >= 1 && Pow2(l - 1) <= x < Pow2(l)
  {
    if x == 0 then 0 else 1 + BitLen(x / 2)
  }

  /** A word needs at most 64 bits. */
  lemma BitLenWord(x: Size)
    ensures BitLen(x) <= WORD_BITS
  {
    Pow2Word();
    if x > 0 {
      Pow2Order(WORD_BITS, BitLen(x) - 1);
    }
  }

  /** The power of two 2^BitLen(x) is the least one above x. */
  lemma BitLenBracket(x: nat)
    requires x < WORD_MODULUS / 2
    ensures Pow2(BitLen(x)) <= WORD_MODULUS / 2
    ensures x < Pow2(BitLen(x)) < 2 * (x + 1)
  {
    var l := BitLen(x);
    Pow2Word();
    if x > 0 {
      Pow2Order(WORD_BITS - 1, l - 1);
    }
    Pow2Order(l, WORD_BITS - 1);
  }

  /** Of two powers of two, one below twice v and one at least v, the first is the smaller. */
  lemma Pow2Below(r: nat, p: nat, v: nat)
    requires IsPow2(r) && IsPow2(p)
    requires r < 2 * v && v <= p
    ensures r <= p
  {
    var k, m := Log2(r), Log2(p);
    if k > 0 {
      Pow2Order(m, k - 1);
      assert Pow2(k) == 2 * Pow2(k - 1);
    }
    Pow2Order(k, m);
  }

  /** A power of two that fits in a word is at most 2^63. */
  lemma Pow2InWord(n: nat)
    requires IsPow2(n) && n < WORD_MODULUS
    ensures n <= WORD_MODULUS / 2
  {
    var k := Log2(n);
    Pow2Word();
    Pow2Order(WORD_BITS, k);
    Pow2Order(k, WORD_BITS - 1);
  }

  /** A larger power of two is a multiple of a smaller one. */
  lemma Pow2Divides(j: nat, k: nat)
    requires j <= k
    ensures Pow2(k) % Pow2(j) == 0
  {
    Pow2Add(j, k - j);
    MultipleMod(Pow2(j), Pow2(k - j));
  }

  // ---------------------------------------------------------------------------
  // Multiples

  lemma {:induction false} MulAtLeast(a: nat, k: nat)
    requires k >= 1
    ensures a * k >= a
  {
    if k > 1 {
      MulAtLeast(a, k - 1);
      assert a * k == a * (k - 1) + a;
    }
  }

  /** A nonzero multiplier moves a product at least `a` away from 0. */
  lemma MulSign(a: int, t: int)
    requires a > 0
    ensures t >= 1 ==> a * t >= a
    ensures t <= -1 ==> a * t <= -a
  {
    if t >= 1 {
      MulAtLeast(a, t);
    } else if t <= -1 {
      MulAtLeast(a, -t);
      assert a * t == -(a * -t);
    }
  }

  /** A multiple of `a` leaves no remainder. */
  lemma MultipleMod(a: nat, q: nat)
    requires a > 0
    ensures (a * q) % a == 0
  {
    var d, m := (a * q) / a, (a * q) % a;
    assert a * q == a * d + m && 0 <= m < a;
    assert a * (q - d) == m;
    MulSign(a, q - d);
  }

  /** Two distinct multiples of `a` are at least `a` apart. */
  lemma MultiplesSpread(a: nat, x: nat, y: nat)
    requires a > 0 && x % a == 0 && y % a == 0
    ensures x == y || x + a <= y || y + a <= x
  {
    var qx, qy := x / a, y / a;
    assert x == a * qx && y == a * qy;
    assert y - x == a * (qy - qx);
    MulSign(a, qy - qx);
  }

  // ---------------------------------------------------------------------------
  // Bits: a number as a little-endian sequence of bits

  function ToBits(x: nat, n: nat): (b: seq<bool>)
    ensures |b| == n
  {
    if n == 0 then [] else [x % 2 == 1] + ToBits(x / 2, n - 1)
  }

  function FromBits(b: seq<bool>): (x: nat)
    ensures x < Pow2(|b|)
  {
    if b == [] then 0 else (if b[0] then 1 else 0) + 2 * FromBits(b[1..])
  }

  /** Reading back the bits of a number that fits gives the number. */
  lemma {:induction false} FromToBits(x: nat, n: nat)
    requires x < Pow2(n)
    ensures FromBits(ToBits(x, n)) == x
  {
    if n > 0 {
      FromToBits(x / 2, n - 1);
    }
  }

  /** Writing out the bits of the value of a bit sequence gives the sequence. */
  lemma {:induction false} ToFromBits(b: seq<bool>)
    ensures ToBits(FromBits(b), |b|) == b
  {
    if b != [] {
      ToFromBits(b[1..]);
      var x := FromBits(b);
      assert x % 2 == 1 <==> b[0];
      assert x / 2 == FromBits(b[1..]);
      assert ToBits(x, |b|) == [b[0]] + b[1..];
    }
  }

  /** No bit at or above `l` is set in a number below 2^l. */
  lemma {:induction false} HighBitsClear(x: nat, n: nat, l: nat, j: nat)
    requires x < Pow2(l) && l <= j < n
    ensures !ToBits(x, n)[j]
  {
    if l == 0 {
      assert x == 0;
      if j > 0 {
        HighBitsClear(0, n - 1, 0, j - 1);
      }
    } else {
      HighBitsClear(x / 2, n - 1, l - 1, j - 1);
    }
  }

  /** The top bit of a number in [2^(l-1), 2^l) is bit l-1. */
  lemma {:induction false} TopBitSet(x: nat, n: nat, l: nat)
    requires 1 <= l <= n && Pow2(l - 1) <= x < Pow2(l)
    ensures ToBits(x, n)[l - 1]
  {
    if l > 1 {
      TopBitSet(x / 2, n - 1, l - 1);
    }
  }

  /** The value of a bit sequence is its low part plus its high part scaled. */
  lemma {:induction false} FromBitsAppend(p: seq<bool>, q: seq<bool>)
    ensures FromBits(p + q) == FromBits(p) + Pow2(|p|) * FromBits(q)
  {
    if p != [] {
      assert (p + q)[1..] == p[1..] + q;
      FromBitsAppend(p[1..], q);
      var b0 := if p[0] then 1 else 0;
      var rest, hi, scale := FromBits(p[1..]), FromBits(q), Pow2(|p| - 1);
      assert (p + q)[0] == p[0];
      assert FromBits(p + q) == b0 + 2 * FromBits(p[1..] + q);
      ScaleStep(rest, scale, hi);
    } else {
      assert p + q == q;
    }
  }

  lemma ScaleStep(rest: nat, scale: nat, hi: nat)
    ensures 2 * (rest + scale * hi) == 2 * rest + (2 * scale) * hi
  {
  }

  lemma {:induction false} FromBitsZeros(n: nat)
    ensures FromBits(seq(n, i => false)) == 0
  {
    if n > 0 {
      assert seq(n, i => false)[1..] == seq(n - 1, i => false);
      FromBitsZeros(n - 1);
    }
  }

  /** The sequence whose first `k` bits are set and the rest clear has value 2^k - 1. */
  lemma {:induction false} FromBitsLowOnes(n: nat, k: nat)
    requires k <= n
    ensures FromBits(seq(n, i => i < k)) == Pow2(k) - 1
  {
    if k == 0 {
      assert seq(n, i => i < k) == seq(n, i => false);
      FromBitsZeros(n);
    } else {
      assert seq(n, i => i < k)[1..] == seq(n - 1, i => i < k - 1);
      FromBitsLowOnes(n - 1, k - 1);
    }
  }

  // ---------------------------------------------------------------------------
  // Words as 64 bits

  function Bits(x: Size): (b: seq<bool>)
    ensures |b| == WORD_BITS
  {
    ToBits(x, WORD_BITS)
  }

  /** The word whose bits are `b`; the inverse of Bits. */
  function Word(b: seq<bool>): Size
    requires |b| == WORD_BITS
  {
    Pow2Word();
    FromBits(b)
  }

  lemma BitsOfWord(b: seq<bool>)
    requires |b| == WORD_BITS
    ensures Bits(Word(b)) == b
  {
    Pow2Word();
    ToFromBits(b);
  }

  lemma WordOfBits(x: Size)
    ensures Word(Bits(x)) == x
  {
    Pow2Word();
    FromToBits(x, WORD_BITS);
  }

  /** Two words with the same bits are equal. */
  lemma BitsInjective(x: Size, y: Size)
    requires forall i :: 0 <= i < WORD_BITS ==> Bits(x)[i] == Bits(y)[i]
    ensures x == y
  {
    assert Bits(x) == Bits(y);
    WordOfBits(x);
    WordOfBits(y);
  }

  /** C `x | y`. */
  function Or(x: Size, y: Size): Size
  {
    Word(seq(WORD_BITS, i requires 0 <= i < WORD_BITS => Bits(x)[i] || Bits(y)[i]))
  }

  /** C `x & y`. */
  function And(x: Size, y: Size): Size
  {
    Word(seq(WORD_BITS, i requires 0 <= i < WORD_BITS => Bits(x)[i] && Bits(y)[i]))
  }

  /** C `~x`. */
  function Not(x: Size): Size
  {
    Word(seq(WORD_BITS, i requires 0 <= i < WORD_BITS => !Bits(x)[i]))
  }

  /** C `x >> s` for a shift amount below the width. */
  function Shr(x: Size, s: nat): Size
    requires s < WORD_BITS
  {
    Word(seq(WORD_BITS, i requires 0 <= i < WORD_BITS => i + s < WORD_BITS && Bits(x)[i + s]))
  }

  lemma OrBits(x: Size, y: Size)
    ensures forall i :: 0 <= i < WORD_BITS ==> Bits(Or(x, y))[i] == (Bits(x)[i] || Bits(y)[i])
  {
    BitsOfWord(seq(WORD_BITS, i requires 0 <= i < WORD_BITS => Bits(x)[i] || Bits(y)[i]));
  }

  lemma AndBits(x: Size, y: Size)
    ensures forall i :: 0 <= i < WORD_BITS ==> Bits(And(x, y))[i] == (Bits(x)[i] && Bits(y)[i])
  {
    BitsOfWord(seq(WORD_BITS, i requires 0 <= i < WORD_BITS => Bits(x)[i] && Bits(y)[i]));
  }

  lemma NotBits(x: Size)
    ensures forall i :: 0 <= i < WORD_BITS ==> Bits(Not(x))[i] == !Bits(x)[i]
  {
    BitsOfWord(seq(WORD_BITS, i requires 0 <= i < WORD_BITS => !Bits(x)[i]));
  }

  lemma ShrBits(x: Size, s: nat)
    requires s < WORD_BITS
    ensures forall i :: 0 <= i < WORD_BITS ==> Bits(Shr(x, s))[i] == (i + s < WORD_BITS && Bits(x)[i + s])
  {
    BitsOfWord(seq(WORD_BITS, i requires 0 <= i < WORD_BITS => i + s < WORD_BITS && Bits(x)[i + s]));
  }

  /** C `x + y` on size_t: exact unless the sum reaches 2^64, then wrapped. */
  function Add(x: Size, y: Size): (r: Size)
    ensures x + y < WORD_MODULUS ==> r == x + y
    ensures x + y >= WORD_MODULUS ==> r == x + y - WORD_MODULUS
  {
    (x + y) % WORD_MODULUS
  }

  /** C `x - y` on size_t: exact unless y exceeds x, then wrapped. */
  function Sub(x: Size, y: Size): (r: Size)
    ensures y <= x ==> r == x - y
    ensures y > x ==> r == x + WORD_MODULUS - y
  {
    (x - y) % WORD_MODULUS
  }

  // ---------------------------------------------------------------------------
  // What the bit operations mean for the numbers

  /** The word 2^k - 1 has exactly its low k bits set. */
  lemma LowMaskBits(k: nat, m: Size)
    requires k <= WORD_BITS && m == Pow2(k) - 1
    ensures forall i :: 0 <= i < WORD_BITS ==> Bits(m)[i] == (i < k)
  {
    Pow2Word();
    FromBitsLowOnes(WORD_BITS, k);
    var b := seq(WORD_BITS, i => i < k);
    BitsOfWord(b);
    assert Word(b) == m;
  }

  /** 2^k - 1 is a word for every k up to the width. */
  lemma LowMaskFits(k: nat)
    requires k <= WORD_BITS
    ensures Pow2(k) - 1 < WORD_MODULUS
  {
    Pow2Word();
    Pow2Monotone(k, WORD_BITS);
  }

  /** A word whose set bits are exactly those below `k` is 2^k - 1. */
  lemma LowOnesValue(x: Size, k: nat)
    requires k <= WORD_BITS
    requires forall i :: 0 <= i < WORD_BITS ==> Bits(x)[i] == (i < k)
    ensures x == Pow2(k) - 1
  {
    LowMaskFits(k);
    LowMaskBits(k, Pow2(k) - 1);
    BitsInjective(x, Pow2(k) - 1);
  }

  /**
   * Clearing the low k bits of a word leaves a multiple of 2^k that is at
   * most the word and less than 2^k below it.
   */
  lemma ClearLowBits(x: Size, r: Size, k: nat)
    requires k <= WORD_BITS
    requires forall i :: 0 <= i < WORD_BITS ==> Bits(r)[i] == (i >= k && Bits(x)[i])
    ensures r % Pow2(k) == 0 && r <= x && x - r < Pow2(k)
  {
    var bx, br := Bits(x), Bits(r);
    SplitBits(x, k);
    SplitBits(r, k);
    ClearedPrefix(bx, br, k);
    FromBitsZeros(k);
    var high := FromBits(bx[k..]);
    assert r == Pow2(k) * high;
    MultipleMod(Pow2(k), high);
  }

  /** Bits cleared below k: the low part is all zeros and the high part is kept. */
  lemma ClearedPrefix(bx: seq<bool>, br: seq<bool>, k: nat)
    requires k <= |bx| == |br|
    requires forall i :: 0 <= i < |br| ==> br[i] == (i >= k && bx[i])
    ensures br[..k] == seq(k, i => false) && br[k..] == bx[k..]
  {
  }

  /** A word is its low k bits plus 2^k times its remaining high bits. */
  lemma SplitBits(x: Size, k: nat)
    requires k <= WORD_BITS
    ensures x == FromBits(Bits(x)[..k]) + Pow2(k) * FromBits(Bits(x)[k..])
  {
    Pow2Word();
    var b := Bits(x);
    assert b == b[..k] + b[k..];
    FromBitsAppend(b[..k], b[k..]);
    FromToBits(x, WORD_BITS);
  }

  /** Every bit of the zero word is clear. */
  lemma ZeroBits()
    ensures forall i :: 0 <= i < WORD_BITS ==> !Bits(0)[i]
  {
    LowMaskBits(0, 0);
  }
}
