/** The single-word primitives of the 64-bit backend: leading-bit scan, bit test-and-set,
    double-word multiplication and division. The source implements them in assembly;
    here each is its documented arithmetic contract over words of w bits. */
module WordOps {
  import opened Arith
  import opened Bits

  /** index of the highest set bit of x, or -1 when x is 0 */
  function FindLeadingBitInWord(x: nat): (r: int)
    ensures r >= -1
    ensures r == -1 <==> x == 0
    ensures x > 0 ==> Pow2(r) <= x < Pow2(r + 1)
  {
    if x == 0 then -1
    else if x == 1 then 0
    else
      var h := FindLeadingBitInWord(x / 2);
      assert 2 * (x / 2) <= x < 2 * (x / 2) + 2;
      1 + h
  }

  /** the highest set bit of a w-bit word is below w */
  lemma LeadingBitBelow(x: nat, w: nat)
    requires 0 < x < Pow2(w)
    ensures FindLeadingBitInWord(x) < w
  {
    var r := FindLeadingBitInWord(x);
    if r >= w {
      Pow2Le(w, r);
      assert false;
    }
  }

  /** The leading bit is the only k with 2^k <= x < 2^(k+1). */
  lemma LeadingBitUnique(x: nat, k: nat)
    requires Pow2(k) <= x < Pow2(k + 1)
    ensures FindLeadingBitInWord(x) == k
  {
    var r := FindLeadingBitInWord(x);
    if r < k {
      Pow2Le(r + 1, k);
      assert false;
    } else if r > k {
      Pow2Le(k + 1, r);
      assert false;
    }
  }

  /** The leading bit of x is set, and every bit above it is clear. */
  lemma LeadingBitIsSet(x: nat)
    requires x > 0
    ensures Bit(x, FindLeadingBitInWord(x) as nat) == 1
    ensures forall j :: FindLeadingBitInWord(x) < j ==> Bit(x, j) == 0
  {
    var r := FindLeadingBitInWord(x) as nat;
    var lo := x - Pow2(r);
    assert x == 1 * Pow2(r) + lo;
    BitConcat(1, lo, r, r);
    forall j | r < j
      ensures Bit(x, j) == 0
    {
      BitHigh(x, r + 1, j);
    }
  }

  /** Sets bit `bit` of a w-bit word; the new word and the bit's previous state. */
  method SetBitInWord(value: nat, bit: nat, w: nat) returns (newValue: nat, oldBit: nat)
    requires value < Pow2(w) && bit < w
    ensures oldBit == Bit(value, bit)
    ensures newValue < Pow2(w)
    ensures forall j :: Bit(newValue, j) == if j == bit then 1 else Bit(value, j)
    ensures newValue == if oldBit == 1 then value else value + Pow2(bit)
  {
    oldBit := Bit(value, bit);
    if oldBit == 1 {
      newValue := value;
      forall j ensures Bit(newValue, j) == if j == bit then 1 else Bit(value, j) {
      }
    } else {
      newValue := value + Pow2(bit);
      forall j ensures Bit(newValue, j) == if j == bit then 1 else Bit(value, j) {
        SetBitBits(value, bit, j);
      }
      SetBitBound(value, bit, w);
    }
  }

  /** A clear bit below w can be set without leaving the word. */
  lemma SetBitBound(x: nat, i: nat, w: nat)
    requires x < Pow2(w) && i < w && Bit(x, i) == 0
    ensures x + Pow2(i) < Pow2(w)
  {
    var p := Pow2(i);
    var m := Pow2(w - i);
    Pow2Even(w - i);
    Pow2Add(w - i, i);
    DivNat(x, p);
    var q, lo := x / p, x % p;
    DivBound(x, p, m);
    BitDiv(x, i);
    EvenConcatBound(q, lo, m, p);
    MulDistrib(p, q, 1);
  }

  lemma Pow2Even(k: nat)
    requires k >= 1
    ensures Pow2(k) % 2 == 0
  {
    assert Pow2(k) == 2 * Pow2(k - 1);
  }

  lemma EvenConcatBound(q: nat, lo: nat, m: nat, p: nat)
    requires q < m && q % 2 == 0 && m % 2 == 0 && lo < p
    ensures (q + 1) * p + lo < m * p
  {
    ConcatBound(q + 1, lo, m, p);
  }

  /** The double-word product of two words: high * 2^w + low == a * b. */
  function MulTwoWords(a: nat, b: nat, w: nat): (r: (nat, nat))
    requires a < Pow2(w) && b < Pow2(w)
    ensures r.0 < Pow2(w) && r.1 < Pow2(w)
    ensures r.0 * Pow2(w) + r.1 == a * b
  {
    var p, B := a * b, Pow2(w);
    MulStrictBound(a, b, B, B);
    DivNat(p, B);
    DivBound(p, B, B);
    (p / B, p % B)
  }

  /** Divides the double word a * 2^w + b by c; the quotient must fit in a word (a < c).
      Returns the quotient and the remainder. */
  function DivTwoWords(a: nat, b: nat, c: nat, w: nat): (r: (nat, nat))
    requires c != 0 && a < c && b < Pow2(w)
    ensures r.0 < Pow2(w) && r.1 < c
    ensures r.0 * c + r.1 == a * Pow2(w) + b
  {
    var B := Pow2(w);
    var u := a * B + b;
    ConcatBound(a, b, c, B);
    DivNat(u, c);
    DivBound(u, c, B);
    (u / c, u % c)
  }
}
