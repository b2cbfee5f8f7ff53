/** The arithmetic behind the multiplication loops: partial products of a word vector by a
    number, double words placed at a word position, and the shift-and-add recurrence. */
module Mult {
  import opened Arith
  import opened Words
  import opened Bits
  import opened Vec

  /** One more word of the multiplicand: the partial product grows by u[k] * m at word k. */
  lemma PartialProductStep(u: seq<nat>, k: nat, m: nat, w: nat)
    requires k < |u|
    ensures Val(u[..k + 1], w) * m == Val(u[..k], w) * m + u[k] * m * WPow(w, k)
  {
    var L, P := Val(u[..k], w), WPow(w, k);
    ValPrefix(u, k, w);
    assert (L + u[k] * P) * m == L * m + u[k] * P * m by {
      MulDistrib(m, L, u[k] * P);
    }
    assert u[k] * P * m == u[k] * m * P by {
      MulAssoc(u[k], P, m);
      MulComm(P, m);
      MulAssoc(u[k], m, P);
    }
  }

  /** A partial product never exceeds the whole product. */
  lemma PartialProductLe(u: seq<nat>, k: nat, m: nat, w: nat)
    requires IsWords(u, w) && k <= |u|
    ensures Val(u[..k], w) * m <= Val(u, w) * m
  {
    ValSplit(u, k, w);
    ModLe(Val(u, w), WPow(w, k));
    MulMonotone(Val(u[..k], w), Val(u, w), m);
  }

  /** The partial product over a prefix of zero words is zero. */
  lemma ZeroPrefixProduct(u: seq<nat>, k: nat, m: nat, w: nat)
    requires k <= |u| && forall i :: 0 <= i < k ==> u[i] == 0
    ensures Val(u[..k], w) * m == 0
  {
    ValZero(u[..k], w);
  }

  /** The partial product up to the last nonzero word is the whole product. */
  lemma ZeroSuffixProduct(u: seq<nat>, k: nat, m: nat, w: nat)
    requires k <= |u| && forall i :: k <= i < |u| ==> u[i] == 0
    ensures Val(u[..k], w) * m == Val(u, w) * m
  {
    ValHighZero(u, k, w);
  }

  /** The double word hi * 2^w + lo placed at word k: lo at word k, hi at word k + 1. */
  lemma PlacedProduct(p: nat, hi: nat, lo: nat, w: nat, k: nat)
    requires hi * Pow2(w) + lo == p
    ensures lo * WPow(w, k) + hi * WPow(w, k + 1) == p * WPow(w, k)
  {
    var B, P := Pow2(w), WPow(w, k);
    assert WPow(w, k + 1) == B * P;
    assert hi * (B * P) == (hi * B) * P by { MulAssoc(hi, B, P); }
    MulDistrib(P, hi * B, lo);
  }

  /** An n-word number times a word fits in n + 1 words. */
  lemma WordProductBound(x: nat, y: nat, w: nat, n: nat)
    requires x < WPow(w, n) && y < Pow2(w)
    ensures x * y < WPow(w, n + 1)
  {
    MulStrictBound(x, y, WPow(w, n), Pow2(w));
    MulComm(WPow(w, n), Pow2(w));
  }

  /** Two n-word numbers multiply to fewer than 2n words. */
  lemma DoubleProductBound(x: nat, y: nat, w: nat, n: nat)
    requires x < WPow(w, n) && y < WPow(w, n)
    ensures x * y < WPow(w, n + n)
  {
    MulStrictBound(x, y, WPow(w, n), WPow(w, n));
    WPowAdd(w, n, n);
  }

  /** x >> k is twice x >> (k + 1) plus bit k. */
  lemma ShrStepBit(x: nat, k: nat)
    ensures Shr(x, k) == 2 * Shr(x, k + 1) + Bit(x, k)
  {
    var q := x / Pow2(k);
    assert Bit(x, k) == q % 2 by { BitDiv(x, k); }
    assert Shr(x, k + 1) == q / 2 by {
      DivPow2Add(x, k, 1);
      assert Pow2(1) == 2;
    }
    DivNat(q, 2);
  }

  /** One step of the shift-and-add loop: doubling the product of the top bits of x so far
      and adding y when the next bit is set gives the product of one more top bit. */
  lemma ShiftAddStep(x: nat, y: nat, k: nat, p: nat)
    requires p == Shr(x, k + 1) * y
    ensures 2 * p + Bit(x, k) * y == Shr(x, k) * y
    ensures 2 * p <= Shr(x, k) * y <= x * y
  {
    ShrStepBit(x, k);
    var h := Shr(x, k + 1);
    assert (2 * h + Bit(x, k)) * y == 2 * (h * y) + Bit(x, k) * y by {
      MulDistrib(y, 2 * h, Bit(x, k));
      MulAssoc(2, h, y);
    }
    assert Shr(x, k) <= x by {
      DivLower(x, Pow2(k), 0);
      ModLe(x, Pow2(k));
      DivNat(x, Pow2(k));
      MulMonotone(1, Pow2(k), x / Pow2(k));
      MulComm(x / Pow2(k), Pow2(k));
    }
    MulMonotone(Shr(x, k), x, y);
  }

  /** All bits shifted out: x >> t is zero for a t-bit x. */
  lemma ShrAll(x: nat, t: nat)
    requires x < Pow2(t)
    ensures Shr(x, t) == 0 && Shr(x, 0) == x
  {
    SmallDivMod(x, Pow2(t));
  }

  /** One pass of the word-by-number loop: with s the partial product of the first k words,
      the double word hi lo of u[k] * m placed at word k gives the partial product of k + 1
      words, and that is at most the whole product. */
  lemma WordProductPass(u: seq<nat>, k: nat, m: nat, w: nat, s: int, hi: nat, lo: nat)
    requires IsWords(u, w) && k < |u|
    requires s == Val(u[..k], w) * m && hi * Pow2(w) + lo == u[k] * m
    ensures s + lo * WPow(w, k) + hi * WPow(w, k + 1) == Val(u[..k + 1], w) * m
    ensures Val(u[..k + 1], w) * m <= Val(u, w) * m
  {
    PartialProductStep(u, k, m, w);
    MulMonotone(0, u[k], m);
    PlacedProduct(u[k] * m, hi, lo, w, k);
    PartialProductLe(u, k + 1, m, w);
  }

  /** One step of the schoolbook inner loop: the double-word product m * b[k], added at
      words i + k and i + k + 1, extends the row m * b by one word. */
  lemma SchoolbookStep(m: nat, b: seq<nat>, k: nat, i: nat, hi: nat, lo: nat, w: nat)
    requires k < |b| && hi * Pow2(w) + lo == m * b[k]
    ensures m * Val(b[..k], w) * WPow(w, i) + lo * WPow(w, i + k) + hi * WPow(w, i + k + 1)
         == m * Val(b[..k + 1], w) * WPow(w, i)
  {
    var P, Q, L := WPow(w, i), WPow(w, k), Val(b[..k], w);
    PlacedProduct(m * b[k], hi, lo, w, i + k);
    assert WPow(w, i + k) == Q * P by {
      WPowAdd(w, i, k);
      MulComm(P, Q);
    }
    ValPrefix(b, k, w);
    assert m * (L + b[k] * Q) == m * L + m * b[k] * Q by {
      MulDistrib(m, L, b[k] * Q);
      MulAssoc(m, b[k], Q);
    }
    assert m * b[k] * (Q * P) == m * b[k] * Q * P by { MulAssoc(m * b[k], Q, P); }
    MulDistrib(P, m * L, m * b[k] * Q);
  }

  /** The rows summed so far plus part of the current row stay within the full product. */
  lemma SchoolbookBound(a: seq<nat>, b: seq<nat>, i: nat, k: nat, w: nat)
    requires IsWords(a, w) && IsWords(b, w) && i < |a| && k <= |b|
    ensures Val(a[..i], w) * Val(b, w) + a[i] * Val(b[..k], w) * WPow(w, i)
         <= Val(a[..i + 1], w) * Val(b, w)
    ensures Val(a[..i + 1], w) * Val(b, w) <= Val(a, w) * Val(b, w)
  {
    var Y, P := Val(b, w), WPow(w, i);
    PartialProductLe(b, k, 1, w);
    MulMonotone(Val(b[..k], w), Y, a[i]);
    MulComm(Val(b[..k], w), a[i]);
    MulComm(Y, a[i]);
    MulMonotone(a[i] * Val(b[..k], w), a[i] * Y, P);
    PartialProductStep(a, i, Y, w);
    PartialProductLe(a, i + 1, Y, w);
  }

  /** The guard of the last-word test in MulInt(uint) as the library writes it: x1 is
      compared with value_size - 2 computed in w-bit unsigned arithmetic, which wraps
      around when value_size is 1. */
  function MulIntTwoWordGuard(x1: nat, size: nat, w: nat): bool
  {
    x1 <= (size - 2) % Pow2(w)
  }

  /** With a single word the wrapped guard still takes the two-word branch for word 0,
      which adds a high word at index 1, past the end of the vector. */
  lemma MulIntGuardWraps(w: nat)
    ensures MulIntTwoWordGuard(0, 1, w)
  {
    DivModUnique(-1, Pow2(w), -1, Pow2(w) - 1);
  }

  /** From two words on the wrapped guard is the intended x1 + 2 <= value_size. */
  lemma MulIntGuardAgrees(x1: nat, size: nat, w: nat)
    requires 2 <= size < Pow2(w)
    ensures MulIntTwoWordGuard(x1, size, w) <==> x1 + 2 <= size
  {
    SmallDivMod(size - 2, Pow2(w));
  }

  /** The low n words of a number P held in more words: they hold P modulo B^n, and the
      higher words are all zero exactly when P fits in n words, in which case the low words
      hold P. This is the overflow test of Mul2 and of a narrowing FromUInt. */
  lemma LowWords(r: seq<nat>, n: nat, P: nat, w: nat)
    requires IsWords(r, w) && n <= |r| && Val(r, w) == P
    ensures Val(r[..n], w) == P % WPow(w, n)
    ensures P < WPow(w, n) <==> forall j :: n <= j < |r| ==> r[j] == 0
    ensures P < WPow(w, n) ==> Val(r[..n], w) == P
  {
    var C := WPow(w, n);
    ValSplit(r, n, w);
    ValZero(r[n..], w);
    DivNat(P, C);
    if P < C {
      SmallDivMod(P, C);
    }
    if P / C == 0 {
      forall j | n <= j < |r| ensures r[j] == 0 {
        assert r[j] == r[n..][j - n];
      }
    } else {
      QuotientNonzero(P, C);
      var k :| 0 <= k < |r[n..]| && r[n..][k] != 0;
      assert r[n + k] != 0;
    }
  }

  /** A nonzero quotient: x / m >= 1 gives x >= m. */
  lemma QuotientNonzero(x: nat, m: nat)
    requires m > 0 && x / m != 0
    ensures x >= m
  {
    if x < m {
      SmallDivMod(x, m);
    }
  }
}
