/** Whole-vector shifts: one word shifted through the carry, and the word-moving fast path
    of the composite shifts, each tied to the bit-level shift functions of Bits. */
module Shifts {
  import opened Arith
  import opened Words
  import opened Bits
  import opened Vec

  /** The per-word step of Rcl2: the word shifted left by k bits with the carried-in bits
      cin below; the k bits that leave the top are the carry out. */
  function ShiftWordLeft(x: nat, k: nat, w: nat, cin: nat): (r: (nat, nat))
    requires x < Pow2(w) && k <= w && cin < Pow2(k)
    ensures r.0 < Pow2(w) && r.1 < Pow2(k)
    ensures r.0 + r.1 * Pow2(w) == x * Pow2(k) + cin
  {
    var m, K := Pow2(w - k), Pow2(k);
    ShlWord(x, k, w, cin);
    DivNat(x, m);
    var hi: nat, lo: nat := x / m, x % m;
    (lo * K + cin, hi)
  }

  /** The per-word step of Rcr2: the word shifted right by k bits with the carried-in bits
      cin above; the k bits that leave the bottom are the carry out. */
  function ShiftWordRight(x: nat, k: nat, w: nat, cin: nat): (r: (nat, nat))
    requires x < Pow2(w) && k <= w && cin < Pow2(k)
    ensures r.0 < Pow2(w) && r.1 < Pow2(k)
    ensures r.0 * Pow2(k) + r.1 == x + cin * Pow2(w)
  {
    var m, K := Pow2(w - k), Pow2(k);
    ShrWord(x, k, w, cin);
    DivNat(x, K);
    var hi: nat, lo: nat := x / K, x % K;
    (hi + cin * m, lo)
  }

  /** A bit count split into whole words and the remaining bits: bits / w and bits % w. */
  function SplitBits(bits: nat, w: nat): (r: (nat, nat))
    requires w > 0
    ensures r.0 * w + r.1 == bits && r.1 < w
  {
    DivNat(bits, w);
    var all: nat, rest: nat := bits / w, bits % w;
    (all, rest)
  }

  /** How the split of a bit count compares with a width of n words. */
  lemma SplitBitsBounds(bits: nat, w: nat, n: nat)
    requires w > 0
    ensures var (all, rest) := SplitBits(bits, w);
      w * all + rest == bits && (all == 0 <==> bits < w) &&
      (all < n ==> w * all + w <= w * n) &&
      (all >= n ==> w * n <= w * all) &&
      (bits == w * n <==> all == n && rest == 0)
  {
    var (all, rest) := SplitBits(bits, w);
    MulComm(all, w);
    if all > 0 {
      MulMonotone(1, all, w);
    }
    if all < n {
      MulMonotone(all + 1, n, w);
      MulComm(all + 1, w);
      MulComm(n, w);
    } else {
      MulMonotone(n, all, w);
      MulComm(n, w);
      if all > n {
        MulMonotone(n + 1, all, w);
        MulComm(n + 1, w);
      }
    }
  }

  /** m words of the fill mask denote the fill mask of m * w bits. */
  lemma ValFill(m: nat, fill: bool, w: nat)
    ensures Val(Fill(m, FillMask(w, fill)), w) == FillMask(w * m, fill)
  {
    WPowIsPow2(w, m);
    if fill {
      ValAllOnes(Fill(m, FillMask(w, fill)), w);
    } else {
      ValZero(Fill(m, FillMask(w, fill)), w);
    }
  }

  /** m fill words below a vector */
  lemma ValFillBelow(m: nat, fill: bool, w: nat, rest: seq<nat>)
    ensures Val(Fill(m, FillMask(w, fill)) + rest, w) == FillMask(w * m, fill) + WPow(w, m) * Val(rest, w)
  {
    var low := Fill(m, FillMask(w, fill));
    ValAppend(low, rest, w);
    var Vl := Val(low, w);
    assert Vl == FillMask(w * m, fill) by { ValFill(m, fill, w); }
  }

  /** m fill words above a vector, F being the fill mask of m * w bits */
  lemma ValFillAbove(m: nat, fill: bool, w: nat, rest: seq<nat>, F: nat)
    requires F == FillMask(w * m, fill)
    ensures Val(rest + Fill(m, FillMask(w, fill)), w) == Val(rest, w) + WPow(w, |rest|) * F
  {
    var high := Fill(m, FillMask(w, fill));
    assert Val(high, w) == F by { ValFill(m, fill, w); }
    ValAppendKnown(rest, high, F, w);
  }

  lemma ValAppendKnown(rest: seq<nat>, high: seq<nat>, F: nat, w: nat)
    requires Val(high, w) == F
    ensures Val(rest + high, w) == Val(rest, w) + WPow(w, |rest|) * F
  {
    ValAppend(rest, high, w);
  }

  /** (X * P + F) mod (Q * P) keeps the low part of X, shifted, with F below it. */
  lemma ShlModArith(X: nat, P: nat, Q: nat, F: nat)
    requires P > 0 && Q > 0 && F < P
    ensures (X * P + F) % (Q * P) == F + P * (X % Q)
  {
    DivNat(X, Q);
    var h, l := X / Q, X % Q;
    MulDistrib(P, h * Q, l);
    MulAssoc(h, Q, P);
    ConcatBound(l, F, Q, P);
    assert X * P + F == h * (Q * P) + (l * P + F);
    DivModSplit(h, Q * P, l * P + F);
    MulComm(P, l);
  }

  /** A left shift by m whole words, in terms of word powers. */
  lemma ShlFillWords(X: nat, m: nat, fill: bool, w: nat, n: nat)
    requires m <= n
    ensures ShlFill(X, w * m, fill, w * n) == FillMask(w * m, fill) + WPow(w, m) * (X % WPow(w, n - m))
  {
    var P, Q, F := WPow(w, m), WPow(w, n - m), FillMask(w * m, fill);
    assert Pow2(w * m) == P by { WPowIsPow2(w, m); }
    assert Pow2(w * n) == Q * P by {
      WPowIsPow2(w, n);
      WPowSplit(w, m, n);
      MulComm(P, Q);
    }
    ShlModArith(X, P, Q, F);
  }

  /** A right shift by m whole words, in terms of word powers. */
  lemma ShrFillWords(X: nat, m: nat, fill: bool, w: nat, n: nat)
    requires m <= n
    ensures ShrFill(X, w * m, fill, w * n) == X / WPow(w, m) + WPow(w, n - m) * FillMask(w * m, fill)
  {
    var P, Q, F := WPow(w, m), WPow(w, n - m), FillMask(w * m, fill);
    assert Pow2(w * m) == P by { WPowIsPow2(w, m); }
    assert w * m <= w * n && w * n - w * m == w * (n - m) by {
      MulMonotone(m, n, w);
      MulDistrib(w, n - m, m);
      MulComm(w, m);
      MulComm(w, n);
    }
    assert Pow2(w * (n - m)) == Q by { WPowIsPow2(w, n - m); }
    assert Kept(w * m, w * n) == w * (n - m);
    assert HighFill(w * m, fill, w * n) == F * Q;
    MulComm(Q, F);
  }

  /** Moving the words up by m, with m fill words below, shifts left by m * w bits. */
  lemma ShlWordsVal(a: seq<nat>, m: nat, fill: bool, w: nat)
    requires IsWords(a, w) && m <= |a|
    ensures Val(Fill(m, FillMask(w, fill)) + a[..|a| - m], w) == ShlFill(Val(a, w), w * m, fill, w * |a|)
  {
    ValFillBelow(m, fill, w, a[..|a| - m]);
    ValSplit(a, |a| - m, w);
    ShlFillWords(Val(a, w), m, fill, w, |a|);
  }

  /** Moving the words down by m, with m fill words above, shifts right by m * w bits. */
  lemma ShrWordsVal(a: seq<nat>, m: nat, fill: bool, w: nat)
    requires IsWords(a, w) && m <= |a|
    ensures Val(a[m..] + Fill(m, FillMask(w, fill)), w) == ShrFill(Val(a, w), w * m, fill, w * |a|)
  {
    ValFillAbove(m, fill, w, a[m..], FillMask(w * m, fill));
    ValSplit(a, m, w);
    ShrFillWords(Val(a, w), m, fill, w, |a|);
  }

  /** Moving the words up by |a| or more leaves only fill words. */
  lemma ShlWordsSaturated(a: seq<nat>, m: nat, fill: bool, w: nat)
    requires |a| <= m
    ensures Val(Fill(|a|, FillMask(w, fill)), w) == ShlFill(Val(a, w), w * m, fill, w * |a|)
  {
    var n := |a|;
    ValFill(n, fill, w);
    assert w * n <= w * m by {
      MulMonotone(n, m, w);
      MulComm(n, w);
      MulComm(m, w);
    }
    ShlFillSaturates(Val(a, w), w * m, fill, w * n);
  }

  /** Moving the words down by |a| or more leaves only fill words. */
  lemma ShrWordsSaturated(a: seq<nat>, m: nat, fill: bool, w: nat)
    requires IsWords(a, w) && |a| <= m
    ensures Val(Fill(|a|, FillMask(w, fill)), w) == ShrFill(Val(a, w), w * m, fill, w * |a|)
  {
    var n, X := |a|, Val(a, w);
    var t, k := w * n, w * m;
    var F := FillMask(t, fill);
    assert Val(Fill(n, FillMask(w, fill)), w) == F by {
      ValFill(n, fill, w);
    }
    assert t <= k by {
      MulMonotone(n, m, w);
      MulComm(n, w);
      MulComm(m, w);
    }
    assert X < Pow2(t) by {
      ValBound(a, w);
      WPowIsPow2(w, n);
    }
    assert ShrFill(X, k, fill, t) == F by {
      ShrFillSaturates(X, k, fill, t);
    }
  }

  /** A left shift by k0 bits, then one by r more: together a shift by k0 + r, and the
      last bit pushed out by the second is bit T - (k0 + r) of the original. */
  lemma ShlCompose(v: nat, k0: nat, r: nat, fill: bool, t: nat)
    requires 0 < r && k0 + r <= t
    ensures ShlFill(ShlFill(v, k0, fill, t), r, fill, t) == ShlFill(v, k0 + r, fill, t)
    ensures Bit(ShlFill(v, k0, fill, t), t - r) == Bit(v, t - (k0 + r))
  {
    ShlFillAdd(v, k0, r, fill, t);
    ShlFillBit(v, k0, fill, t, t - r);
  }

  /** A right shift by k0 bits, then one by r more: together a shift by k0 + r, and the
      last bit pushed out by the second is bit k0 + r - 1 of the original. */
  lemma ShrCompose(v: nat, k0: nat, r: nat, fill: bool, t: nat)
    requires v < Pow2(t) && 0 < r && k0 + r <= t
    ensures ShrFill(ShrFill(v, k0, fill, t), r, fill, t) == ShrFill(v, k0 + r, fill, t)
    ensures Bit(ShrFill(v, k0, fill, t), r - 1) == Bit(v, k0 + r - 1)
  {
    ShrFillAdd(v, k0, r, fill, t);
    ShrFillBit(v, k0, fill, t, r - 1);
  }

  /** Shifting a t-bit value by no bits leaves it as it is. */
  lemma ShiftByZero(v: nat, fill: bool, t: nat)
    requires v < Pow2(t)
    ensures ShlFill(v, 0, fill, t) == v && ShrFill(v, 0, fill, t) == v
  {
    SmallDivMod(v, Pow2(t));
    assert Kept(0, t) == t;
  }

  /** A shift by whole words only (no bits left over, or the whole width passed): the
      word-moving result is the bit-level left shift, and the bit taken from the words is
      the last bit shifted out, or 0 past the width. */
  lemma ShlWordsOnly(a: seq<nat>, w: nat, bits: nat, lastC: nat, fill: bool)
    requires IsWords(a, w) && |a| >= 1 && w >= 1 && bits >= w
    requires var (all, rest) := SplitBits(bits, w); all >= |a| || rest == 0
    requires var (all, rest) := SplitBits(bits, w);
      all >= |a| ==> lastC == if all == |a| && rest == 0 then a[0] % 2 else 0
    requires var all := SplitBits(bits, w).0; 0 < all < |a| ==> lastC == a[|a| - all] % 2
    ensures ShlFill(Val(a, w), w * SplitBits(bits, w).0, fill, w * |a|) == ShlFill(Val(a, w), bits, fill, w * |a|)
    ensures bits <= w * |a| ==> lastC == Bit(Val(a, w), w * |a| - bits)
    ensures bits > w * |a| ==> lastC == 0
    ensures bits >= w * |a| ==> SplitBits(bits, w).0 >= |a|
  {
    var (all, rest) := SplitBits(bits, w);
    SplitBitsBounds(bits, w, |a|);
    if all >= |a| {
      ShlWordsOnlyPastWidth(a, w, bits, all, rest, lastC, fill);
    } else {
      ShlWordsOnlyInside(a, w, bits, all, lastC);
    }
  }

  /** ShlWordsOnly when all the words are passed: both shifts leave only the fill. */
  lemma ShlWordsOnlyPastWidth(a: seq<nat>, w: nat, bits: nat, all: nat, rest: nat, lastC: nat, fill: bool)
    requires IsWords(a, w) && |a| >= 1 && w >= 1 && all >= |a| && w * all + rest == bits
    requires w * |a| <= w * all && (bits == w * |a| <==> all == |a| && rest == 0)
    requires lastC == if all == |a| && rest == 0 then a[0] % 2 else 0
    ensures ShlFill(Val(a, w), w * all, fill, w * |a|) == ShlFill(Val(a, w), bits, fill, w * |a|)
    ensures bits <= w * |a| ==> lastC == Bit(Val(a, w), w * |a| - bits)
    ensures bits > w * |a| ==> lastC == 0
  {
    var X, n := Val(a, w), |a|;
    ShlFillSaturates(X, bits, fill, w * n);
    ShlFillSaturates(X, w * all, fill, w * n);
    if bits <= w * n {
      ValBit(a, w, 0, 0);
    }
  }

  /** ShlWordsOnly for a whole number of words inside the width: the last bit out is
      bit 0 of word |a| - all. */
  lemma ShlWordsOnlyInside(a: seq<nat>, w: nat, bits: nat, all: nat, lastC: nat)
    requires IsWords(a, w) && w >= 1 && 0 < all < |a| && bits == w * all
    requires lastC == a[|a| - all] % 2
    ensures bits <= w * |a| && lastC == Bit(Val(a, w), w * |a| - bits)
  {
    var n := |a|;
    assert w * (n - all) == w * n - bits by { MulDistrib(w, n - all, all); }
    ValBit(a, w, n - all, 0);
  }

  /** The right-shift counterpart of ShlWordsOnly: the bit taken from the words is the
      last bit shifted out of the bottom, or 0 past the width. */
  lemma ShrWordsOnly(a: seq<nat>, w: nat, bits: nat, lastC: nat, fill: bool)
    requires IsWords(a, w) && |a| >= 1 && w >= 1 && bits >= w
    requires var (all, rest) := SplitBits(bits, w); all >= |a| || rest == 0
    requires var (all, rest) := SplitBits(bits, w);
      all >= |a| ==> lastC == if all == |a| && rest == 0 then Bit(a[|a| - 1], w - 1) else 0
    requires var all := SplitBits(bits, w).0; 0 < all < |a| ==> lastC == Bit(a[all - 1], w - 1)
    ensures ShrFill(Val(a, w), w * SplitBits(bits, w).0, fill, w * |a|) == ShrFill(Val(a, w), bits, fill, w * |a|)
    ensures bits <= w * |a| ==> lastC == Bit(Val(a, w), bits - 1)
    ensures bits > w * |a| ==> lastC == 0
    ensures bits >= w * |a| ==> SplitBits(bits, w).0 >= |a|
  {
    var (all, rest) := SplitBits(bits, w);
    SplitBitsBounds(bits, w, |a|);
    if all >= |a| {
      ShrWordsOnlyPastWidth(a, w, bits, all, rest, lastC, fill);
    } else {
      ShrWordsOnlyInside(a, w, bits, all, lastC);
    }
  }

  /** ShrWordsOnly when all the words are passed: both shifts leave only the fill. */
  lemma ShrWordsOnlyPastWidth(a: seq<nat>, w: nat, bits: nat, all: nat, rest: nat, lastC: nat, fill: bool)
    requires IsWords(a, w) && |a| >= 1 && w >= 1 && all >= |a| && w * all + rest == bits
    requires w * |a| <= w * all && (bits == w * |a| <==> all == |a| && rest == 0)
    requires lastC == if all == |a| && rest == 0 then Bit(a[|a| - 1], w - 1) else 0
    ensures ShrFill(Val(a, w), w * all, fill, w * |a|) == ShrFill(Val(a, w), bits, fill, w * |a|)
    ensures bits <= w * |a| ==> lastC == Bit(Val(a, w), bits - 1)
    ensures bits > w * |a| ==> lastC == 0
  {
    var X, n := Val(a, w), |a|;
    assert X < Pow2(w * n) by {
      ValBound(a, w);
      WPowIsPow2(w, n);
    }
    ShrFillSaturates(X, bits, fill, w * n);
    ShrFillSaturates(X, w * all, fill, w * n);
    if bits <= w * n {
      assert w * (n - 1) + (w - 1) == bits - 1 by { MulDistrib(w, n - 1, 1); }
      ValBit(a, w, n - 1, w - 1);
    }
  }

  /** ShrWordsOnly for a whole number of words inside the width: the last bit out is the
      top bit of word all - 1. */
  lemma ShrWordsOnlyInside(a: seq<nat>, w: nat, bits: nat, all: nat, lastC: nat)
    requires IsWords(a, w) && w >= 1 && 0 < all < |a| && bits == w * all
    requires lastC == Bit(a[all - 1], w - 1)
    ensures bits >= 1 && lastC == Bit(Val(a, w), bits - 1)
  {
    assert w * (all - 1) + (w - 1) == bits - 1 by { MulDistrib(w, all - 1, 1); }
    ValBit(a, w, all - 1, w - 1);
  }


  /** A left shift by the whole width or more leaves only fill bits. */
  lemma ShlFillSaturates(v: nat, k: nat, fill: bool, t: nat)
    requires t <= k
    ensures ShlFill(v, k, fill, t) == FillMask(t, fill)
  {
    forall j | 0 <= j < t
      ensures Bit(ShlFill(v, k, fill, t), j) == Bit(FillMask(t, fill), j)
    {
      ShlFillBit(v, k, fill, t, j);
      FillMaskBit(t, fill, j);
    }
    BitsEq(ShlFill(v, k, fill, t), FillMask(t, fill), t);
  }

  /** A right shift by the whole width or more leaves only fill bits. */
  lemma ShrFillSaturates(v: nat, k: nat, fill: bool, t: nat)
    requires v < Pow2(t) && t <= k
    ensures ShrFill(v, k, fill, t) == FillMask(t, fill)
  {
    Pow2Le(t, k);
    SmallDivMod(v, Pow2(k));
    assert Kept(k, t) == 0;
  }
}
