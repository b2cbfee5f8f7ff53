/** Bit-level facts about word vectors: the bit of the value at a position, the word-wise
    logical operations, the complement, the leading bit and the top bit. */
module Bitwise {
  import opened Arith
  import opened Words
  import opened Bits
  import opened Vec
  import opened Shifts

  /** Bit p of the value is bit p % w of word p / w. */
  lemma ValBitAt(s: seq<nat>, w: nat, p: nat)
    requires IsWords(s, w) && w > 0 && p < w * |s|
    ensures SplitBits(p, w).0 < |s|
    ensures Bit(Val(s, w), p) == Bit(s[SplitBits(p, w).0], SplitBits(p, w).1)
  {
    var (i, j) := SplitBits(p, w);
    MulComm(i, w);
    if i >= |s| {
      MulMonotone(|s|, i, w);
      MulComm(|s|, w);
      assert false;
    }
    ValBit(s, w, i, j);
  }

  /** A vector below 2^(w * n) as a number of w * n bits */
  lemma ValBoundBits(s: seq<nat>, w: nat)
    requires IsWords(s, w)
    ensures Val(s, w) < Pow2(w * |s|)
  {
    ValBound(s, w);
    WPowIsPow2(w, |s|);
  }

  /** Bit j of word i sits below the top of an n-word vector. */
  lemma WordBitIndex(i: nat, j: nat, w: nat, n: nat)
    requires i < n && j < w
    ensures w * i + j < w * n
  {
    ConcatBound(i, j, n, w);
    MulComm(i, w);
    MulComm(n, w);
  }

  /** A vector whose word bits are the bits of u, w at a time, denotes u. */
  lemma ValFromBits(t: seq<nat>, w: nat, u: nat)
    requires IsWords(t, w) && w > 0 && u < Pow2(w * |t|)
    requires forall i, j :: 0 <= i < |t| && 0 <= j < w ==> Bit(t[i], j) == Bit(u, w * i + j)
    ensures Val(t, w) == u
  {
    forall p | 0 <= p < w * |t|
      ensures Bit(Val(t, w), p) == Bit(u, p)
    {
      ValBitAt(t, w, p);
      var (i, j) := SplitBits(p, w);
      MulComm(i, w);
    }
    ValBoundBits(t, w);
    BitsEq(Val(t, w), u, w * |t|);
  }

  lemma AndWordBit(a: seq<nat>, b: seq<nat>, w: nat, i: nat, j: nat)
    requires |a| == |b| && IsWords(a, w) && IsWords(b, w) && i < |a| && j < w
    ensures Bit(And(a[i], b[i], w), j) == Bit(And(Val(a, w), Val(b, w), w * |a|), w * i + j)
  {
    var p := w * i + j;
    assert p < w * |a| by { WordBitIndex(i, j, w, |a|); }
    var va, vb := Val(a, w), Val(b, w);
    assert Bit(va, p) == Bit(a[i], j) by { ValBit(a, w, i, j); }
    assert Bit(vb, p) == Bit(b[i], j) by { ValBit(b, w, i, j); }
    AndBit(a[i], b[i], w, j);
    AndBit(va, vb, w * |a|, p);
  }

  /** Word-wise AND is AND of the values. */
  lemma ValAnd(t: seq<nat>, a: seq<nat>, b: seq<nat>, w: nat)
    requires w > 0 && |t| == |a| == |b| && IsWords(a, w) && IsWords(b, w)
    requires forall i :: 0 <= i < |t| ==> t[i] == And(a[i], b[i], w)
    ensures Val(t, w) == And(Val(a, w), Val(b, w), w * |t|)
  {
    var va, vb, n := Val(a, w), Val(b, w), w * |t|;
    forall i, j | 0 <= i < |t| && 0 <= j < w
      ensures Bit(t[i], j) == Bit(And(va, vb, n), w * i + j)
    {
      AndWordBit(a, b, w, i, j);
    }
    ValFromBits(t, w, And(va, vb, n));
  }

  lemma OrWordBit(a: seq<nat>, b: seq<nat>, w: nat, i: nat, j: nat)
    requires |a| == |b| && IsWords(a, w) && IsWords(b, w) && i < |a| && j < w
    ensures Bit(Or(a[i], b[i], w), j) == Bit(Or(Val(a, w), Val(b, w), w * |a|), w * i + j)
  {
    var p := w * i + j;
    assert p < w * |a| by { WordBitIndex(i, j, w, |a|); }
    var va, vb := Val(a, w), Val(b, w);
    assert Bit(va, p) == Bit(a[i], j) by { ValBit(a, w, i, j); }
    assert Bit(vb, p) == Bit(b[i], j) by { ValBit(b, w, i, j); }
    OrBit(a[i], b[i], w, j);
    OrBit(va, vb, w * |a|, p);
  }

  /** Word-wise OR is OR of the values. */
  lemma ValOr(t: seq<nat>, a: seq<nat>, b: seq<nat>, w: nat)
    requires w > 0 && |t| == |a| == |b| && IsWords(a, w) && IsWords(b, w)
    requires forall i :: 0 <= i < |t| ==> t[i] == Or(a[i], b[i], w)
    ensures Val(t, w) == Or(Val(a, w), Val(b, w), w * |t|)
  {
    var va, vb, n := Val(a, w), Val(b, w), w * |t|;
    forall i, j | 0 <= i < |t| && 0 <= j < w
      ensures Bit(t[i], j) == Bit(Or(va, vb, n), w * i + j)
    {
      OrWordBit(a, b, w, i, j);
    }
    ValFromBits(t, w, Or(va, vb, n));
  }

  lemma XorWordBit(a: seq<nat>, b: seq<nat>, w: nat, i: nat, j: nat)
    requires |a| == |b| && IsWords(a, w) && IsWords(b, w) && i < |a| && j < w
    ensures Bit(Xor(a[i], b[i], w), j) == Bit(Xor(Val(a, w), Val(b, w), w * |a|), w * i + j)
  {
    var p := w * i + j;
    assert p < w * |a| by { WordBitIndex(i, j, w, |a|); }
    var va, vb := Val(a, w), Val(b, w);
    assert Bit(va, p) == Bit(a[i], j) by { ValBit(a, w, i, j); }
    assert Bit(vb, p) == Bit(b[i], j) by { ValBit(b, w, i, j); }
    XorBit(a[i], b[i], w, j);
    XorBit(va, vb, w * |a|, p);
  }

  /** Word-wise exclusive OR is exclusive OR of the values. */
  lemma ValXor(t: seq<nat>, a: seq<nat>, b: seq<nat>, w: nat)
    requires w > 0 && |t| == |a| == |b| && IsWords(a, w) && IsWords(b, w)
    requires forall i :: 0 <= i < |t| ==> t[i] == Xor(a[i], b[i], w)
    ensures Val(t, w) == Xor(Val(a, w), Val(b, w), w * |t|)
  {
    var va, vb, n := Val(a, w), Val(b, w), w * |t|;
    forall i, j | 0 <= i < |t| && 0 <= j < w
      ensures Bit(t[i], j) == Bit(Xor(va, vb, n), w * i + j)
    {
      XorWordBit(a, b, w, i, j);
    }
    ValFromBits(t, w, Xor(va, vb, n));
  }

  /** Complementing every word complements the value: B^n - 1 - v. */
  lemma {:induction false} ValNot(t: seq<nat>, a: seq<nat>, w: nat)
    requires |t| == |a| && IsWords(a, w)
    requires forall i :: 0 <= i < |t| ==> t[i] == Pow2(w) - 1 - a[i]
    ensures Val(t, w) + Val(a, w) == WPow(w, |a|) - 1
  {
    if |t| > 0 {
      var B, x, y, P := Pow2(w), Val(t[1..], w), Val(a[1..], w), WPow(w, |a| - 1);
      assert x + y == P - 1 by { ValNot(t[1..], a[1..], w); }
      assert Val(t, w) + Val(a, w) == t[0] + a[0] + B * x + B * y;
      assert t[0] + a[0] == B - 1;
      assert B * x + B * y == B * P - B by {
        MulDistrib(B, x, y);
        MulDistrib(B, P - 1, 1);
      }
      assert WPow(w, |a|) == B * P;
    }
  }

  /** The value whose top nonzero word is word k, with leading bit idx, has leading bit
      w * k + idx. */
  lemma LeadingBitOfVal(s: seq<nat>, w: nat, k: nat, idx: nat)
    requires IsWords(s, w) && k < |s|
    requires forall j :: k < j < |s| ==> s[j] == 0
    requires Pow2(idx) <= s[k] < Pow2(idx + 1)
    ensures Pow2(w * k + idx) <= Val(s, w) < Pow2(w * k + idx + 1)
  {
    ValHighZero(s, k + 1, w);
    ValPrefix(s, k, w);
    var L, P, x := Val(s[..k], w), WPow(w, k), s[k];
    ValBound(s[..k], w);
    WPowIsPow2(w, k);
    Pow2Add(w * k, idx);
    Pow2Add(w * k, idx + 1);
    MulComm(Pow2(w * k), Pow2(idx));
    MulComm(Pow2(w * k), Pow2(idx + 1));
    MulMonotone(Pow2(idx), x, P);
    MulMonotone(x + 1, Pow2(idx + 1), P);
    MulDistrib(P, x, 1);
  }

  /** Bit t - 1 of a t-bit number is set exactly when the number is at least 2^(t-1). */
  lemma TopBit(x: nat, t: nat)
    requires t >= 1 && x < Pow2(t)
    ensures Bit(x, t - 1) == 1 <==> Pow2(t - 1) <= x
  {
    BitDiv(x, t - 1);
    assert Pow2(t) == 2 * Pow2(t - 1);
    DivBound(x, Pow2(t - 1), 2);
    if Pow2(t - 1) <= x {
      DivLower(x, Pow2(t - 1), 1);
    } else {
      SmallDivMod(x, Pow2(t - 1));
    }
  }

  /** Bit j of x XOR (2^k - 1), for x below 2^k: bit j of x complemented below k, 0 above. */
  lemma XorMaskBit(x: nat, k: nat, w: nat, j: nat)
    requires x < Pow2(k) && j < w
    ensures Bit(Xor(x, Pow2(k) - 1, w), j) == Bit(Pow2(k) - 1 - x, j)
  {
    var m, y := Pow2(k) - 1, Pow2(k) - 1 - x;
    var b := Bit(x, j);
    XorBit(x, m, w, j);
    BitMask(k, j);
    if j < k {
      NotBit(x, k, j);
      assert Bit(m, j) == 1 && Bit(y, j) == 1 - b;
      assert b == 0 || b == 1;
    } else {
      BitHigh(x, k, j);
      BitHigh(y, k, j);
      assert Bit(m, j) == 0 && Bit(y, j) == 0 && b == 0;
    }
  }

  /** x XOR (2^k - 1), for x below 2^k and k <= w: the low k bits complemented. */
  lemma XorMask(x: nat, k: nat, w: nat)
    requires k <= w && x < Pow2(k)
    ensures Xor(x, Pow2(k) - 1, w) == Pow2(k) - 1 - x
  {
    var y := Pow2(k) - 1 - x;
    assert y < Pow2(w) by { Pow2Le(k, w); }
    forall j | 0 <= j < w
      ensures Bit(Xor(x, Pow2(k) - 1, w), j) == Bit(y, j)
    {
      XorMaskBit(x, k, w, j);
    }
    BitsEq(Xor(x, Pow2(k) - 1, w), y, w);
  }

  /** The all-ones word shifted right by s: the low w - s bits set. */
  lemma MaskShr(w: nat, s: nat)
    requires s <= w
    ensures Shr(Pow2(w) - 1, s) == Pow2(w - s) - 1
  {
    var H, S := Pow2(w - s), Pow2(s);
    assert Pow2(w) == H * S by {
      Pow2Add(w - s, s);
    }
    assert Pow2(w) - 1 == (H - 1) * S + (S - 1) by {
      MulDistrib(S, H - 1, 1);
      MulComm(H, S);
      MulComm(H - 1, S);
    }
    DivModSplit(H - 1, S, S - 1);
  }

  /** Clearing the low n bits: x - x mod 2^n, whose bits are 0 below n and x's above. */
  lemma ClearLowBits(x: nat, n: nat, j: nat)
    ensures x % Pow2(n) <= x
    ensures Bit(x - x % Pow2(n), j) == if j < n then 0 else Bit(x, j)
  {
    var P := Pow2(n);
    DivNat(x, P);
    ModLe(x, P);
    assert x - x % P == x / P * P + 0;
    BitConcat(x / P, 0, n, j);
    if j >= n {
      BitShr(x, n, j - n);
    } else {
      BitHigh(0, 0, j);
    }
  }

  /** Complementing the words below k and replacing word k by m - a[k], above zero words:
      the two vectors add up to B^k * (m + 1) - 1. */
  lemma ValNotBelow(t: seq<nat>, a: seq<nat>, w: nat, k: nat, m: nat)
    requires |t| == |a| && IsWords(a, w) && k < |a|
    requires forall i :: 0 <= i < k ==> t[i] == Pow2(w) - 1 - a[i]
    requires a[k] <= m && t[k] == m - a[k]
    requires forall i :: k < i < |a| ==> t[i] == 0 && a[i] == 0
    ensures Val(t, w) + Val(a, w) == WPow(w, k) * (m + 1) - 1
  {
    var P: int := WPow(w, k);
    assert Val(t, w) == Val(t[..k], w) + t[k] * P by {
      ValHighZero(t, k + 1, w);
      ValPrefix(t, k, w);
    }
    assert Val(a, w) == Val(a[..k], w) + a[k] * P by {
      ValHighZero(a, k + 1, w);
      ValPrefix(a, k, w);
    }
    assert Val(t[..k], w) + Val(a[..k], w) == P - 1 by {
      ValNot(t[..k], a[..k], w);
    }
    SplitSum(Val(t, w), Val(a, w), Val(t[..k], w), Val(a[..k], w), t[k], a[k], m, P);
  }

  /** The arithmetic that closes ValNotBelow: the low parts add up to P - 1 and the
      digits at P add up to m. */
  lemma SplitSum(vt: nat, va: nat, lt: nat, la: nat, tk: nat, ak: nat, m: nat, P: nat)
    requires vt == lt + tk * P && va == la + ak * P && lt + la == P - 1
    requires ak <= m && tk == m - ak
    ensures vt + va == P * (m + 1) - 1
  {
    MulDistrib(P, tk, ak);
    MulDistrib(P, m, 1);
  }

  /** Whether bit j of word i lies below bit position w * p + k, for k < w. */
  lemma ClearedWordBit(i: nat, j: nat, p: nat, k: nat, w: nat)
    requires j < w && k < w
    ensures w * i + j < w * p + k <==> i < p || (i == p && j < k)
  {
    if i < p {
      MulMonotone(i + 1, p, w);
      MulComm(i + 1, w);
      MulComm(p, w);
    } else if i > p {
      MulMonotone(p + 1, i, w);
      MulComm(p + 1, w);
      MulComm(i, w);
    }
  }

  /** Bit w * i + j of Val(a) - Val(a) % 2^n: clear below n, bit j of word i above. */
  lemma ClearedBitAt(a: seq<nat>, w: nat, n: nat, u: nat, i: nat, j: nat)
    requires IsWords(a, w) && i < |a| && j < w && u == Val(a, w) - Val(a, w) % Pow2(n)
    ensures Bit(u, w * i + j) == if w * i + j < n then 0 else Bit(a[i], j)
  {
    ClearLowBits(Val(a, w), n, w * i + j);
    ValBit(a, w, i, j);
  }

  /** The bits of a vector with every position below n of a cleared, word by word. */
  lemma ClearedBits(t: seq<nat>, a: seq<nat>, w: nat, n: nat, u: nat)
    requires IsWords(a, w) && |t| == |a| && u == Val(a, w) - Val(a, w) % Pow2(n)
    requires forall i, j :: 0 <= i < |t| && 0 <= j < w ==>
      Bit(t[i], j) == if w * i + j < n then 0 else Bit(a[i], j)
    ensures forall i, j :: 0 <= i < |t| && 0 <= j < w ==> Bit(t[i], j) == Bit(u, w * i + j)
  {
    forall i, j | 0 <= i < |t| && 0 <= j < w
      ensures Bit(t[i], j) == Bit(u, w * i + j)
    {
      var p := w * i + j;
      var b := Bit(t[i], j);
      assert b == if p < n then 0 else Bit(a[i], j);
      ClearedBitAt(a, w, n, u, i, j);
    }
  }

  /** A vector whose bits are those of a with every position below n cleared denotes
      Val(a) - Val(a) % 2^n. */
  lemma ClearedVal(t: seq<nat>, a: seq<nat>, w: nat, n: nat)
    requires IsWords(a, w) && IsWords(t, w) && |t| == |a| && w > 0
    requires forall i, j :: 0 <= i < |t| && 0 <= j < w ==>
      Bit(t[i], j) == if w * i + j < n then 0 else Bit(a[i], j)
    ensures Val(t, w) == Val(a, w) - Val(a, w) % Pow2(n)
  {
    var X := Val(a, w);
    var r := X % Pow2(n);
    assert r <= X by { ModLe(X, Pow2(n)); }
    var u: nat := X - r;
    assert u < Pow2(w * |t|) by { ValBoundBits(a, w); }
    ClearedBits(t, a, w, n, u);
    ValFromBits(t, w, u);
  }

  /** The word 2^w - 2^k: every bit from k up set. */
  lemma HighMaskBit(M: nat, k: nat, w: nat, j: nat)
    requires k <= w && j < w && M + Pow2(k) == Pow2(w)
    ensures Bit(M, j) == if j < k then 0 else 1
  {
    var low: nat := Pow2(k) - 1;
    assert low < Pow2(w) by { Pow2Le(k, w); }
    assert M == Pow2(w) - 1 - low;
    NotBit(low, w, j);
    BitMask(k, j);
  }

  /** AND with 2^w - 2^k clears the low k bits of a word. */
  lemma AndHighMask(x: nat, M: nat, k: nat, w: nat, j: nat)
    requires k <= w && j < w && M + Pow2(k) == Pow2(w)
    ensures Bit(And(x, M, w), j) == if j < k then 0 else Bit(x, j)
  {
    AndBit(x, M, w, j);
    HighMaskBit(M, k, w, j);
  }

  /** A value whose leading bit is L, shifted left by s = t - 1 - L, fills a t-bit register
      without overflow and has its top bit set. */
  lemma ShlToTop(v: nat, L: nat, s: nat, t: nat)
    requires Pow2(L) <= v < Pow2(L + 1) && L + 1 + s == t
    ensures ShlFill(v, s, false, t) == v * Pow2(s)
    ensures Pow2(t - 1) <= v * Pow2(s)
  {
    var S := Pow2(s);
    assert Pow2(t) == Pow2(L + 1) * S by { Pow2Add(L + 1, s); }
    assert Pow2(t - 1) == Pow2(L) * S by { Pow2Add(L, s); }
    assert v * S < Pow2(t) by {
      MulMonotone(v + 1, Pow2(L + 1), S);
      MulDistrib(S, v, 1);
    }
    MulMonotone(Pow2(L), v, S);
    SmallDivMod(v * S, Pow2(t));
  }

  /** Setting bit `bit` of word `index` adds 2^bitIndex to the value. */
  lemma SetBitVal(a: seq<nat>, index: nat, bit: nat, w: nat, bitIndex: nat)
    requires index < |a| && bitIndex == index * w + bit
    ensures Val(a[index := a[index] + Pow2(bit)], w) == Val(a, w) + Pow2(bitIndex)
  {
    var P := WPow(w, index);
    ValUpdate(a, index, a[index] + Pow2(bit), w);
    assert (a[index] + Pow2(bit)) * P == a[index] * P + Pow2(bit) * P by {
      MulDistrib(P, a[index], Pow2(bit));
    }
    assert Pow2(bit) * P == Pow2(bitIndex) by {
      WPowIsPow2(w, index);
      Pow2Add(bit, w * index);
      MulComm(index, w);
      MulComm(Pow2(bit), P);
    }
  }

  /** ValNotBelow with the mask of the bits up to idx in word k: the complement up to the
      leading bit w * k + idx. */
  lemma ValNotUpTo(t: seq<nat>, a: seq<nat>, w: nat, k: nat, idx: nat)
    requires |t| == |a| && IsWords(a, w) && k < |a|
    requires forall i :: 0 <= i < k ==> t[i] == Pow2(w) - 1 - a[i]
    requires a[k] < Pow2(idx + 1) && t[k] == Pow2(idx + 1) - 1 - a[k]
    requires forall i :: k < i < |a| ==> t[i] == 0 && a[i] == 0
    ensures Val(t, w) == Pow2(w * k + idx + 1) - 1 - Val(a, w)
  {
    var m := Pow2(idx + 1) - 1;
    ValNotBelow(t, a, w, k, m);
    assert WPow(w, k) * (m + 1) == Pow2(w * k + idx + 1) by {
      WPowIsPow2(w, k);
      Pow2Add(w * k, idx + 1);
    }
  }

  /** A vector whose top word has its leading bit at lead, shifted left by the w - lead - 1
      clear bits above it, keeps all its bits and gets its top bit set. */
  lemma ShlTopWordToTop(s: seq<nat>, w: nat, lead: nat)
    requires IsWords(s, w) && |s| >= 1 && lead < w
    requires Pow2(lead) <= s[|s| - 1] < Pow2(lead + 1)
    ensures ShlFill(Val(s, w), w - lead - 1, false, w * |s|) == Val(s, w) * Pow2(w - lead - 1)
    ensures Pow2(w * |s| - 1) <= Val(s, w) * Pow2(w - lead - 1)
  {
    var k := |s| - 1;
    var L := w * k + lead;
    LeadingBitOfVal(s, w, k, lead);
    assert L + 1 + (w - lead - 1) == w * |s| by { MulDistrib(w, k, 1); }
    ShlToTop(Val(s, w), L, w - lead - 1, w * |s|);
  }

  /** Adding 2^i to a number whose bit i is clear sets that bit and no other. */
  lemma SetBitAllBits(x: nat, i: nat)
    requires Bit(x, i) == 0
    ensures forall j: nat :: Bit(x + Pow2(i), j) == if j == i then 1 else Bit(x, j)
  {
    forall j: nat
      ensures Bit(x + Pow2(i), j) == if j == i then 1 else Bit(x, j)
    {
      SetBitBits(x, i, j);
    }
  }

  /** Word index with bit `bit` set (nw, the bit's old state res), as SetBitInWord leaves
      it: bit bitIndex of the value is set and no other bit changes. */
  lemma SetBitWord(a: seq<nat>, w: nat, bitIndex: nat, index: nat, bit: nat, nw: nat, res: nat)
    requires IsWords(a, w) && index < |a| && bit < w && bitIndex == index * w + bit
    requires res == Bit(a[index], bit) && nw < Pow2(w)
    requires nw == if res == 1 then a[index] else a[index] + Pow2(bit)
    requires Bit(Val(a, w), bitIndex) == Bit(a[index], bit)
    ensures IsWords(a[index := nw], w)
    ensures res == Bit(Val(a, w), bitIndex)
    ensures Val(a[index := nw], w) == if res == 1 then Val(a, w) else Val(a, w) + Pow2(bitIndex)
    ensures forall j: nat :: Bit(Val(a[index := nw], w), j) == if j == bitIndex then 1 else Bit(Val(a, w), j)
  {
    WordsUpdate(a, index, nw, w);
    if res == 0 {
      SetBitVal(a, index, bit, w, bitIndex);
      SetBitAllBits(Val(a, w), bitIndex);
    } else {
      assert a[index := nw] == a;
      var X := Val(a, w);
      forall j: nat
        ensures Bit(X, j) == if j == bitIndex then 1 else Bit(X, j)
      {
      }
    }
  }
}
