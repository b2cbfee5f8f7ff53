/** How the value of a word vector changes when one word is rewritten: the steps that
    the carry-propagating and shifting loops of the class take. */
module Vec {
  import opened Arith
  import opened Words
  import opened Bits

  /** Rewriting word i trades its old weight for the new one. */
  lemma ValUpdate(s: seq<nat>, i: nat, x: nat, w: nat)
    requires i < |s|
    ensures Val(s[i := x], w) + s[i] * WPow(w, i) == Val(s, w) + x * WPow(w, i)
  {
    var t := s[i := x];
    assert s == s[..i] + ([s[i]] + s[i + 1..]);
    assert t == s[..i] + ([x] + s[i + 1..]);
    ValAppend(s[..i], [s[i]] + s[i + 1..], w);
    ValAppend(s[..i], [x] + s[i + 1..], w);
    var P, B, R := WPow(w, i), Pow2(w), Val(s[i + 1..], w);
    assert ([s[i]] + s[i + 1..])[1..] == s[i + 1..];
    assert ([x] + s[i + 1..])[1..] == s[i + 1..];
    assert Val([s[i]] + s[i + 1..], w) == s[i] + B * R;
    assert Val([x] + s[i + 1..], w) == x + B * R;
    MulDistrib(P, s[i], B * R);
    MulDistrib(P, x, B * R);
  }

  /** one more word of prefix */
  lemma ValPrefix(s: seq<nat>, i: nat, w: nat)
    requires i < |s|
    ensures Val(s[..i + 1], w) == Val(s[..i], w) + s[i] * WPow(w, i)
  {
    assert s[..i + 1] == s[..i] + [s[i]];
    ValSnoc(s[..i], s[i], w);
  }

  /** Adding v at word i, where the word becomes nw and cout carries into word i + 1. */
  lemma PendingStep(t: seq<nat>, i: nat, v: nat, nw: nat, cout: nat, w: nat)
    requires i < |t| && nw + cout * Pow2(w) == t[i] + v
    ensures Val(t[i := nw], w) + cout * WPow(w, i + 1) == Val(t, w) + v * WPow(w, i)
  {
    ValUpdate(t, i, nw, w);
    var B, P := Pow2(w), WPow(w, i);
    assert WPow(w, i + 1) == B * P;
    MulAssoc(cout, B, P);
    MulDistrib(P, nw, cout * B);
    MulDistrib(P, t[i], v);
  }

  /** Subtracting y and the borrow bin at word i; bout borrows from word i + 1. */
  lemma BorrowStep(t: seq<nat>, i: nat, y: nat, bin: nat, nw: nat, bout: nat, w: nat)
    requires i < |t| && nw + y + bin == t[i] + bout * Pow2(w)
    ensures Val(t[i := nw], w) + y * WPow(w, i) + bin * WPow(w, i)
         == Val(t, w) + bout * WPow(w, i + 1)
  {
    ValUpdate(t, i, nw, w);
    var B, P := Pow2(w), WPow(w, i);
    assert WPow(w, i + 1) == B * P;
    MulAssoc(bout, B, P);
    MulDistrib(P, nw + y, bin);
    MulDistrib(P, nw, y);
    MulDistrib(P, t[i], bout * B);
  }

  /** A left shift by k bits, word by word from the bottom: the low i words of t hold
      the shifted low i words of a, with cy the bits that left the top. */
  lemma ShlStep(t: seq<nat>, a: seq<nat>, i: nat, K: nat, F: nat, cy: nat, nw: nat, cout: nat, w: nat)
    requires i < |t| && i < |a|
    requires Val(t[..i], w) + cy * WPow(w, i) == Val(a[..i], w) * K + F
    requires nw + cout * Pow2(w) == a[i] * K + cy
    ensures Val(t[i := nw][..i + 1], w) + cout * WPow(w, i + 1) == Val(a[..i + 1], w) * K + F
  {
    var t2 := t[i := nw];
    assert t2[..i + 1] == t[..i] + [nw];
    ValSnoc(t[..i], nw, w);
    ValPrefix(a, i, w);
    var B, P, L := Pow2(w), WPow(w, i), Val(a[..i], w);
    assert WPow(w, i + 1) == B * P;
    MulAssoc(cout, B, P);
    MulDistrib(K, L, a[i] * P);
    MulAssoc(a[i], P, K);
    MulAssoc(a[i], K, P);
    MulDistrib(P, nw, cout * B);
    MulDistrib(P, a[i] * K, cy);
  }

  /** A right shift by k bits (K = 2^k), word by word from the top: the words of t from
      i on hold the shifted words of a from i on, the fill bits F entering at the top and
      cy the bits that left the bottom. */
  lemma ShrStep(t: seq<nat>, a: seq<nat>, i: nat, K: nat, F: nat, cy: nat, nw: nat, cout: nat, w: nat)
    requires 0 < i <= |t| == |a| && t[i - 1] == a[i - 1]
    requires Val(t[i..], w) * K + cy == Val(a[i..], w) + F * WPow(w, |a| - i)
    requires nw * K + cout == a[i - 1] + cy * Pow2(w)
    ensures Val(t[i - 1 := nw][i - 1..], w) * K + cout
         == Val(a[i - 1..], w) + F * WPow(w, |a| - (i - 1))
  {
    var t2 := t[i - 1 := nw];
    assert t2[i - 1..] == [nw] + t[i..];
    assert ([nw] + t[i..])[1..] == t[i..];
    ValSuffix(a, i - 1, w);
    var B, R, Q := Pow2(w), Val(t[i..], w), WPow(w, |a| - i);
    assert Val(t2[i - 1..], w) == nw + B * R;
    assert WPow(w, |a| - (i - 1)) == B * Q;
    MulDistrib(K, nw, B * R);
    MulAssoc(B, R, K);
    MulDistrib(B, R * K, cy);
    MulDistrib(B, Val(a[i..], w), F * Q);
    MulAssoc(B, F, Q);
    MulAssoc(F, B, Q);
  }

  /** One word shifted left by k bits: the low w - k bits move up and take cin below them,
      the top k bits leave as the outgoing carry. */
  lemma ShlWord(x: nat, k: nat, w: nat, cin: nat)
    requires x < Pow2(w) && k <= w && cin < Pow2(k)
    ensures x % Pow2(w - k) * Pow2(k) + cin < Pow2(w)
    ensures x / Pow2(w - k) < Pow2(k)
    ensures x % Pow2(w - k) * Pow2(k) + cin + x / Pow2(w - k) * Pow2(w) == x * Pow2(k) + cin
  {
    var m, K := Pow2(w - k), Pow2(k);
    DivNat(x, m);
    var hi, lo := x / m, x % m;
    assert Pow2(w) == m * K by { Pow2Add(w - k, k); }
    ConcatBound(lo, cin, m, K);
    DivBound(x, m, K);
    MulDistrib(K, hi * m, lo);
    MulAssoc(hi, m, K);
  }

  /** One word shifted right by k bits: cin enters at the top, the low k bits leave. */
  lemma ShrWord(x: nat, k: nat, w: nat, cin: nat)
    requires x < Pow2(w) && k <= w && cin < Pow2(k)
    ensures x / Pow2(k) + cin * Pow2(w - k) < Pow2(w)
    ensures x % Pow2(k) < Pow2(k)
    ensures (x / Pow2(k) + cin * Pow2(w - k)) * Pow2(k) + x % Pow2(k) == x + cin * Pow2(w)
  {
    var m, K := Pow2(w - k), Pow2(k);
    DivNat(x, K);
    var hi, lo := x / K, x % K;
    assert Pow2(w) == K * m by { Pow2Add(k, w - k); }
    DivBound(x, K, m);
    ConcatBound(cin, hi, K, m);
    MulDistrib(K, hi, cin * m);
    MulAssoc(cin, m, K);
  }

  /** After the last word of a left shift: V is the shifted value and the low bit of the
      carry is the last bit that left the top. */
  lemma ShlFinish(V: nat, cy: nat, X: nat, k: nat, fill: bool, t: nat)
    requires k <= t && V < Pow2(t)
    requires V + cy * Pow2(t) == X * Pow2(k) + FillMask(k, fill)
    ensures V == ShlFill(X, k, fill, t)
    ensures cy % 2 == Bit(X, t - k)
  {
    var S := X * Pow2(k) + FillMask(k, fill);
    DivModSplit(cy, Pow2(t), V);
    BitShr(S, t, 0);
    BitConcat(X, FillMask(k, fill), k, t);
  }

  /** After the last word of a right shift: V is the shifted value and the top bit of the
      carry is the last bit that left the bottom. */
  lemma ShrFinish(V: nat, cy: nat, X: nat, k: nat, fill: bool, t: nat)
    requires 1 <= k <= t && X < Pow2(t) && cy < Pow2(k)
    requires V * Pow2(k) + cy == X + FillMask(k, fill) * Pow2(t)
    ensures V == ShrFill(X, k, fill, t)
    ensures Bit(cy, k - 1) == Bit(X, k - 1)
  {
    var K, F, H := Pow2(k), FillMask(k, fill), Pow2(t - k);
    assert Pow2(t) == H * K by { Pow2Add(t - k, k); }
    MulAssoc(F, H, K);
    ModAddMultiple(X, F * H, K);
    DivModUnique(X + F * H * K, K, V, cy);
    assert Kept(k, t) == t - k;
    assert HighFill(k, fill, t) == F * H;
    BitMod(X, k, k - 1);
  }

  /** The step of the ripple-carry addition of b into the vector that started as a. */
  lemma AddLoopStep(t: seq<nat>, a: seq<nat>, b: seq<nat>, i: nat, c0: nat, carry: nat,
                    nw: nat, cout: nat, w: nat)
    requires i < |t| && i < |b|
    requires Val(t, w) + carry * WPow(w, i) == Val(a, w) + Val(b[..i], w) + c0
    requires nw + cout * Pow2(w) == t[i] + b[i] + carry
    ensures Val(t[i := nw], w) + cout * WPow(w, i + 1) == Val(a, w) + Val(b[..i + 1], w) + c0
  {
    PendingStep(t, i, b[i] + carry, nw, cout, w);
    MulDistrib(WPow(w, i), b[i], carry);
    ValPrefix(b, i, w);
  }

  /** The step of the ripple-borrow subtraction of b from the vector that started as a. */
  lemma SubLoopStep(t: seq<nat>, a: seq<nat>, b: seq<nat>, i: nat, c0: nat, borrow: nat,
                    nw: nat, bout: nat, w: nat)
    requires i < |t| && i < |b|
    requires Val(t, w) + Val(b[..i], w) + c0 == Val(a, w) + borrow * WPow(w, i)
    requires nw + b[i] + borrow == t[i] + bout * Pow2(w)
    ensures Val(t[i := nw], w) + Val(b[..i + 1], w) + c0 == Val(a, w) + bout * WPow(w, i + 1)
  {
    BorrowStep(t, i, b[i], borrow, nw, bout, w);
    ValPrefix(b, i, w);
  }

  /** Rewriting a word with a word keeps a word vector. */
  lemma WordsUpdate(t: seq<nat>, i: nat, x: nat, w: nat)
    requires IsWords(t, w) && i < |t| && x < Pow2(w)
    ensures IsWords(t[i := x], w)
  {
  }

  /** A carry (or borrow) out of the top word is set exactly when the exact result leaves
      the range: V + carry * C == S with V < C. */
  lemma CarryOut(V: nat, carry: nat, C: nat, S: nat)
    requires V < C && carry <= 1 && V + carry * C == S
    ensures carry == 1 <==> S >= C
  {
  }

  /** A borrow out of the top word is set exactly when the subtrahend exceeds the minuend:
      V + Y == A + borrow * C with V < C. */
  lemma BorrowOut(V: nat, borrow: nat, C: nat, A: nat, Y: nat)
    requires V < C && borrow <= 1 && V + Y == A + borrow * C
    ensures borrow == 1 <==> A < Y
  {
  }

  /** Bit j of word i is bit w * i + j of the value. */
  lemma {:induction false} ValBit(s: seq<nat>, w: nat, i: nat, j: nat)
    requires IsWords(s, w) && i < |s| && j < w
    ensures Bit(Val(s, w), w * i + j) == Bit(s[i], j)
  {
    var hi := Val(s[1..], w);
    MulComm(Pow2(w), hi);
    BitConcat(hi, s[0], w, w * i + j);
    if i > 0 {
      ValBit(s[1..], w, i - 1, j);
      assert w * i + j - w == w * (i - 1) + j;
    }
  }

  /** Comparing the low k words from the top: when they agree above word i and differ at
      word i, word i decides; when they agree everywhere (i = -1) the values are equal. */
  lemma PrefixCompare(a: seq<nat>, b: seq<nat>, k: nat, i: int, w: nat)
    requires IsWords(a, w) && IsWords(b, w) && |a| == |b| && k <= |a| && -1 <= i < k
    requires forall j :: i < j < k ==> a[j] == b[j]
    requires i >= 0 ==> a[i] != b[i]
    ensures i < 0 ==> Val(a[..k], w) == Val(b[..k], w)
    ensures i >= 0 ==> (Val(a[..k], w) < Val(b[..k], w) <==> a[i] < b[i])
    ensures i >= 0 ==> (Val(b[..k], w) < Val(a[..k], w) <==> b[i] < a[i])
  {
    var pa, pb := a[..k], b[..k];
    if i < 0 {
      assert pa == pb;
    } else {
      assert pa[i + 1..] == pb[i + 1..];
      if a[i] < b[i] {
        ValLessAt(pa, pb, i, w);
      } else {
        ValLessAt(pb, pa, i, w);
      }
    }
  }

  /** A vector whose highest nonzero word is word k lies in [B^k, B^(k+1)). */
  lemma TopWordBounds(s: seq<nat>, k: nat, w: nat)
    requires IsWords(s, w) && k < |s| && s[k] != 0
    requires forall j :: k < j < |s| ==> s[j] == 0
    ensures WPow(w, k) <= Val(s, w) < WPow(w, k + 1)
  {
    ValHighZero(s, k + 1, w);
    ValBound(s[..k + 1], w);
    ValPrefix(s, k, w);
    MulMonotone(1, s[k], WPow(w, k));
  }

  /** A value below B^k has zero words from k on. */
  lemma HighWordsZero(s: seq<nat>, k: nat, w: nat)
    requires IsWords(s, w) && k <= |s| && Val(s, w) < WPow(w, k)
    ensures forall j :: k <= j < |s| ==> s[j] == 0
  {
    ValSplit(s, k, w);
    SmallDivMod(Val(s, w), WPow(w, k));
    ValZero(s[k..], w);
    forall j | k <= j < |s| ensures s[j] == 0 {
      assert s[j] == s[k..][j - k];
    }
  }

  /** the value of a two-word vector */
  lemma ValPair(lo: nat, hi: nat, w: nat)
    ensures Val([lo, hi], w) == lo + Pow2(w) * hi
  {
    assert [lo, hi][1..] == [hi];
    ValSingle(hi, w);
  }

  /** With the words above k zero, word k is the value over B^k. */
  lemma TopWordOf(s: seq<nat>, k: nat, w: nat)
    requires IsWords(s, w) && k < |s| && forall j :: k < j < |s| ==> s[j] == 0
    ensures Val(s, w) / WPow(w, k) == s[k]
  {
    ValSplit(s, k, w);
    var t := s[k..];
    ValHighZero(t, 1, w);
    assert t[..1] == [s[k]];
    ValSingle(s[k], w);
  }

  /** A vector of at least two words as its top two words over the weight of the rest. */
  lemma ValTopTwo(s: seq<nat>, w: nat)
    requires |s| >= 2
    ensures Val(s, w) == (s[|s| - 1] * Pow2(w) + s[|s| - 2]) * WPow(w, |s| - 2) + Val(s[..|s| - 2], w)
  {
    var n := |s|;
    assert s == s[..n - 2] + [s[n - 2], s[n - 1]];
    ValAppend(s[..n - 2], [s[n - 2], s[n - 1]], w);
    ValPair(s[n - 2], s[n - 1], w);
    MulComm(s[n - 1], Pow2(w));
    MulComm(WPow(w, n - 2), s[n - 1] * Pow2(w) + s[n - 2]);
  }
}
