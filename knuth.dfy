/** The arithmetic of the third division algorithm, Knuth's Algorithm D (The Art of
    Computer Programming, vol. 2, section 4.3.1): the trial quotient digit taken from the top
    words of the window and of the divisor, why it is at most one too large, and the
    multiply-subtract step with its single add-back. */
module Knuth {
  import opened Arith
  import opened Words
  import opened Vec
  import opened Bits

  /** The trial quotient digit: the top three words u2 u1 u0 of the window divided by the
      top two words v1 v0 of the divisor, capped at the largest word B - 1. */
  function TrialQuotient(u2: nat, u1: nat, u0: nat, v1: nat, v0: nat, B: nat): (r: nat)
    requires v1 > 0 && B > 0
    ensures r < B
  {
    TrialOperands(u2, u1, u0, v1, v0, B);
    var t: int := (u2 * B + u1) * B + u0;
    var v: int := v1 * B + v0;
    DivNat(t, v);
    if t / v < B then t / v else B - 1
  }

  /** The top three window words form a natural number and the top two divisor words one
      of at least B. */
  lemma TrialOperands(u2: nat, u1: nat, u0: nat, v1: nat, v0: nat, B: nat)
    requires v1 > 0 && B > 0
    ensures (u2 * B + u1) * B + u0 >= 0 && v1 * B + v0 >= B
  {
    MulMonotone(0, u2, B);
    MulMonotone(0, u2 * B + u1, B);
    MulMonotone(1, v1, B);
  }

  /** Knuth's estimate: when the window W is below B * V, with W and V written as their top
      three and two words over a common tail weight P, the trial quotient digit lies between
      the true digit W / V and one more. The top word u2 of the window is then at most v1. */
  lemma TrialQuotientBounds(W: nat, V: nat, u2: nat, u1: nat, u0: nat, v1: nat, v0: nat,
                            P: nat, wl: nat, vl: nat, B: nat)
    requires 0 < v1 < B && v0 < B && u1 < B && u0 < B && P > 0
    requires W == ((u2 * B + u1) * B + u0) * P + wl && wl < P
    requires V == (v1 * B + v0) * P + vl && vl < P
    requires W < B * V
    ensures V > 0 && W / V < B && u2 <= v1
    ensures W / V <= TrialQuotient(u2, u1, u0, v1, v0, B) <= W / V + 1
  {
    TrialOperands(u2, u1, u0, v1, v0, B);
    var T: int, V2: int := (u2 * B + u1) * B + u0, v1 * B + v0;
    assert V > 0 by { MulMonotone(1, V2, P); }
    var q := W / V;
    DivNat(W, V);
    DivBound(W, V, B);
    assert T * P <= W < (T + 1) * P by { MulDistrib(P, T, 1); }
    assert V >= V2 * P;
    DigitBelowTrial(W, V, T, V2, P, q);
    TrialQuotientIsMax(u2, u1, u0, v1, v0, B, q);
    var qh := TrialQuotient(u2, u1, u0, v1, v0, B);
    assert W < (q + 1) * V by { MulDistrib(V, q, 1); MulComm(V, q); }
    assert B * P <= V2 * P by { MulMonotone(B, V2, P); }
    TrialNotTwoAbove(W, V, T, V2, P, vl, q, qh, B);
    WindowTopWord(W, V, u2, u1, u0, v1, v0, P, vl, B);
  }

  /** The trial digit is the largest word whose product with the top of the divisor does
      not exceed the top of the window. */
  lemma TrialQuotientIsMax(u2: nat, u1: nat, u0: nat, v1: nat, v0: nat, B: nat, q: nat)
    requires 0 < v1 && 0 < B
    requires q < B && q * (v1 * B + v0) <= (u2 * B + u1) * B + u0
    ensures TrialQuotient(u2, u1, u0, v1, v0, B) * (v1 * B + v0) <= (u2 * B + u1) * B + u0
    ensures q <= TrialQuotient(u2, u1, u0, v1, v0, B)
  {
    var T, V2 := (u2 * B + u1) * B + u0, v1 * B + v0;
    var qh := TrialQuotient(u2, u1, u0, v1, v0, B);
    DivNat(T, V2);
    DivLower(T, V2, q);
    MulMonotone(qh, T / V2, V2);
  }

  /** The true digit q = W / V times the top of the divisor does not exceed the top of the
      window. */
  lemma DigitBelowTrial(W: nat, V: nat, T: nat, V2: nat, P: nat, q: nat)
    requires P > 0 && V >= V2 * P && T * P <= W < (T + 1) * P && q * V <= W
    ensures q * V2 <= T
  {
    var a := q * V2;
    assert a * P <= q * V by {
      MulMonotone(V2 * P, V, q);
      MulAssoc(q, V2, P);
      MulComm(q, V2 * P);
      MulComm(q, V);
    }
    MulComm(a, P);
    MulComm(T + 1, P);
    MulLessCancel(a, T + 1, P);
  }

  /** A trial digit qh with qh * V2 <= T is at most one above the true digit q: two above
      would leave V below (B - 1) * P, yet V is at least V2 * P >= B * P. */
  lemma TrialNotTwoAbove(W: nat, V: nat, T: nat, V2: nat, P: nat, vl: nat, q: nat, qh: nat, B: nat)
    requires B >= 1 && qh <= B - 1 && qh * V2 <= T && T * P <= W && W < (q + 1) * V
    requires V == V2 * P + vl && vl < P && B * P <= V2 * P
    ensures qh <= q + 1
  {
    if qh >= q + 2 {
      var X := V2 * P;
      assert qh * X <= T * P by { MulMonotone(qh * V2, T, P); MulAssoc(qh, V2, P); }
      assert qh * vl <= qh * P by { MulMonotone(vl, P, qh); MulComm(vl, qh); MulComm(P, qh); }
      assert qh * V == qh * X + qh * vl by { MulDistrib(qh, X, vl); }
      assert qh * P <= (B - 1) * P by { MulMonotone(qh, B - 1, P); }
      assert (q + 1) * V <= (qh - 1) * V by { MulMonotone(q + 1, qh - 1, V); }
      assert false;
    }
  }

  /** A window below B * V has a top word u2 no larger than the top word v1 of the
      divisor. */
  lemma WindowTopWord(W: nat, V: nat, u2: nat, u1: nat, u0: nat, v1: nat, v0: nat,
                      P: nat, vl: nat, B: nat)
    requires 0 < v1 < B && v0 < B && P > 0
    requires ((u2 * B + u1) * B + u0) * P <= W
    requires V == (v1 * B + v0) * P + vl && vl < P
    requires W < B * V
    ensures u2 <= v1
  {
    var T, V2 := (u2 * B + u1) * B + u0, v1 * B + v0;
    assert V < (V2 + 1) * P by { MulDistrib(P, V2, 1); }
    assert B * V <= B * ((V2 + 1) * P) by { MulMonotone(V, (V2 + 1) * P, B); MulComm(V, B); MulComm((V2 + 1) * P, B); }
    var K := B * (V2 + 1);
    assert B * ((V2 + 1) * P) == K * P by { MulAssoc(B, V2 + 1, P); }
    assert T < K by {
      MulComm(T, P);
      MulComm(K, P);
      MulLessCancel(T, K, P);
    }
    if u2 > v1 {
      assert T >= u2 * B * B by { MulDistrib(B, u2 * B, u1); }
      assert K == B * V2 + B by { MulDistrib(B, V2, 1); }
      var M := (v1 + 1) * B;
      assert K == B * (v1 * B + (v0 + 1)) by { MulDistrib(B, V2, 1); }
      assert v1 * B + (v0 + 1) <= M by { MulDistrib(B, v1, 1); }
      assert K <= B * M by { MulMonotone(v1 * B + (v0 + 1), M, B); MulComm(B, M); MulComm(B, v1 * B + (v0 + 1)); }
      assert B * M == (v1 + 1) * B * B by { MulComm(B, M); }
      MulMonotone(v1 + 1, u2, B * B);
      MulAssoc(u2, B, B);
      MulAssoc(v1 + 1, B, B);
      assert false;
    }
  }

  /** The test of Div3_Calculate: with qhat * v1 + rhat == u2 u1, the product of qhat and the
      two top divisor words exceeds the three top window words exactly when qhat * v0
      exceeds the double word rhat u0. */
  lemma ProductTest(qhat: nat, rhat: nat, u2: nat, u1: nat, u0: nat, v1: nat, v0: nat, B: nat)
    requires qhat * v1 + rhat == u2 * B + u1
    ensures qhat * (v1 * B + v0) <= (u2 * B + u1) * B + u0 <==> qhat * v0 <= rhat * B + u0
  {
    var Q2 := u2 * B + u1;
    assert qhat * (v1 * B + v0) == (qhat * v1) * B + qhat * v0 by {
      MulDistrib(qhat, v1 * B, v0);
      MulAssoc(qhat, v1, B);
    }
    assert (qhat * v1) * B == Q2 * B - rhat * B by { MulDistrib(B, Q2 - rhat, rhat); }
  }

  /** The state of the correction loop of Div3_Calculate: qhat and rhat divide the top
      double word of the window by v1, qhat is at most B + 1 and not below the trial
      digit. */
  ghost predicate CalcInvariant(qhat: nat, rhat: nat, u2: nat, u1: nat, u0: nat, v1: nat, v0: nat, B: nat)
  {
    0 < v1 < B && v0 < B && u1 < B && u0 < B && u2 <= v1 && rhat < B && qhat * v1 + rhat == u2 * B + u1
    && TrialQuotient(u2, u1, u0, v1, v0, B) <= qhat <= B + 1
  }

  /** The first estimate, the top double word of the window over v1, starts the loop: with
      v1 normalised (2 * v1 >= B) it exceeds B - 1 by at most two. */
  lemma CalcStart(qhat: nat, rhat: nat, u2: nat, u1: nat, u0: nat, v1: nat, v0: nat, B: nat)
    requires 0 < v1 < B && 2 * v1 >= B && v0 < B && u2 <= v1 && u1 < B && u0 < B
    requires qhat * v1 + rhat == u2 * B + u1 && rhat < v1
    ensures CalcInvariant(qhat, rhat, u2, u1, u0, v1, v0, B)
  {
    TrialOperands(u2, u1, u0, v1, v0, B);
    TrialQuotientIsMax(u2, u1, u0, v1, v0, B, 0);
    var t := TrialQuotient(u2, u1, u0, v1, v0, B);
    StartNotBelowTrial(qhat, rhat, t, u2 * B + u1, u0, v1, v0, B);
    StartAtMostTwoAbove(qhat, rhat, u2, u1, v1, B);
  }

  /** A digit t with t * (v1 B + v0) <= Q2 B + u0 is at most qhat when qhat * v1 + rhat == Q2
      and rhat < v1. */
  lemma StartNotBelowTrial(qhat: nat, rhat: nat, t: nat, Q2: nat, u0: nat, v1: nat, v0: nat, B: nat)
    requires 0 < v1 && u0 < B && qhat * v1 + rhat == Q2 && rhat < v1
    requires t * (v1 * B + v0) <= Q2 * B + u0
    ensures t <= qhat
  {
    if t >= qhat + 1 {
      var V2: int := v1 * B + v0;
      assert (qhat + 1) * V2 <= t * V2 by { MulMonotone(0, v1, B); MulMonotone(qhat + 1, t, V2); }
      assert (qhat + 1) * v1 * B <= (qhat + 1) * V2 by {
        MulDistrib(qhat + 1, v1 * B, v0);
        MulAssoc(qhat + 1, v1, B);
      }
      assert Q2 * B + u0 < (Q2 + 1) * B by { MulDistrib(B, Q2, 1); }
      MulComm((qhat + 1) * v1, B);
      MulComm(Q2 + 1, B);
      MulLessCancel((qhat + 1) * v1, Q2 + 1, B);
      MulDistrib(v1, qhat, 1);
      assert false;
    }
  }

  /** With u2 <= v1 and 2 v1 >= B, the quotient qhat of u2 u1 by v1 is at most B + 1. */
  lemma StartAtMostTwoAbove(qhat: nat, rhat: nat, u2: nat, u1: nat, v1: nat, B: nat)
    requires 0 < v1 && 2 * v1 >= B && u2 <= v1 && u1 < B && qhat * v1 + rhat == u2 * B + u1
    ensures qhat <= B + 1
  {
    if qhat >= B + 2 {
      MulMonotone(B + 2, qhat, v1);
      MulDistrib(v1, B, 2);
      MulMonotone(u2, v1, B);
      assert false;
    }
  }

  /** A correction step: when qhat is B or more, or qhat times the top divisor words
      exceeds the top window words, qhat - 1 is still not below the trial digit; and when
      rhat + v1 then leaves the word, qhat - 1 is the trial digit. */
  lemma CalcDecrease(qhat: nat, rhat: nat, u2: nat, u1: nat, u0: nat, v1: nat, v0: nat, B: nat)
    requires CalcInvariant(qhat, rhat, u2, u1, u0, v1, v0, B)
    requires qhat >= B || qhat * v0 > rhat * B + u0
    ensures qhat >= 1 && TrialQuotient(u2, u1, u0, v1, v0, B) <= qhat - 1
    ensures rhat + v1 >= B ==> TrialQuotient(u2, u1, u0, v1, v0, B) == qhat - 1
    ensures rhat + v1 < B ==> CalcInvariant(qhat - 1, rhat + v1, u2, u1, u0, v1, v0, B)
  {
    assert (qhat - 1) * v1 + (rhat + v1) == u2 * B + u1 by { MulDistrib(v1, qhat - 1, 1); }
    var Q2, V2 := u2 * B + u1, v1 * B + v0;
    var t := TrialQuotient(u2, u1, u0, v1, v0, B);
    assert 0 <= Q2 * B by { MulMonotone(0, u2, B); MulMonotone(0, Q2, B); }
    TrialQuotientIsMax(u2, u1, u0, v1, v0, B, 0);
    if qhat < B {
      ProductTest(qhat, rhat, u2, u1, u0, v1, v0, B);
      if t >= qhat {
        MulMonotone(qhat, t, V2);
        assert false;
      }
    }
    if rhat + v1 >= B {
      CalcOverflow(qhat, rhat, u2, u1, u0, v1, v0, B);
    }
  }

  /** When rhat + v1 leaves the word, qhat - 1 is already the trial digit: the product test
      would pass for it. */
  lemma CalcOverflow(qhat: nat, rhat: nat, u2: nat, u1: nat, u0: nat, v1: nat, v0: nat, B: nat)
    requires CalcInvariant(qhat, rhat, u2, u1, u0, v1, v0, B)
    requires qhat >= 1 && TrialQuotient(u2, u1, u0, v1, v0, B) <= qhat - 1 && rhat + v1 >= B
    ensures TrialQuotient(u2, u1, u0, v1, v0, B) == qhat - 1
  {
    var Q2 := u2 * B + u1;
    assert 0 <= Q2 * B by { MulMonotone(0, u2, B); MulMonotone(0, Q2, B); }
    if qhat == B + 1 {
      assert qhat * v1 == v1 * B + v1 by { MulDistrib(v1, B, 1); MulComm(v1, B); }
      assert u2 * B <= v1 * B by { MulMonotone(u2, v1, B); }
      assert false;
    }
    var p := qhat - 1;
    assert p * v1 + (rhat + v1) == Q2 by { MulDistrib(v1, p, 1); }
    assert p * v0 <= (B - 1) * (B - 1) by { MulMonotone(p, B - 1, v0); MulMonotone(v0, B - 1, B - 1); MulComm(v0, B - 1); }
    assert (B - 1) * (B - 1) < (rhat + v1) * B by {
      MulStrictBound(B - 1, B - 1, B, B);
      MulMonotone(B, rhat + v1, B);
    }
    ProductTest(p, rhat + v1, u2, u1, u0, v1, v0, B);
    TrialQuotientIsMax(u2, u1, u0, v1, v0, B, p);
  }

  /** The loop stops with qhat below B and qhat times the top divisor words within the top
      window words: qhat is the trial digit. */
  lemma CalcStop(qhat: nat, rhat: nat, u2: nat, u1: nat, u0: nat, v1: nat, v0: nat, B: nat)
    requires CalcInvariant(qhat, rhat, u2, u1, u0, v1, v0, B)
    requires qhat < B && qhat * v0 <= rhat * B + u0
    ensures qhat == TrialQuotient(u2, u1, u0, v1, v0, B)
  {
    assert 0 <= (u2 * B + u1) * B by { MulMonotone(0, u2, B); MulMonotone(0, u2 * B + u1, B); }
    ProductTest(qhat, rhat, u2, u1, u0, v1, v0, B);
    TrialQuotientIsMax(u2, u1, u0, v1, v0, B, qhat);
  }

  /** The two words lo, hi of a number x at most B + 1: hi is 0 or 1, it is 1 exactly when
      x reaches B, and when it is 0 the low word is x. */
  lemma DoubleWordDigits(lo: nat, hi: nat, B: nat, x: nat)
    requires x == lo + B * hi && lo < B && x <= B + 1 && B >= 2
    ensures hi <= 1 && (hi == 1 <==> x >= B) && (hi == 0 ==> lo == x)
  {
    if hi >= 2 {
      MulMonotone(2, hi, B);
      MulComm(hi, B);
    }
  }

  /** The multiply-subtract step without a borrow: W - qp * V did not go below zero, so a
      trial digit qp not below W / V is the digit and the difference the remainder. */
  lemma MulSubExact(W: nat, V: nat, qp: nat, r: nat)
    requires V > 0 && W / V <= qp && r + qp * V == W
    ensures qp == W / V && r == W % V
  {
    DivNat(W, V);
    if qp > W / V {
      MulMonotone(W / V + 1, qp, V);
      MulDistrib(V, W / V, 1);
      assert false;
    }
  }

  /** The add-back step: the trial digit was one too large, W - qp * V went below zero by
      less than V and wrapped around modulo C; adding V back, with the carry out of the top
      dropped, leaves the remainder W % V and the digit is qp - 1. */
  lemma MulSubAddBack(W: nat, V: nat, qp: nat, C: nat, r1: nat, r2: nat, c2: nat)
    requires 0 < V < C && W < qp * V && qp <= W / V + 1 && r1 + qp * V == W + C
    requires r2 + c2 * C == r1 + V && r2 < C && c2 <= 1
    ensures qp == W / V + 1 && c2 == 1 && r2 == W % V
  {
    DivNat(W, V);
    if qp <= W / V {
      MulMonotone(qp, W / V, V);
      assert false;
    }
    assert qp * V == (W / V) * V + V by { MulDistrib(V, W / V, 1); MulComm(V, W / V); }
    assert r1 + V == W % V + C;
    if c2 == 0 {
      assert false;
    }
  }

  /** The window of Algorithm D, the n words s with the word u2 above them, written as its
      top three words over the weight of the n - 2 words below. */
  lemma WindowTop(s: seq<nat>, u2: nat, w: nat)
    requires |s| >= 2
    ensures Val(s, w) + u2 * WPow(w, |s|)
         == ((u2 * Pow2(w) + s[|s| - 1]) * Pow2(w) + s[|s| - 2]) * WPow(w, |s| - 2) + Val(s[..|s| - 2], w)
  {
    var n := |s|;
    ValTopTwo(s, w);
    WPowTwoMore(w, n - 2);
    WindowAlgebra(Val(s, w), s[n - 1], s[n - 2], u2, Pow2(w), WPow(w, n - 2), Val(s[..n - 2], w), WPow(w, n));
  }

  lemma WindowAlgebra(S: nat, s1: nat, s0: nat, u2: nat, B: nat, P: nat, L: nat, Wn: nat)
    requires S == (s1 * B + s0) * P + L && Wn == (B * B) * P
    ensures S + u2 * Wn == ((u2 * B + s1) * B + s0) * P + L
  {
    var H := u2 * B * B;
    assert u2 * ((B * B) * P) == H * P by {
      MulAssoc(u2, B * B, P);
      MulAssoc(u2, B, B);
    }
    assert (u2 * B + s1) * B + s0 == H + (s1 * B + s0) by {
      MulDistrib(B, u2 * B, s1);
    }
    MulDistrib(P, H, s1 * B + s0);
  }

  /** two more words weigh B * B more */
  lemma WPowTwoMore(w: nat, k: nat)
    ensures WPow(w, k + 2) == (Pow2(w) * Pow2(w)) * WPow(w, k)
  {
    var B := Pow2(w);
    assert WPow(w, k + 2) == B * (B * WPow(w, k));
    MulAssoc(B, B, WPow(w, k));
  }

  /** The partial remainder of Algorithm D at step j: the low j words, and above them the
      window of n words of t from word j with u2 on top. */
  lemma WindowSplit(t: seq<nat>, j: nat, n: nat, u2: nat, w: nat)
    requires j + n <= |t|
    ensures Val(t[..j + n], w) + u2 * WPow(w, j + n)
         == Val(t[..j], w) + (Val(t[j..j + n], w) + u2 * WPow(w, n)) * WPow(w, j)
  {
    assert t[..j + n] == t[..j] + t[j..j + n];
    ValAppend(t[..j], t[j..j + n], w);
    var P, Q := WPow(w, j), WPow(w, n);
    assert WPow(w, j + n) == P * Q by { WPowAdd(w, j, n); }
    assert u2 * (P * Q) == (u2 * Q) * P by { MulAssoc(u2, P, Q); MulComm(u2 * P, Q); MulAssoc(Q, u2, P); MulComm(Q, u2); }
    MulComm(P, Val(t[j..j + n], w));
    MulDistrib(P, Val(t[j..j + n], w), u2 * Q);
  }

  /** A partial remainder below V * B^(j+1) has a window below B * V. */
  lemma WindowBelow(low: nat, W: nat, P: nat, V: nat, B: nat)
    requires low + W * P < V * (B * P)
    ensures W < B * V
  {
    assert W * P < (B * V) * P by { MulAssoc(V, B, P); MulComm(V, B); }
    MulComm(W, P);
    MulComm(B * V, P);
    MulLessCancel(W, B * V, P);
  }

  /** The invariant of the main loop of Div3: the normalised dividend U is the quotient
      digits found so far times V plus the partial remainder R, and R is below V * P. */
  ghost predicate Progress(U: int, Q: int, V: int, R: int, P: int)
  {
    U == Q * V + R && R < V * P
  }

  /** the partial remainder of the main loop: the first k words of t with u2 above them */
  ghost function Partial(t: seq<nat>, k: nat, u2: nat, w: nat): nat
    requires k <= |t|
  {
    MulMonotone(0, u2, WPow(w, k));
    Val(t[..k], w) + u2 * WPow(w, k)
  }

  /** moving the loop one word down: the word at k becomes the u2 above the first k words */
  lemma PartialNext(t: seq<nat>, k: nat, w: nat)
    requires k < |t|
    ensures Partial(t, k, t[k], w) == Val(t[..k + 1], w)
  {
    ValPrefix(t, k, w);
  }

  /** One step of the main loop: the window W at weight P becomes digit qd and remainder
      r; the digit joins the quotient at weight P and the remainder replaces the window. */
  lemma DigitStep(U: nat, Q: nat, V: nat, low: nat, W: nat, P: nat, B: nat, qd: nat, r: nat)
    requires Progress(U, Q, V, low + W * P, B * P)
    requires W == qd * V + r && r < V && low < P
    ensures Progress(U, Q + qd * P, V, low + r * P, P)
  {
    assert W * P == qd * P * V + r * P by {
      MulDistrib(P, qd * V, r);
      MulAssoc(qd, V, P);
      MulComm(V, P);
      MulAssoc(qd, P, V);
    }
    assert (Q + qd * P) * V == Q * V + qd * P * V by { MulDistrib(V, Q, qd * P); }
    assert r * P + P <= V * P by { MulMonotone(r + 1, V, P); MulDistrib(P, r, 1); }
  }

  /** The quotient and remainder do not change when dividend and divisor are both scaled by
      s, except that the remainder is scaled too. */
  lemma ScaledDivMod(X: nat, D: nat, s: nat)
    requires D > 0 && s > 0
    ensures D * s > 0
    ensures (X * s) / (D * s) == X / D && (X * s) % (D * s) == (X % D) * s
  {
    MulMonotone(1, D, s);
    DivNat(X, D);
    var q, r := X / D, X % D;
    assert X * s == q * (D * s) + r * s by {
      MulDistrib(s, q * D, r);
      MulAssoc(q, D, s);
    }
    assert r * s < D * s by { MulMonotone(r + 1, D, s); MulDistrib(s, r, 1); }
    DivModUnique(X * s, D * s, q, r * s);
  }

  /** Normalisation of the divisor: a value V whose top word (at weight P) has its leading
      bit at `bit` becomes, shifted left by w - bit - 1, a value below 2^w * P whose top
      word has its highest bit set. */
  lemma NormalizedBounds(V: nat, top: nat, bit: nat, w: nat, P: nat)
    requires P > 0 && V / P == top && Pow2(bit) <= top < Pow2(bit + 1) && bit < w
    ensures V * Pow2(w - bit - 1) < Pow2(w) * P
    ensures Pow2(w - 1) * P <= V * Pow2(w - bit - 1)
  {
    var k := w - bit - 1;
    DivNat(V, P);
    assert Pow2(bit + 1) * Pow2(k) == Pow2(w) by { Pow2Add(bit + 1, k); }
    assert Pow2(bit) * Pow2(k) == Pow2(w - 1) by { Pow2Add(bit, k); }
    assert V < Pow2(bit + 1) * P by {
      MulMonotone(top + 1, Pow2(bit + 1), P);
      MulDistrib(P, top, 1);
    }
    assert Pow2(bit) * P <= V by { MulMonotone(Pow2(bit), top, P); }
    MulStrictBound(V, Pow2(k), Pow2(bit + 1) * P, Pow2(k) + 1);
    MulMonotone(V, Pow2(bit + 1) * P, Pow2(k));
    MulMonotone(V + 1, Pow2(bit + 1) * P, Pow2(k));
    MulDistrib(Pow2(k), V, 1);
    MulAssoc(Pow2(bit + 1), P, Pow2(k));
    MulComm(P, Pow2(k));
    MulAssoc(Pow2(bit + 1), Pow2(k), P);
    MulMonotone(Pow2(bit) * P, V, Pow2(k));
    MulAssoc(Pow2(bit), P, Pow2(k));
    MulAssoc(Pow2(bit), Pow2(k), P);
  }

  /** Normalisation of the dividend: the bits that a left shift by k < w pushes out of an
      (m + 1)-word value X are those of its top word shifted right by w - k. */
  lemma ShiftOverflow(X: nat, top: nat, k: nat, w: nat, m: nat)
    requires X / WPow(w, m) == top && k <= w
    ensures (X * Pow2(k)) / Pow2(w * m + w) == top / Pow2(w - k)
  {
    var a := w * m + (w - k);
    assert a + k == w * m + w;
    Pow2Add(a, k);
    DivDiv(X * Pow2(k), Pow2(k), Pow2(a));
    MulDivCancel(X, Pow2(k));
    MulComm(Pow2(k), Pow2(a));
    DivPow2Add(X, w * m, w - k);
    WPowIsPow2(w, m);
  }

  /** Normalisation of an n-word divisor: its shift stays below B^n, so no bit leaves the
      register. */
  lemma NormalizeDivisorShift(V: nat, w: nat, n: nat, size: nat, k: nat)
    requires 1 <= n <= size && V * Pow2(k) < Pow2(w) * WPow(w, n - 1)
    ensures V * Pow2(k) < WPow(w, n)
    ensures ShlFill(V, k, false, w * size) == V * Pow2(k)
  {
    WPowLe(w, n, size);
    WPowIsPow2(w, size);
    assert FillMask(k, false) == 0;
    SmallDivMod(V * Pow2(k), Pow2(w * size));
  }

  /** A value below B^n but at least 2^(w-1) * B^(n-1) has word n - 1 with its top bit set
      and nothing above it. */
  lemma NormalizedTopWord(s: seq<nat>, n: nat, w: nat)
    requires IsWords(s, w) && 1 <= n <= |s| && w >= 1
    requires Val(s, w) < WPow(w, n) && Pow2(w - 1) * WPow(w, n - 1) <= Val(s, w)
    ensures forall j :: n <= j < |s| ==> s[j] == 0
    ensures 2 * s[n - 1] >= Pow2(w)
  {
    HighWordsZero(s, n, w);
    TopWordOf(s, n - 1, w);
    DivLower(Val(s, w), WPow(w, n - 1), Pow2(w - 1));
  }

  /** A left shift by k <= w of a register of `size` words whose top word is `top` keeps
      the low words and pushes out top shifted right by w - k. */
  lemma ShiftedValue(X: nat, Z: nat, top: nat, k: nat, w: nat, size: nat)
    requires size >= 1 && k <= w && X / WPow(w, size - 1) == top
    requires Z == ShlFill(X, k, false, w * size)
    ensures Z + (top / Pow2(w - k)) * WPow(w, size) == X * Pow2(k)
  {
    ShiftOverflow(X, top, k, w, size - 1);
    assert FillMask(k, false) == 0;
    assert w * (size - 1) + w == w * size;
    WPowIsPow2(w, size);
    DivNat(X * Pow2(k), Pow2(w * size));
    MulComm(X * Pow2(k) / Pow2(w * size), Pow2(w * size));
  }

  /** Normalising the divisor: s has n significant words and its top word's leading bit at
      `bit`; shifted left by k = w - bit - 1 > 0 in a register of |s| words it becomes s2,
      which keeps the whole value times 2^k and has the top bit of word n - 1 set. */
  lemma NormalizeDivisor(s: seq<nat>, s2: seq<nat>, n: nat, w: nat, bit: nat, k: nat)
    requires IsWords(s, w) && IsWords(s2, w) && |s2| == |s| && w >= 1
    requires 1 <= n <= |s| && forall j :: n <= j < |s| ==> s[j] == 0
    requires Pow2(bit) <= s[n - 1] < Pow2(bit + 1) && bit < w && k == w - bit - 1
    requires Val(s2, w) == ShlFill(Val(s, w), k, false, w * |s|)
    ensures Val(s2, w) == Val(s, w) * Pow2(k)
    ensures 2 * s2[n - 1] >= Pow2(w) && forall j :: n <= j < |s| ==> s2[j] == 0
  {
    var V, P := Val(s, w), WPow(w, n - 1);
    TopWordOf(s, n - 1, w);
    NormalizedBounds(V, s[n - 1], bit, w, P);
    NormalizeDivisorShift(V, w, n, |s|, k);
    NormalizedTopWord(s2, n, w);
  }

  /** Normalising the dividend: s shifted left by k <= w in a register of |s| words becomes
      s2, and the bits pushed out are its top word shifted right by w - k. */
  lemma NormalizeDividend(s: seq<nat>, s2: seq<nat>, w: nat, k: nat)
    requires IsWords(s, w) && |s| >= 1 && k <= w
    requires Val(s2, w) == ShlFill(Val(s, w), k, false, w * |s|)
    ensures Val(s2, w) + (s[|s| - 1] / Pow2(w - k)) * WPow(w, |s|) == Val(s, w) * Pow2(k)
  {
    TopWordOf(s, |s| - 1, w);
    ShiftedValue(Val(s, w), Val(s2, w), s[|s| - 1], k, w, |s|);
  }

  /** One position j of the main loop, before the digit is computed: with the partial
      remainder below V * B^(j+1), the window W of words j .. j+n-1 and u2 above them splits
      off the lower words, lies below B * V, and the trial digit from its top three words and
      the top two of the normalised divisor is W / V or one more. */
  lemma WindowDigit(t: seq<nat>, vs: seq<nat>, j: nat, n: nat, u2: nat, w: nat, U: nat, Q: nat)
    requires IsWords(t, w) && IsWords(vs, w) && n >= 2 && j + n <= |t| && n <= |vs|
    requires forall k :: n <= k < |vs| ==> vs[k] == 0
    requires 2 * vs[n - 1] >= Pow2(w)
    requires Progress(U, Q, Val(vs, w), Partial(t, j + n, u2, w), WPow(w, j + 1))
    ensures var V, W, B := Val(vs, w), Val(t[j..j + n], w) + u2 * WPow(w, n), Pow2(w);
      0 < V < WPow(w, n) && u2 <= vs[n - 1] && W / V < B
      && W / V <= TrialQuotient(u2, t[j + n - 1], t[j + n - 2], vs[n - 1], vs[n - 2], B) <= W / V + 1
      && Progress(U, Q, V, Val(t[..j], w) + W * WPow(w, j), B * WPow(w, j))
      && Val(t[..j], w) < WPow(w, j)
  {
    var V: int, B: int, P: int := Val(vs, w), Pow2(w), WPow(w, j);
    var s := t[j..j + n];
    MulMonotone(0, u2, WPow(w, n));
    var W: int, low := Val(s, w) + u2 * WPow(w, n), Val(t[..j], w);
    var u1, u0, v1, v0 := t[j + n - 1], t[j + n - 2], vs[n - 1], vs[n - 2];
    var Pn := WPow(w, n - 2);
    assert V == Val(vs[..n], w) < WPow(w, n) by {
      ValHighZero(vs, n, w);
      ValBound(vs[..n], w);
    }
    assert Val(t[..j + n], w) + u2 * WPow(w, j + n) == low + W * P && WPow(w, j + 1) == B * P by {
      WindowSplit(t, j, n, u2, w);
    }
    ValBound(t[..j], w);
    assert W < B * V by {
      WindowBelow(low, W, P, V, B);
    }
    WindowWords(t, j, n, u2, w);
    var vl := Val(vs[..n - 2], w);
    assert V == (v1 * B + v0) * Pn + vl && vl < Pn by {
      DivisorWords(vs, n, w);
    }
    TrialQuotientBounds(W, V, u2, u1, u0, v1, v0, Pn, Val(s[..n - 2], w), vl, B);
  }

  /** A divisor of n >= 2 significant words as its top two words over the n - 2 lower
      ones. */
  lemma DivisorWords(vs: seq<nat>, n: nat, w: nat)
    requires IsWords(vs, w) && 2 <= n <= |vs|
    requires forall k :: n <= k < |vs| ==> vs[k] == 0
    ensures Val(vs, w) == (vs[n - 1] * Pow2(w) + vs[n - 2]) * WPow(w, n - 2) + Val(vs[..n - 2], w)
    ensures Val(vs[..n - 2], w) < WPow(w, n - 2)
  {
    ValHighZero(vs, n, w);
    WindowWords(vs, 0, n, 0, w);
    assert vs[0..n] == vs[..n] && vs[..n][..n - 2] == vs[..n - 2];
  }

  /** The window of n >= 2 words at word j of t, with u2 above it, as its top three words
      over the n - 2 lower ones. */
  lemma WindowWords(t: seq<nat>, j: nat, n: nat, u2: nat, w: nat)
    requires IsWords(t, w) && n >= 2 && j + n <= |t|
    ensures Val(t[j..j + n], w) + u2 * WPow(w, n)
         == ((u2 * Pow2(w) + t[j + n - 1]) * Pow2(w) + t[j + n - 2]) * WPow(w, n - 2)
            + Val(t[j..j + n][..n - 2], w)
    ensures Val(t[j..j + n][..n - 2], w) < WPow(w, n - 2)
  {
    var s := t[j..j + n];
    WindowTop(s, u2, w);
    ValBound(s[..n - 2], w);
  }

  /** After the step: the remainder r of the window, words `rs` denoting less than B^n, goes
      back at word j, so the first j + n words denote the lower words plus r * B^j. */
  lemma WindowReplace(t: seq<nat>, t2: seq<nat>, rs: seq<nat>, j: nat, n: nat, w: nat)
    requires IsWords(rs, w) && n < |rs| && Val(rs, w) < WPow(w, n)
    requires j + n <= |t2| && j <= |t| && t2[..j] == t[..j] && t2[j..j + n] == rs[..n]
    ensures Val(t2[..j + n], w) == Val(t[..j], w) + Val(rs, w) * WPow(w, j)
  {
    HighWordsZero(rs, n, w);
    ValHighZero(rs, n, w);
    assert t2[..j + n] == t2[..j] + t2[j..j + n];
    ValAppend(t2[..j], t2[j..j + n], w);
  }

  /** The start of the main loop: the normalised dividend U * 2^d, held as the words t
      with `res` above them, has nothing above word k when U is below B^k; so it is the
      first k words plus the word above them (res itself when k is the whole register). */
  lemma DividendStart(t: seq<nat>, res: nat, k: nat, w: nat, U: nat, d: nat)
    requires IsWords(t, w) && k <= |t| && d < w
    requires Val(t, w) + res * WPow(w, |t|) == U * Pow2(d) && U < WPow(w, k)
    ensures Partial(t, k, if k == |t| then res else t[k], w) == U * Pow2(d)
  {
    if k == |t| {
      assert t[..k] == t;
      assert Partial(t, k, res, w) == Val(t, w) + res * WPow(w, |t|);
    } else {
      DividendBelow(t, res, k, w, U, d);
      ValPrefix(t, k, w);
      assert Partial(t, k, t[k], w) == Val(t[..k + 1], w);
    }
  }

  /** When the normalised dividend fits in k + 1 < |t| + 1 words, nothing was shifted out
      and it is the value of the first k + 1 words. */
  lemma DividendBelow(t: seq<nat>, res: nat, k: nat, w: nat, U: nat, d: nat)
    requires IsWords(t, w) && k < |t| && d < w
    requires Val(t, w) + res * WPow(w, |t|) == U * Pow2(d) && U < WPow(w, k)
    ensures Val(t[..k + 1], w) == U * Pow2(d)
  {
    assert U * Pow2(d) < WPow(w, k + 1) by {
      ScaledBelowNextWord(U, d, k, w);
    }
    assert res == 0 by {
      WPowLe(w, k + 1, |t|);
      if res > 0 {
        MulMonotone(1, res, WPow(w, |t|));
        assert false;
      }
    }
    HighWordsZero(t, k + 1, w);
    ValHighZero(t, k + 1, w);
  }

  /** A number below B^k scaled by 2^d, d < w, stays below B^(k+1). */
  lemma ScaledBelowNextWord(U: nat, d: nat, k: nat, w: nat)
    requires d < w && U < WPow(w, k)
    ensures U * Pow2(d) < WPow(w, k + 1)
  {
    var P, B := WPow(w, k), Pow2(w);
    Pow2Le(d, w);
    ScaleBelow(U, P, Pow2(d));
    MulMonotone(Pow2(d), B, P);
    MulComm(Pow2(d), P);
    MulComm(B, P);
    assert WPow(w, k + 1) == B * P;
  }

  /** The bound the main loop starts from: a dividend below B^(j+n) over a divisor of n
      significant words is below V * B^(j+1), and stays so when both are scaled by 2^d. */
  lemma StartBound(U: nat, V: nat, d: nat, n: nat, j: nat, w: nat)
    requires n >= 1 && U < WPow(w, j + n) && WPow(w, n - 1) <= V
    ensures U * Pow2(d) < (V * Pow2(d)) * WPow(w, j + 1)
  {
    var P, A, s := WPow(w, j + 1), WPow(w, n - 1), Pow2(d);
    assert U < V * P by {
      WPowAdd(w, n - 1, j + 1);
      MulMonotone(A, V, P);
    }
    ScaleBelow(U, V * P, s);
    assert (V * P) * s == (V * s) * P by {
      MulAssoc(V, P, s);
      MulComm(P, s);
      MulAssoc(V, s, P);
    }
  }

  /** scaling keeps a strict order */
  lemma ScaleBelow(x: nat, y: nat, s: nat)
    requires x < y && s > 0
    ensures x * s < y * s
  {
    MulMonotone(x + 1, y, s);
    MulDistrib(s, x, 1);
  }

  /** The end of the main loop: with the whole normalised dividend split exactly over the
      normalised divisor, Q is the quotient of the original numbers and R shifted back by d
      bits is their remainder. */
  lemma FinishDivision(U: nat, V: nat, d: nat, Q: nat, R: nat)
    requires V > 0 && Progress(U * Pow2(d), Q, V * Pow2(d), R, 1)
    ensures Q == U / V && R / Pow2(d) == U % V
  {
    ScaledDivMod(U, V, Pow2(d));
    DivModUnique(U * Pow2(d), V * Pow2(d), Q, R);
    MulDivCancel(U % V, Pow2(d));
  }
}
