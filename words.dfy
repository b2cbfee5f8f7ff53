/** The number a word vector denotes: words of w bits, least significant first,
    so that s denotes s[0] + s[1] * 2^w + s[2] * 2^(2w) + ... */
module Words {
  import opened Arith

  /** B^k for the word base B = 2^w */
  function WPow(w: nat, k: nat): (r: nat)
    ensures r >= 1
  {
    if k == 0 then 1 else Pow2(w) * WPow(w, k - 1)
  }

  lemma {:induction false} WPowAdd(w: nat, a: nat, b: nat)
    ensures WPow(w, a + b) == WPow(w, a) * WPow(w, b)
  {
    if a > 0 {
      WPowAdd(w, a - 1, b);
      assert WPow(w, a + b) == Pow2(w) * WPow(w, a - 1 + b);
      MulAssoc(Pow2(w), WPow(w, a - 1), WPow(w, b));
    }
  }

  lemma {:induction false} WPowIsPow2(w: nat, k: nat)
    ensures WPow(w, k) == Pow2(w * k)
  {
    if k > 0 {
      WPowIsPow2(w, k - 1);
      Pow2Add(w, w * (k - 1));
      assert w + w * (k - 1) == w * k;
    }
  }

  /** B^b split at a */
  lemma {:induction false} WPowSplit(w: nat, a: nat, b: nat)
    requires a <= b
    ensures WPow(w, b) == WPow(w, a) * WPow(w, b - a)
  {
    if a > 0 {
      WPowSplit(w, a - 1, b - 1);
      var B, x, y := Pow2(w), WPow(w, a - 1), WPow(w, b - a);
      assert WPow(w, b) == B * (x * y);
      MulAssoc(B, x, y);
    }
  }

  lemma WPowLe(w: nat, a: nat, b: nat)
    requires a <= b
    ensures WPow(w, a) <= WPow(w, b)
  {
    WPowSplit(w, a, b);
    MulComm(WPow(w, a), WPow(w, b - a));
    MulMonotone(1, WPow(w, b - a), WPow(w, a));
  }

  /** every element is a word of w bits */
  ghost predicate IsWords(s: seq<nat>, w: nat)
  {
    forall i :: 0 <= i < |s| ==> s[i] < Pow2(w)
  }

  /** the value of a word vector, least significant word first */
  function Val(s: seq<nat>, w: nat): nat
  {
    if |s| == 0 then 0 else s[0] + Pow2(w) * Val(s[1..], w)
  }

  lemma {:induction false} ValAppend(a: seq<nat>, b: seq<nat>, w: nat)
    ensures Val(a + b, w) == Val(a, w) + WPow(w, |a|) * Val(b, w)
  {
    if |a| > 0 {
      assert (a + b)[1..] == a[1..] + b;
      ValAppend(a[1..], b, w);
      var B, x, y, z := Pow2(w), Val(a[1..], w), WPow(w, |a| - 1), Val(b, w);
      assert Val(a + b, w) == a[0] + B * (x + y * z);
      MulDistrib(B, x, y * z);
      MulAssoc(B, y, z);
      assert WPow(w, |a|) == B * y;
    } else {
      assert a + b == b;
    }
  }

  lemma ValSingle(x: nat, w: nat)
    ensures Val([x], w) == x
  {
    assert [x][1..] == [];
  }

  lemma ValSnoc(s: seq<nat>, x: nat, w: nat)
    ensures Val(s + [x], w) == Val(s, w) + x * WPow(w, |s|)
  {
    ValSingle(x, w);
    ValAppend(s, [x], w);
  }

  lemma {:induction false} ValBound(s: seq<nat>, w: nat)
    requires IsWords(s, w)
    ensures Val(s, w) < WPow(w, |s|)
  {
    if |s| > 0 {
      ValBound(s[1..], w);
      var B, x, y := Pow2(w), Val(s[1..], w), WPow(w, |s| - 1);
      ConcatBound(x, s[0], y, B);
      assert WPow(w, |s|) == B * y;
      assert Val(s, w) == s[0] + B * x;
    }
  }

  /** the low k words hold the value modulo B^k, the rest hold the quotient */
  lemma ValSplit(s: seq<nat>, k: nat, w: nat)
    requires IsWords(s, w) && k <= |s|
    ensures Val(s[..k], w) == Val(s, w) % WPow(w, k)
    ensures Val(s[k..], w) == Val(s, w) / WPow(w, k)
  {
    assert s == s[..k] + s[k..];
    ValAppend(s[..k], s[k..], w);
    ValBound(s[..k], w);
    DivModSplit(Val(s[k..], w), WPow(w, k), Val(s[..k], w));
  }

  /** one more word of suffix */
  lemma ValSuffix(s: seq<nat>, i: nat, w: nat)
    requires i < |s|
    ensures Val(s[i..], w) == s[i] + Pow2(w) * Val(s[i + 1..], w)
  {
    assert s[i..][1..] == s[i + 1..];
  }

  /** a vector of zero words denotes zero, and only such a vector does */
  lemma {:induction false} ValZero(s: seq<nat>, w: nat)
    ensures Val(s, w) == 0 <==> forall i :: 0 <= i < |s| ==> s[i] == 0
  {
    if |s| > 0 {
      ValZero(s[1..], w);
      var tail := s[1..];
      var allZero := forall i :: 0 <= i < |s| ==> s[i] == 0;
      var tailZero := forall j :: 0 <= j < |tail| ==> tail[j] == 0;
      assert allZero <==> s[0] == 0 && tailZero by {
        if allZero {
          forall j | 0 <= j < |tail| ensures tail[j] == 0 {
            assert tail[j] == s[j + 1];
          }
        }
        if s[0] == 0 && tailZero {
          forall i | 0 <= i < |s| ensures s[i] == 0 {
            if i > 0 { assert s[i] == tail[i - 1]; }
          }
        }
      }
      var v := Val(tail, w);
      if v > 0 {
        MulMonotone(1, v, Pow2(w));
      }
      assert Val(s, w) == s[0] + Pow2(w) * v;
    }
  }

  /** a vector of all-ones words denotes B^k - 1 */
  lemma {:induction false} ValAllOnes(s: seq<nat>, w: nat)
    requires forall i :: 0 <= i < |s| ==> s[i] == Pow2(w) - 1
    ensures Val(s, w) == WPow(w, |s|) - 1
  {
    if |s| > 0 {
      ValAllOnes(s[1..], w);
    }
  }

  /** a vector whose words from k on are zero denotes the value of its first k words */
  lemma ValHighZero(s: seq<nat>, k: nat, w: nat)
    requires k <= |s| && forall i :: k <= i < |s| ==> s[i] == 0
    ensures Val(s, w) == Val(s[..k], w)
  {
    assert s == s[..k] + s[k..];
    ValAppend(s[..k], s[k..], w);
    ValZero(s[k..], w);
  }

  /** a constant vector: k copies of x */
  function Fill(k: nat, x: nat): (r: seq<nat>)
    ensures |r| == k && forall i :: 0 <= i < k ==> r[i] == x
  {
    seq(k, _ => x)
  }

  lemma LessAtArith(la: nat, lb: nat, m: nat, x: nat, y: nat)
    requires la < m && x < y
    ensures la + m * x < lb + m * y
  {
    MulMonotone(x + 1, y, m);
    MulDistrib(m, x, 1);
  }

  /** Comparing from the top: the first differing word decides. */
  lemma ValLessAt(a: seq<nat>, b: seq<nat>, k: nat, w: nat)
    requires IsWords(a, w) && IsWords(b, w) && |a| == |b| && k < |a|
    requires a[k + 1..] == b[k + 1..] && a[k] < b[k]
    ensures Val(a, w) < Val(b, w)
  {
    var ha, hb := a[k..], b[k..];
    assert a == a[..k] + ha;
    assert b == b[..k] + hb;
    ValAppend(a[..k], ha, w);
    ValAppend(b[..k], hb, w);
    ValBound(a[..k], w);
    var t := Val(a[k + 1..], w);
    assert ha[1..] == a[k + 1..] && hb[1..] == b[k + 1..];
    assert Val(ha, w) == a[k] + Pow2(w) * t;
    assert Val(hb, w) == b[k] + Pow2(w) * t;
    LessAtArith(Val(a[..k], w), Val(b[..k], w), WPow(w, k), Val(ha, w), Val(hb, w));
  }

  /** A vector whose low m words are x and whose other words are those of a, m places
      lower, is the words of a moved up by m. */
  lemma MovedUp(t: seq<nat>, a: seq<nat>, m: nat, x: nat)
    requires |t| == |a| && m <= |a|
    requires forall j :: 0 <= j < m ==> t[j] == x
    requires forall j :: m <= j < |a| ==> t[j] == a[j - m]
    ensures t == Fill(m, x) + a[..|a| - m]
  {
    var r := Fill(m, x) + a[..|a| - m];
    forall j | 0 <= j < |t| ensures t[j] == r[j] {
      if j >= m {
        assert r[j] == a[..|a| - m][j - m];
      }
    }
  }

  /** A vector whose high m words are x and whose other words are those of a, m places
      higher, is the words of a moved down by m. */
  lemma MovedDown(t: seq<nat>, a: seq<nat>, m: nat, x: nat)
    requires |t| == |a| && m <= |a|
    requires forall j :: 0 <= j < |a| - m ==> t[j] == a[j + m]
    requires forall j :: |a| - m <= j < |a| ==> t[j] == x
    ensures t == a[m..] + Fill(m, x)
  {
    var r := a[m..] + Fill(m, x);
    forall j | 0 <= j < |t| ensures t[j] == r[j] {
      if j >= |a| - m {
        assert r[j] == Fill(m, x)[j - (|a| - m)];
      }
    }
  }
}
