/** Bits of a natural number, shifts that fill the vacated bits, and word-level
    bitwise operations. A t-bit register is a natural below 2^t. */
module Bits {
  import opened Arith

  /** bit j of x */
  function Bit(x: nat, j: nat): (r: nat)
    ensures r < 2
  {
    if j == 0 then x % 2 else Bit(x / 2, j - 1)
  }

  function BoolBit(b: bool): nat
  {
    if b then 1 else 0
  }

  lemma BitHalf(x: nat, j: nat)
    ensures Bit(x, j + 1) == Bit(x / 2, j)
  {
  }

  /** bit j is the parity of x / 2^j */
  lemma {:induction false} BitDiv(x: nat, j: nat)
    ensures Bit(x, j) == x / Pow2(j) % 2
  {
    if j > 0 {
      BitDiv(x / 2, j - 1);
      DivPow2Add(x, 1, j - 1);
      assert Pow2(1) == 2;
    }
  }

  /** the bits of x / 2^k are the bits of x from k on */
  lemma {:induction false} BitShr(x: nat, k: nat, j: nat)
    ensures Bit(Shr(x, k), j) == Bit(x, j + k)
  {
    if k > 0 {
      DivPow2Add(x, 1, k - 1);
      assert Pow2(1) == 2;
      assert x / Pow2(k) == x / 2 / Pow2(k - 1);
      BitShr(x / 2, k - 1, j);
      assert Bit(x, j + k) == Bit(x / 2, j + k - 1);
    }
  }

  /** the bits of 2x + e: e at the bottom, then the bits of x */
  lemma BitOfDouble(x: nat, e: nat, j: nat)
    requires e < 2
    ensures Bit(2 * x + e, j) == if j == 0 then e else Bit(x, j - 1)
  {
    DivModSplit(x, 2, e);
  }

  /** two t-bit numbers with the same t bits are equal */
  lemma {:induction false} BitsEq(x: nat, y: nat, t: nat)
    requires x < Pow2(t) && y < Pow2(t)
    requires forall j :: 0 <= j < t ==> Bit(x, j) == Bit(y, j)
    ensures x == y
  {
    if t == 0 {
    } else {
      assert Bit(x, 0) == Bit(y, 0);
      forall j | 0 <= j < t - 1
        ensures Bit(x / 2, j) == Bit(y / 2, j)
      {
        BitHalf(x, j);
        BitHalf(y, j);
      }
      DivBound(x, 2, Pow2(t - 1));
      DivBound(y, 2, Pow2(t - 1));
      BitsEq(x / 2, y / 2, t - 1);
    }
  }

  /** a bit at or above t of a t-bit number is 0 */
  lemma BitHigh(x: nat, t: nat, j: nat)
    requires x < Pow2(t) && t <= j
    ensures Bit(x, j) == 0
  {
    Pow2Le(t, j);
    SmallDivMod(x, Pow2(j));
    BitDiv(x, j);
  }

  /** reducing modulo 2^t keeps the bits below t */
  lemma {:induction false} BitMod(x: nat, t: nat, j: nat)
    requires j < t
    ensures Bit(x % Pow2(t), j) == Bit(x, j)
  {
    var p := Pow2(t - 1);
    assert Pow2(t) == 2 * p;
    ModMod(x, 2, p);
    if j > 0 {
      BitMod(x / 2, t - 1, j - 1);
    }
  }

  /** the bits of hi * 2^k + lo, for lo below 2^k: lo's bits, then hi's */
  lemma {:induction false} BitConcat(hi: nat, lo: nat, k: nat, j: nat)
    requires lo < Pow2(k)
    ensures Bit(hi * Pow2(k) + lo, j) == if j < k then Bit(lo, j) else Bit(hi, j - k)
  {
    if k > 0 {
      var p := Pow2(k - 1);
      var h := hi * p + lo / 2;
      MulAssoc(hi, 2, p);
      assert hi * Pow2(k) == 2 * (hi * p);
      assert hi * Pow2(k) + lo == 2 * h + lo % 2;
      BitOfDouble(h, lo % 2, j);
      DivBound(lo, 2, p);
      if j > 0 {
        BitConcat(hi, lo / 2, k - 1, j - 1);
      }
    }
  }

  /** the bits of 2^k - 1: k ones */
  lemma {:induction false} BitMask(k: nat, j: nat)
    ensures Bit(Pow2(k) - 1, j) == if j < k then 1 else 0
  {
    if k == 0 {
      BitHigh(0, 0, j);
    } else {
      assert Pow2(k) - 1 == 2 * (Pow2(k - 1) - 1) + 1;
      BitOfDouble(Pow2(k - 1) - 1, 1, j);
      if j > 0 {
        BitMask(k - 1, j - 1);
      }
    }
  }

  /** 2^k - 1 when the fill bit is set, else 0 */
  function FillMask(k: nat, fill: bool): (r: nat)
    ensures r < Pow2(k)
  {
    if fill then Pow2(k) - 1 else 0
  }

  lemma FillMaskBit(k: nat, fill: bool, j: nat)
    ensures Bit(FillMask(k, fill), j) == if j < k then BoolBit(fill) else 0
  {
    if fill {
      BitMask(k, j);
    }
  }

  /** A t-bit register shifted k bits to the left, the k vacated low bits set to the fill bit,
      the bits pushed past t lost. */
  function ShlFill(v: nat, k: nat, fill: bool, t: nat): (r: nat)
    ensures r < Pow2(t)
  {
    (v * Pow2(k) + FillMask(k, fill)) % Pow2(t)
  }

  /** the number of low bits a k-bit right shift of a t-bit register keeps */
  function Kept(k: nat, t: nat): (r: nat)
    ensures r <= t
  {
    if k <= t then t - k else 0
  }

  /** A t-bit register shifted k bits to the right, the vacated high bits (all t of them
      when k >= t) set to the fill bit. */
  function ShrFill(v: nat, k: nat, fill: bool, t: nat): nat
  {
    HighFill(k, fill, t) + Shr(v, k)
  }

  /** x shifted k bits to the right */
  function Shr(x: nat, k: nat): nat
  {
    DivNat(x, Pow2(k));
    x / Pow2(k)
  }

  /** the top t - Kept(k, t) bits of a t-bit register set to the fill bit */
  function HighFill(k: nat, fill: bool, t: nat): nat
  {
    FillMask(t - Kept(k, t), fill) * Pow2(Kept(k, t))
  }

  /** a one-bit right shift with a zero fill halves the number */
  lemma ShrFillHalf(v: nat, t: nat)
    ensures ShrFill(v, 1, false, t) == v / 2
  {
    assert FillMask(t - Kept(1, t), false) == 0;
    assert Pow2(1) == 2;
  }

  /** The bits of a left shift: the fill bit below k, the shifted bits above. */
  lemma ShlFillBit(v: nat, k: nat, fill: bool, t: nat, j: nat)
    requires j < t
    ensures Bit(ShlFill(v, k, fill, t), j) == if j < k then BoolBit(fill) else Bit(v, j - k)
  {
    BitMod(v * Pow2(k) + FillMask(k, fill), t, j);
    BitConcat(v, FillMask(k, fill), k, j);
    FillMaskBit(k, fill, j);
  }

  lemma ShiftedBound(v: nat, k: nat, t: nat)
    requires v < Pow2(t)
    ensures Shr(v, k) < Pow2(Kept(k, t))
  {
    if k <= t {
      Pow2Add(k, t - k);
      assert v < Pow2(t - k) * Pow2(k);
      DivBound(v, Pow2(k), Pow2(t - k));
    } else {
      Pow2Le(t, k);
      SmallDivMod(v, Pow2(k));
    }
  }

  lemma ShrFillBound(v: nat, k: nat, fill: bool, t: nat)
    requires v < Pow2(t)
    ensures ShrFill(v, k, fill, t) < Pow2(t)
  {
    var s := Kept(k, t);
    var m, lo := FillMask(t - s, fill), Shr(v, k);
    ShiftedBound(v, k, t);
    assert lo < Pow2(s);
    ConcatBound(m, lo, Pow2(t - s), Pow2(s));
    Pow2Split(s, t);
    MulComm(Pow2(s), Pow2(t - s));
    assert ShrFill(v, k, fill, t) == m * Pow2(s) + lo;
  }

  /** The bits of a right shift: the shifted bits below t - k, the fill bit above. */
  lemma ShrFillBit(v: nat, k: nat, fill: bool, t: nat, j: nat)
    requires v < Pow2(t) && j < t
    ensures Bit(ShrFill(v, k, fill, t), j) == if j + k < t then Bit(v, j + k) else BoolBit(fill)
  {
    var s := Kept(k, t);
    var m, lo := FillMask(t - s, fill), Shr(v, k);
    ShiftedBound(v, k, t);
    assert ShrFill(v, k, fill, t) == m * Pow2(s) + lo;
    BitConcat(m, lo, s, j);
    if j < s {
      assert j + k < t;
      BitShr(v, k, j);
    } else {
      assert j + k >= t;
      FillMaskBit(t - s, fill, j - s);
    }
  }

  /** Two left shifts make one. */
  lemma ShlFillAdd(v: nat, a: nat, b: nat, fill: bool, t: nat)
    ensures ShlFill(ShlFill(v, a, fill, t), b, fill, t) == ShlFill(v, a + b, fill, t)
  {
    forall j | 0 <= j < t
      ensures Bit(ShlFill(ShlFill(v, a, fill, t), b, fill, t), j) == Bit(ShlFill(v, a + b, fill, t), j)
    {
      ShlFillBit(ShlFill(v, a, fill, t), b, fill, t, j);
      ShlFillBit(v, a + b, fill, t, j);
      if j >= b {
        ShlFillBit(v, a, fill, t, j - b);
      }
    }
    BitsEq(ShlFill(ShlFill(v, a, fill, t), b, fill, t), ShlFill(v, a + b, fill, t), t);
  }

  lemma ShrFillAddBit(v: nat, a: nat, b: nat, fill: bool, t: nat, j: nat)
    requires v < Pow2(t) && j < t
    ensures Bit(ShrFill(ShrFill(v, a, fill, t), b, fill, t), j) == Bit(ShrFill(v, a + b, fill, t), j)
  {
    var x := ShrFill(v, a, fill, t);
    ShrFillBound(v, a, fill, t);
    var y, z := ShrFill(x, b, fill, t), ShrFill(v, a + b, fill, t);
    var f := BoolBit(fill);
    ShrFillBit(x, b, fill, t, j);
    assert Bit(y, j) == if j + b < t then Bit(x, j + b) else f;
    ShrFillBit(v, a + b, fill, t, j);
    assert Bit(z, j) == if j + (a + b) < t then Bit(v, j + (a + b)) else f;
    if j + b < t {
      ShrFillBit(v, a, fill, t, j + b);
      assert Bit(x, j + b) == if j + b + a < t then Bit(v, j + b + a) else f;
      assert j + b + a == j + (a + b);
    }
  }

  /** Two right shifts make one. */
  lemma ShrFillAdd(v: nat, a: nat, b: nat, fill: bool, t: nat)
    requires v < Pow2(t)
    ensures ShrFill(ShrFill(v, a, fill, t), b, fill, t) == ShrFill(v, a + b, fill, t)
  {
    var x := ShrFill(v, a, fill, t);
    ShrFillBound(v, a, fill, t);
    var y, z := ShrFill(x, b, fill, t), ShrFill(v, a + b, fill, t);
    ShrFillBound(x, b, fill, t);
    ShrFillBound(v, a + b, fill, t);
    forall j | 0 <= j < t
      ensures Bit(y, j) == Bit(z, j)
    {
      ShrFillAddBit(v, a, b, fill, t, j);
    }
    BitsEq(y, z, t);
  }

  /** Shifting left by k and back right by k without fill keeps the low t - k bits. */
  lemma ShlThenShr(v: nat, k: nat, t: nat)
    requires k <= t
    ensures ShrFill(ShlFill(v, k, false, t), k, false, t) == v % Pow2(t - k)
  {
    var x := ShlFill(v, k, false, t);
    ShrFillBound(x, k, false, t);
    Pow2Le(t - k, t);
    forall j | 0 <= j < t
      ensures Bit(ShrFill(x, k, false, t), j) == Bit(v % Pow2(t - k), j)
    {
      ShrFillBit(x, k, false, t, j);
      if j + k < t {
        ShlFillBit(v, k, false, t, j + k);
        BitMod(v, t - k, j);
      } else {
        BitHigh(v % Pow2(t - k), t - k, j);
      }
    }
    BitsEq(ShrFill(x, k, false, t), v % Pow2(t - k), t);
  }

  /** k one-bit rotations through the carry to the left: the register and the last bit pushed out */
  function RclRepeat(v: nat, k: nat, fill: bool, t: nat): (nat, nat)
    requires t >= 1
  {
    if k == 0 then (v, 0)
    else
      var p := RclRepeat(v, k - 1, fill, t);
      (ShlFill(p.0, 1, fill, t), Bit(p.0, t - 1))
  }

  /** k one-bit rotations through the carry to the right */
  function RcrRepeat(v: nat, k: nat, fill: bool, t: nat): (nat, nat)
  {
    if k == 0 then (v, 0)
    else
      var p := RcrRepeat(v, k - 1, fill, t);
      (ShrFill(p.0, 1, fill, t), Bit(p.0, 0))
  }

  /** k one-bit left rotations are one k-bit shift, and the last bit out is bit t - k. */
  lemma {:induction false} RclRepeatIsShift(v: nat, k: nat, fill: bool, t: nat)
    requires v < Pow2(t) && 1 <= k <= t
    ensures RclRepeat(v, k, fill, t) == (ShlFill(v, k, fill, t), Bit(v, t - k))
  {
    if k == 1 {
      SmallDivMod(v, Pow2(t));
      assert ShlFill(v, 0, fill, t) == v;
    } else {
      RclRepeatIsShift(v, k - 1, fill, t);
      ShlFillAdd(v, k - 1, 1, fill, t);
      ShlFillBit(v, k - 1, fill, t, t - 1);
    }
  }

  /** k one-bit right rotations are one k-bit shift, and the last bit out is bit k - 1. */
  lemma {:induction false} RcrRepeatIsShift(v: nat, k: nat, fill: bool, t: nat)
    requires v < Pow2(t) && 1 <= k <= t
    ensures RcrRepeat(v, k, fill, t) == (ShrFill(v, k, fill, t), Bit(v, k - 1))
  {
    if k == 1 {
    } else {
      RcrRepeatIsShift(v, k - 1, fill, t);
      ShrFillAdd(v, k - 1, 1, fill, t);
      ShrFillBound(v, k - 1, fill, t);
      ShrFillBit(v, k - 1, fill, t, 0);
    }
  }

  /** bitwise AND of the low k bits */
  function And(a: nat, b: nat, k: nat): (r: nat)
    ensures r < Pow2(k)
  {
    if k == 0 then 0 else 2 * And(a / 2, b / 2, k - 1) + (a % 2) * (b % 2)
  }

  /** bitwise OR of the low k bits */
  function Or(a: nat, b: nat, k: nat): (r: nat)
    ensures r < Pow2(k)
  {
    if k == 0 then 0 else 2 * Or(a / 2, b / 2, k - 1) + (if a % 2 == 1 || b % 2 == 1 then 1 else 0)
  }

  /** bitwise exclusive OR of the low k bits */
  function Xor(a: nat, b: nat, k: nat): (r: nat)
    ensures r < Pow2(k)
  {
    if k == 0 then 0 else 2 * Xor(a / 2, b / 2, k - 1) + (a % 2 + b % 2) % 2
  }

  lemma {:induction false} AndBit(a: nat, b: nat, k: nat, j: nat)
    requires j < k
    ensures Bit(And(a, b, k), j) == Bit(a, j) * Bit(b, j)
  {
    BitOfDouble(And(a / 2, b / 2, k - 1), (a % 2) * (b % 2), j);
    if j > 0 {
      AndBit(a / 2, b / 2, k - 1, j - 1);
      BitHalf(a, j - 1);
      BitHalf(b, j - 1);
    }
  }

  lemma {:induction false} OrBit(a: nat, b: nat, k: nat, j: nat)
    requires j < k
    ensures Bit(Or(a, b, k), j) == if Bit(a, j) == 1 || Bit(b, j) == 1 then 1 else 0
  {
    BitOfDouble(Or(a / 2, b / 2, k - 1), if a % 2 == 1 || b % 2 == 1 then 1 else 0, j);
    if j > 0 {
      OrBit(a / 2, b / 2, k - 1, j - 1);
      BitHalf(a, j - 1);
      BitHalf(b, j - 1);
    }
  }

  lemma {:induction false} XorBit(a: nat, b: nat, k: nat, j: nat)
    requires j < k
    ensures Bit(Xor(a, b, k), j) == (Bit(a, j) + Bit(b, j)) % 2
  {
    BitOfDouble(Xor(a / 2, b / 2, k - 1), (a % 2 + b % 2) % 2, j);
    if j > 0 {
      XorBit(a / 2, b / 2, k - 1, j - 1);
      BitHalf(a, j - 1);
      BitHalf(b, j - 1);
    }
  }

  /** complementing a k-bit number flips each of its k bits */
  lemma {:induction false} NotBit(a: nat, k: nat, j: nat)
    requires a < Pow2(k) && j < k
    ensures Bit(Pow2(k) - 1 - a, j) == 1 - Bit(a, j)
  {
    var h := Pow2(k - 1) - 1 - a / 2;
    DivBound(a, 2, Pow2(k - 1));
    assert Pow2(k) - 1 - a == 2 * h + (1 - a % 2);
    BitOfDouble(h, 1 - a % 2, j);
    if j > 0 {
      NotBit(a / 2, k - 1, j - 1);
      BitHalf(a, j - 1);
    }
  }

  /** Setting a clear bit i adds 2^i and changes no other bit. */
  lemma SetBitBits(x: nat, i: nat, j: nat)
    requires Bit(x, i) == 0
    ensures Bit(x + Pow2(i), j) == if j == i then 1 else Bit(x, j)
  {
    var p := Pow2(i);
    DivNat(x, p);
    var q: nat, lo: nat := x / p, x % p;
    assert x + p == (q + 1) * p + lo by { MulDistrib(p, q, 1); }
    BitConcat(q, lo, i, j);
    BitConcat(q + 1, lo, i, j);
    if j >= i {
      BitDiv(x, i);
      var h := q / 2;
      assert q == 2 * h && q + 1 == 2 * h + 1;
      BitOfDouble(h, 0, j - i);
      BitOfDouble(h, 1, j - i);
    }
  }

  /** A right shift with a zero fill is a plain division by 2^k. */
  lemma ShrZeroFill(v: nat, k: nat, t: nat)
    ensures ShrFill(v, k, false, t) == v / Pow2(k)
  {
    assert FillMask(t - Kept(k, t), false) == 0;
  }
}
