/** The arithmetic behind the division loops: dividing a word vector by one word from the
    top word down, and the bit-by-bit (radix 2) long division. */
module LongDiv {
  import opened Arith
  import opened Words
  import opened Bits
  import opened Vec
  import opened Mult
  import opened Bitwise

  /** One step of schoolbook division by a word: the running remainder r of the high part H,
      with the next word di below it, divides into the next quotient word q and remainder r2. */
  lemma LongDivStep(H: nat, di: nat, r: nat, q: nat, r2: nat, d: nat, B: nat)
    requires d > 0 && r == H % d && r * B + di == q * d + r2 && r2 < d
    ensures (di + B * H) / d == B * (H / d) + q
    ensures (di + B * H) % d == r2
  {
    var Q := H / d;
    DivNat(H, d);
    assert B * H == B * Q * d + B * r by {
      MulDistrib(B, Q * d, r);
      MulAssoc(B, Q, d);
    }
    assert di + B * H == (B * Q + q) * d + r2 by {
      MulDistrib(d, B * Q, q);
    }
    DivModUnique(di + B * H, d, B * Q + q, r2);
  }

  /** The same step over the words of a dividend d: word i joins the words above it. The
      quotient so far, kept at words i + 1 and up, gains word q at position i. */
  lemma DivIntStep(d: seq<nat>, i: nat, r: nat, q: nat, r2: nat, dv: nat, w: nat)
    requires i < |d| && dv > 0 && r == Val(d[i + 1..], w) % dv
    requires r * Pow2(w) + d[i] == q * dv + r2 && r2 < dv
    ensures Val(d[i..], w) % dv == r2
    ensures (Val(d[i + 1..], w) / dv) * WPow(w, i + 1) + q * WPow(w, i)
         == (Val(d[i..], w) / dv) * WPow(w, i)
  {
    var B, H, P := Pow2(w), Val(d[i + 1..], w), WPow(w, i);
    ValSuffix(d, i, w);
    LongDivStep(H, d[i], r, q, r2, dv, B);
    var Q := H / dv;
    assert WPow(w, i + 1) == B * P;
    assert Q * (B * P) == (B * Q) * P by {
      MulAssoc(Q, B, P);
      MulComm(Q, B);
    }
    MulDistrib(P, B * Q, q);
  }

  /** The high words of a dividend from the highest nonzero word up denote zero. */
  lemma ZeroTop(d: seq<nat>, i: nat, w: nat)
    requires i <= |d| && forall j :: i <= j < |d| ==> d[j] == 0
    ensures Val(d[i..], w) == 0
  {
    ValZero(d[i..], w);
  }

  /** The quotient of the top i bits of a t-bit x by d: the quotient bits the radix-2
      division has produced after i steps. */
  function TopQuot(x: nat, d: nat, t: nat, i: nat): nat
    requires d > 0 && i <= t
  {
    Shr(x, t - i) / d
  }

  /** The remainder of the top i bits of a t-bit x by d: the partial remainder after i
      steps. */
  function TopRem(x: nat, d: nat, t: nat, i: nat): nat
    requires d > 0 && i <= t
  {
    Shr(x, t - i) % d
  }

  /** One more bit of the dividend: the doubled partial remainder s with the next bit
      either reaches d (quotient bit 1, remainder s - d) or not (quotient bit 0,
      remainder s), and the quotient doubles and takes that bit. */
  lemma Div1Recurrence(x: nat, d: nat, t: nat, i: nat)
    requires d > 0 && i < t
    ensures var s := 2 * TopRem(x, d, t, i) + Bit(x, t - 1 - i);
      && TopQuot(x, d, t, i + 1) == 2 * TopQuot(x, d, t, i) + (if s >= d then 1 else 0)
      && TopQuot(x, d, t, i + 1) / 2 == TopQuot(x, d, t, i)
      && TopQuot(x, d, t, i + 1) % 2 == (if s >= d then 1 else 0)
      && TopRem(x, d, t, i + 1) == (if s >= d then s - d else s)
  {
    var H, b := Shr(x, t - i), Bit(x, t - 1 - i);
    ShrStepBit(x, t - 1 - i);
    assert Shr(x, t - (i + 1)) == 2 * H + b;
    DivNat(H, d);
    var Q, R := H / d, H % d;
    var s := 2 * R + b;
    var q := if s >= d then 1 else 0;
    assert 2 * H + b == (2 * Q + q) * d + (s - q * d) by {
      MulDistrib(d, 2 * Q, q);
      MulAssoc(2, Q, d);
    }
    DivModUnique(2 * H + b, d, 2 * Q + q, s - q * d);
    DivModUnique(2 * Q + q, 2, Q, q);
  }

  /** The dividend register of the radix-2 division after i steps holds the t - i bits of
      x not yet used, moved to the top, above the quotient bits found so far but the last,
      which waits in the carry c. Shifting in c moves every part one bit up and pushes out
      the next dividend bit. */
  lemma Div1Shift(x: nat, d: nat, t: nat, i: nat, v: nat, c: nat)
    requires d > 0 && i < t && x < Pow2(t)
    requires v == (x % Pow2(t - i)) * Pow2(i) + TopQuot(x, d, t, i) / 2
    requires c == TopQuot(x, d, t, i) % 2
    ensures Bit(v, t - 1) == Bit(x, t - 1 - i)
    ensures ShlFill(v, 1, c != 0, t)
         == (x % Pow2(t - (i + 1))) * Pow2(i + 1) + TopQuot(x, d, t, i + 1) / 2
  {
    var k := t - i;
    var Q := TopQuot(x, d, t, i);
    var lo := x % Pow2(k - 1);
    assert Q < Pow2(i) by {
      Pow2Add(k, i);
      MulComm(Pow2(k), Pow2(i));
      DivBound(x, Pow2(k), Pow2(i));
      DivNat(Shr(x, k), d);
      MulMonotone(1, d, Q);
    }
    RegisterSplit(x, k, i, Q);
    assert k - 1 + i == t - 1 && t - 1 - i == k - 1 && t - (i + 1) == k - 1;
    assert lo * Pow2(i) >= 0 by { MulMonotone(0, lo, Pow2(i)); }
    var L := lo * Pow2(i) + Q / 2;
    ShiftOutTop(Bit(x, k - 1), L, c, t);
    assert TopQuot(x, d, t, i + 1) / 2 == Q by { Div1Recurrence(x, d, t, i); }
    QuotientBitIn(lo, Pow2(i), Q, TopQuot(x, d, t, i + 1), c);
  }

  /** Doubling the register part lo * p + q / 2 and shifting in the bit c = q % 2 gives
      lo * 2p + q, where q is q1 / 2. */
  lemma QuotientBitIn(lo: nat, p: nat, q: nat, q1: nat, c: nat)
    requires q1 / 2 == q && c == q % 2
    ensures 2 * (lo * p + q / 2) + c == lo * (2 * p) + q1 / 2
  {
    DivNat(q, 2);
    MulAssoc(lo, 2, p);
    MulComm(lo, 2);
  }

  /** The register (x mod 2^k) * 2^i + q / 2, for q below 2^i, is bit k - 1 of x at the
      top bit k - 1 + i above the rest. */
  lemma RegisterSplit(x: nat, k: nat, i: nat, q: nat)
    requires k >= 1 && q < Pow2(i)
    ensures (x % Pow2(k)) * Pow2(i) + q / 2
         == Bit(x, k - 1) * Pow2(k - 1 + i) + ((x % Pow2(k - 1)) * Pow2(i) + q / 2)
    ensures (x % Pow2(k - 1)) * Pow2(i) + q / 2 < Pow2(k - 1 + i)
  {
    TopBitSplit(x, k);
    Pow2Add(k - 1, i);
    DivNat(x, Pow2(k - 1));
    RegisterArith(x % Pow2(k), Bit(x, k - 1), x % Pow2(k - 1), Pow2(k - 1), Pow2(i),
      Pow2(k - 1 + i), q / 2);
  }

  /** x mod 2^k is bit k - 1 of x at 2^(k-1) above x mod 2^(k-1). */
  lemma TopBitSplit(x: nat, k: nat)
    requires k >= 1
    ensures x % Pow2(k) == Bit(x, k - 1) * Pow2(k - 1) + x % Pow2(k - 1)
  {
    DivDiv(x, Pow2(k - 1), 2);
    BitDiv(x, k - 1);
    MulComm(Bit(x, k - 1), Pow2(k - 1));
  }

  /** The arithmetic of RegisterSplit, on plain numbers. */
  lemma RegisterArith(r: int, b: int, lo: int, Pk: int, P: int, PkP: int, h: int)
    requires r == b * Pk + lo && PkP == Pk * P && 0 <= lo < Pk && 0 <= h < P
    ensures r * P + h == b * PkP + (lo * P + h)
    ensures lo * P + h < PkP
  {
    MulDistrib(P, b * Pk, lo);
    MulAssoc(b, Pk, P);
    MulMonotone(lo, Pk - 1, P);
    MulDistrib(P, Pk - 1, 1);
  }

  /** A t-bit register b * 2^(t-1) + L, L below 2^(t-1), shifted one bit left with c coming
      in: bit b leaves at the top and 2L + c remains. */
  lemma ShiftOutTop(b: nat, L: nat, c: nat, t: nat)
    requires t >= 1 && b <= 1 && c <= 1 && L < Pow2(t - 1)
    ensures Bit(b * Pow2(t - 1) + L, t - 1) == b
    ensures ShlFill(b * Pow2(t - 1) + L, 1, c != 0, t) == 2 * L + c
  {
    assert Pow2(t) == 2 * Pow2(t - 1);
    TopBit(b * Pow2(t - 1) + L, t);
    assert FillMask(1, c != 0) == c;
    DivModSplit(b, Pow2(t), 2 * L + c);
  }

  /** A step from a partial remainder r held as it is: rest + rest + bit (carry c1 out of
      the t-bit register) minus d (borrow out). The carry and the borrow agree exactly when
      the doubled remainder reaches d; the register then holds the new remainder, and
      otherwise the new remainder minus d, modulo 2^t. In every reachable positive state c1
      is 0 (Div1PositiveNoCarry), so the quotient bit is the negated borrow, as the library
      computes it. */
  lemma Div1PositiveStep(r: nat, b: nat, d: nat, cap: nat, r1: nat, c1: nat, r2: nat, borrow: nat)
    requires r < d < cap && b <= 1 && c1 <= 1 && borrow <= 1 && r1 < cap && r2 < cap
    requires r1 + c1 * cap == 2 * r + b
    requires r2 + d == r1 + borrow * cap
    ensures c1 == borrow <==> 2 * r + b >= d
    ensures c1 == borrow ==> r2 == 2 * r + b - d
    ensures c1 != borrow ==> r2 == 2 * r + b + cap - d
  {
    if c1 == 0 {
      if borrow == 0 {
      } else {
      }
    } else {
      if borrow == 0 {
      } else {
      }
    }
  }

  /** A step from a negative partial remainder r - d, held as r + 2^t - d: rest + rest +
      bit (carry c1) plus d (carry c2). Both carries are set exactly when the doubled
      remainder reaches d; the register then holds the new remainder, and otherwise the new
      remainder minus d, modulo 2^t. The library keeps only c2, which is wrong whenever
      c1 is 0 and c2 is 1 (see Div1AsWrittenWrong). */
  lemma Div1NegativeStep(r: nat, b: nat, d: nat, cap: nat, r1: nat, c1: nat, r2: nat, c2: nat)
    requires r < d < cap && b <= 1 && c1 <= 1 && c2 <= 1 && r1 < cap && r2 < cap
    requires r1 + c1 * cap == 2 * (r + cap - d) + b
    requires r2 + c2 * cap == r1 + d
    ensures c1 == 1 && c2 == 1 <==> 2 * r + b >= d
    ensures c1 == 1 && c2 == 1 ==> r2 == 2 * r + b - d
    ensures !(c1 == 1 && c2 == 1) ==> r2 == 2 * r + b + cap - d
  {
    if c1 == 0 {
      if c2 == 0 {
      } else {
      }
    } else {
      if c2 == 0 {
      } else {
      }
    }
  }

  /** In the positive mode the doubled remainder never leaves the t-bit register: after
      i < t steps the partial remainder is at most the top i bits of x, so 2R + 1 is
      below 2^t, and the carry the library passes to the subtraction is 0. */
  lemma Div1PositiveNoCarry(x: nat, d: nat, t: nat, i: nat)
    requires d > 0 && x < Pow2(t) && i < t
    ensures 2 * TopRem(x, d, t, i) + 1 < Pow2(t)
  {
    var s := Shr(x, t - i);
    Pow2Split(t - i, t);
    MulComm(Pow2(t - i), Pow2(i));
    DivBound(x, Pow2(t - i), Pow2(i));
    ModLe(s, d);
    Pow2Lt(i, t);
  }

  /** The state of the radix-2 division after i of t steps: the register v holds the
      unused bits of x at the top and the quotient bits found so far but the last, which
      is the carry c; the remainder register r holds the partial remainder, less d modulo
      2^t when the last step found a zero bit. */
  ghost predicate Div1Invariant(v: nat, c: nat, r: nat, positive: bool, x: nat, d: nat, t: nat, i: nat)
    requires d > 0 && i <= t
  {
    && v == (x % Pow2(t - i)) * Pow2(i) + TopQuot(x, d, t, i) / 2
    && c == TopQuot(x, d, t, i) % 2
    && (positive <==> i == 0 || c == 1)
    && r == TopRem(x, d, t, i) + (if positive then 0 else Pow2(t) - d)
  }

  /** Before the first step: the register holds x, no quotient bit and no remainder yet. */
  lemma Div1Start(x: nat, d: nat, t: nat)
    requires d > 0 && x < Pow2(t)
    ensures Div1Invariant(x, 0, 0, true, x, d, t, 0)
  {
    SmallDivMod(x, Pow2(t));
    SmallDivMod(0, d);
    assert Shr(x, t - 0) == 0;
    assert TopQuot(x, d, t, 0) == 0 && TopRem(x, d, t, 0) == 0;
    MulPow2Zero(x % Pow2(t));
  }

  /** After the last step the final shift moves the last quotient bit in: the register
      holds x / d, and the partial remainder is x % d, which the remainder register holds
      as it is or less d modulo 2^t. */
  lemma Div1Finish(x: nat, d: nat, t: nat, v: nat, c: nat, r: nat, positive: bool)
    requires d > 0 && x < Pow2(t) && Div1Invariant(v, c, r, positive, x, d, t, t)
    ensures ShlFill(v, 1, c != 0, t) == x / d
    ensures r == x % d + (if positive then 0 else Pow2(t) - d)
  {
    var Q := TopQuot(x, d, t, t);
    assert Shr(x, 0) == x;
    DivNat(x, d);
    MulMonotone(1, d, Q);
    DivNat(Q, 2);
    assert FillMask(1, c != 0) == c;
    SmallDivMod(Q, Pow2(t));
  }

  /** Div1_Calculate as the library writes it, on t-bit registers: the dividend register
      x, the remainder register rest, the flag c and the mode. In the positive mode the
      carry out of rest + rest + c goes into the subtraction of the divisor as a borrow
      and c becomes the negated borrow (that carry is 0 in every reachable positive
      state); in the negative mode the carry of rest + rest + c is overwritten, and c is
      the carry of rest + divisor alone. Gives the final (quotient, remainder) registers. */
  function Div1AsWritten(x: int, d: int, t: nat): (int, int)
  {
    Div1AsWrittenLoop(Div1Regs(x, 0, 0, true), t, d, Pow2(t))
  }

  /** The registers of Div1AsWritten: dividend, remainder, flag c and mode. */
  datatype Div1Regs = Div1Regs(x: int, rest: int, c: int, positive: bool)

  /** One pass of the loop of Div1AsWritten on registers below cap: each addition wraps
      around once at most, and its carry is whether it did. */
  function Div1AsWrittenStep(g: Div1Regs, d: int, cap: int): Div1Regs
  {
    var sx := 2 * g.x + g.c;
    var x1 := if sx >= cap then sx - cap else sx;
    var top := if 2 * g.x >= cap then 1 else 0;
    var s := 2 * g.rest + top;
    var c1 := if s >= cap then 1 else 0;
    var r1 := if s >= cap then s - cap else s;
    var diff := if g.positive then r1 - d - c1 else r1 + d;
    var r2 := if g.positive then (if diff < 0 then diff + cap else diff)
              else if diff >= cap then diff - cap else diff;
    var c2 := if g.positive then (if diff < 0 then 0 else 1) else if diff >= cap then 1 else 0;
    Div1Regs(x1, r2, c2, c2 == 1)
  }

  /** The loop of Div1AsWritten with `loop` passes to go, then the final shift of the
      dividend register and, in the negative mode, the divisor added back. */
  function Div1AsWrittenLoop(g: Div1Regs, loop: nat, d: int, cap: int): (int, int)
    decreases loop
  {
    if loop == 0 then
      var sx := 2 * g.x + g.c;
      (if sx >= cap then sx - cap else sx,
       if g.positive then g.rest else if g.rest + d >= cap then g.rest + d - cap else g.rest + d)
    else
      Div1AsWrittenLoop(Div1AsWrittenStep(g, d, cap), loop - 1, d, cap)
  }

  /** With 32-bit registers (a one-word UInt), 4294967295 / 4294967294 comes out as
      quotient 0x55555555 and remainder 0xAAAAAAA9 instead of 1 and 1. The first wrong
      pass is the second one, in the negative mode: rest holds 3, that is R = 1 less d
      modulo 2^32; rest + rest + 1 = 7 does not carry, but 7 + d does, and the library
      takes that carry alone for the quotient bit and returns to the positive mode,
      although 2R + 1 = 3 is below d. Only a divisor above 2^31 lets rest + d carry
      without rest + rest carrying first. */
  lemma Div1AsWrittenWrong(x: int, d: int)
    requires x == 4294967295 && d == 4294967294
    ensures Div1AsWritten(x, d, 32) == (0x5555_5555, 0xAAAA_AAA9)
    ensures x / d == 1 && x % d == 1
  {
    assert Pow2(32) == 4294967296 by {
      Pow2Add(16, 16);
      assert Pow2(16) == 65536 by { Pow2Add(8, 8); assert Pow2(8) == 256; }
    }
    Div1AsWrittenFirstPasses(d);
    Div1AsWrittenSecondPasses(d);
    Div1AsWrittenThirdPasses(d);
    Div1AsWrittenLastPasses(d);
    assert Div1AsWrittenLoop(Div1Regs(715827882, 2863311529, 1, true), 0, d, 4294967296) == (0x5555_5555, 0xAAAA_AAA9);
  }

  /** Passes 1 to 8 of Div1AsWrittenWrong. */
  lemma Div1AsWrittenFirstPasses(d: int)
    requires d == 4294967294
    ensures Div1AsWrittenLoop(Div1Regs(4294967295, 0, 0, true), 32, d, 4294967296)
         == Div1AsWrittenLoop(Div1Regs(4294967082, 425, 1, true), 24, d, 4294967296)
  {
    assert Div1AsWrittenStep(Div1Regs(4294967295, 0, 0, true), d, 4294967296) == Div1Regs(4294967294, 3, 0, false);
    assert Div1AsWrittenLoop(Div1Regs(4294967295, 0, 0, true), 32, d, 4294967296) == Div1AsWrittenLoop(Div1Regs(4294967294, 3, 0, false), 31, d, 4294967296);
    assert Div1AsWrittenStep(Div1Regs(4294967294, 3, 0, false), d, 4294967296) == Div1Regs(4294967292, 5, 1, true);
    assert Div1AsWrittenLoop(Div1Regs(4294967294, 3, 0, false), 31, d, 4294967296) == Div1AsWrittenLoop(Div1Regs(4294967292, 5, 1, true), 30, d, 4294967296);
    assert Div1AsWrittenStep(Div1Regs(4294967292, 5, 1, true), d, 4294967296) == Div1Regs(4294967289, 13, 0, false);
    assert Div1AsWrittenLoop(Div1Regs(4294967292, 5, 1, true), 30, d, 4294967296) == Div1AsWrittenLoop(Div1Regs(4294967289, 13, 0, false), 29, d, 4294967296);
    assert Div1AsWrittenStep(Div1Regs(4294967289, 13, 0, false), d, 4294967296) == Div1Regs(4294967282, 25, 1, true);
    assert Div1AsWrittenLoop(Div1Regs(4294967289, 13, 0, false), 29, d, 4294967296) == Div1AsWrittenLoop(Div1Regs(4294967282, 25, 1, true), 28, d, 4294967296);
    assert Div1AsWrittenStep(Div1Regs(4294967282, 25, 1, true), d, 4294967296) == Div1Regs(4294967269, 53, 0, false);
    assert Div1AsWrittenLoop(Div1Regs(4294967282, 25, 1, true), 28, d, 4294967296) == Div1AsWrittenLoop(Div1Regs(4294967269, 53, 0, false), 27, d, 4294967296);
    assert Div1AsWrittenStep(Div1Regs(4294967269, 53, 0, false), d, 4294967296) == Div1Regs(4294967242, 105, 1, true);
    assert Div1AsWrittenLoop(Div1Regs(4294967269, 53, 0, false), 27, d, 4294967296) == Div1AsWrittenLoop(Div1Regs(4294967242, 105, 1, true), 26, d, 4294967296);
    assert Div1AsWrittenStep(Div1Regs(4294967242, 105, 1, true), d, 4294967296) == Div1Regs(4294967189, 213, 0, false);
    assert Div1AsWrittenLoop(Div1Regs(4294967242, 105, 1, true), 26, d, 4294967296) == Div1AsWrittenLoop(Div1Regs(4294967189, 213, 0, false), 25, d, 4294967296);
    assert Div1AsWrittenStep(Div1Regs(4294967189, 213, 0, false), d, 4294967296) == Div1Regs(4294967082, 425, 1, true);
    assert Div1AsWrittenLoop(Div1Regs(4294967189, 213, 0, false), 25, d, 4294967296) == Div1AsWrittenLoop(Div1Regs(4294967082, 425, 1, true), 24, d, 4294967296);
  }

  /** Passes 9 to 16 of Div1AsWrittenWrong. */
  lemma Div1AsWrittenSecondPasses(d: int)
    requires d == 4294967294
    ensures Div1AsWrittenLoop(Div1Regs(4294967082, 425, 1, true), 24, d, 4294967296)
         == Div1AsWrittenLoop(Div1Regs(4294912682, 109225, 1, true), 16, d, 4294967296)
  {
    assert Div1AsWrittenStep(Div1Regs(4294967082, 425, 1, true), d, 4294967296) == Div1Regs(4294966869, 853, 0, false);
    assert Div1AsWrittenLoop(Div1Regs(4294967082, 425, 1, true), 24, d, 4294967296) == Div1AsWrittenLoop(Div1Regs(4294966869, 853, 0, false), 23, d, 4294967296);
    assert Div1AsWrittenStep(Div1Regs(4294966869, 853, 0, false), d, 4294967296) == Div1Regs(4294966442, 1705, 1, true);
    assert Div1AsWrittenLoop(Div1Regs(4294966869, 853, 0, false), 23, d, 4294967296) == Div1AsWrittenLoop(Div1Regs(4294966442, 1705, 1, true), 22, d, 4294967296);
    assert Div1AsWrittenStep(Div1Regs(4294966442, 1705, 1, true), d, 4294967296) == Div1Regs(4294965589, 3413, 0, false);
    assert Div1AsWrittenLoop(Div1Regs(4294966442, 1705, 1, true), 22, d, 4294967296) == Div1AsWrittenLoop(Div1Regs(4294965589, 3413, 0, false), 21, d, 4294967296);
    assert Div1AsWrittenStep(Div1Regs(4294965589, 3413, 0, false), d, 4294967296) == Div1Regs(4294963882, 6825, 1, true);
    assert Div1AsWrittenLoop(Div1Regs(4294965589, 3413, 0, false), 21, d, 4294967296) == Div1AsWrittenLoop(Div1Regs(4294963882, 6825, 1, true), 20, d, 4294967296);
    assert Div1AsWrittenStep(Div1Regs(4294963882, 6825, 1, true), d, 4294967296) == Div1Regs(4294960469, 13653, 0, false);
    assert Div1AsWrittenLoop(Div1Regs(4294963882, 6825, 1, true), 20, d, 4294967296) == Div1AsWrittenLoop(Div1Regs(4294960469, 13653, 0, false), 19, d, 4294967296);
    assert Div1AsWrittenStep(Div1Regs(4294960469, 13653, 0, false), d, 4294967296) == Div1Regs(4294953642, 27305, 1, true);
    assert Div1AsWrittenLoop(Div1Regs(4294960469, 13653, 0, false), 19, d, 4294967296) == Div1AsWrittenLoop(Div1Regs(4294953642, 27305, 1, true), 18, d, 4294967296);
    assert Div1AsWrittenStep(Div1Regs(4294953642, 27305, 1, true), d, 4294967296) == Div1Regs(4294939989, 54613, 0, false);
    assert Div1AsWrittenLoop(Div1Regs(4294953642, 27305, 1, true), 18, d, 4294967296) == Div1AsWrittenLoop(Div1Regs(4294939989, 54613, 0, false), 17, d, 4294967296);
    assert Div1AsWrittenStep(Div1Regs(4294939989, 54613, 0, false), d, 4294967296) == Div1Regs(4294912682, 109225, 1, true);
    assert Div1AsWrittenLoop(Div1Regs(4294939989, 54613, 0, false), 17, d, 4294967296) == Div1AsWrittenLoop(Div1Regs(4294912682, 109225, 1, true), 16, d, 4294967296);
  }

  /** Passes 17 to 24 of Div1AsWrittenWrong. */
  lemma Div1AsWrittenThirdPasses(d: int)
    requires d == 4294967294
    ensures Div1AsWrittenLoop(Div1Regs(4294912682, 109225, 1, true), 16, d, 4294967296)
         == Div1AsWrittenLoop(Div1Regs(4280986282, 27962025, 1, true), 8, d, 4294967296)
  {
    assert Div1AsWrittenStep(Div1Regs(4294912682, 109225, 1, true), d, 4294967296) == Div1Regs(4294858069, 218453, 0, false);
    assert Div1AsWrittenLoop(Div1Regs(4294912682, 109225, 1, true), 16, d, 4294967296) == Div1AsWrittenLoop(Div1Regs(4294858069, 218453, 0, false), 15, d, 4294967296);
    assert Div1AsWrittenStep(Div1Regs(4294858069, 218453, 0, false), d, 4294967296) == Div1Regs(4294748842, 436905, 1, true);
    assert Div1AsWrittenLoop(Div1Regs(4294858069, 218453, 0, false), 15, d, 4294967296) == Div1AsWrittenLoop(Div1Regs(4294748842, 436905, 1, true), 14, d, 4294967296);
    assert Div1AsWrittenStep(Div1Regs(4294748842, 436905, 1, true), d, 4294967296) == Div1Regs(4294530389, 873813, 0, false);
    assert Div1AsWrittenLoop(Div1Regs(4294748842, 436905, 1, true), 14, d, 4294967296) == Div1AsWrittenLoop(Div1Regs(4294530389, 873813, 0, false), 13, d, 4294967296);
    assert Div1AsWrittenStep(Div1Regs(4294530389, 873813, 0, false), d, 4294967296) == Div1Regs(4294093482, 1747625, 1, true);
    assert Div1AsWrittenLoop(Div1Regs(4294530389, 873813, 0, false), 13, d, 4294967296) == Div1AsWrittenLoop(Div1Regs(4294093482, 1747625, 1, true), 12, d, 4294967296);
    assert Div1AsWrittenStep(Div1Regs(4294093482, 1747625, 1, true), d, 4294967296) == Div1Regs(4293219669, 3495253, 0, false);
    assert Div1AsWrittenLoop(Div1Regs(4294093482, 1747625, 1, true), 12, d, 4294967296) == Div1AsWrittenLoop(Div1Regs(4293219669, 3495253, 0, false), 11, d, 4294967296);
    assert Div1AsWrittenStep(Div1Regs(4293219669, 3495253, 0, false), d, 4294967296) == Div1Regs(4291472042, 6990505, 1, true);
    assert Div1AsWrittenLoop(Div1Regs(4293219669, 3495253, 0, false), 11, d, 4294967296) == Div1AsWrittenLoop(Div1Regs(4291472042, 6990505, 1, true), 10, d, 4294967296);
    assert Div1AsWrittenStep(Div1Regs(4291472042, 6990505, 1, true), d, 4294967296) == Div1Regs(4287976789, 13981013, 0, false);
    assert Div1AsWrittenLoop(Div1Regs(4291472042, 6990505, 1, true), 10, d, 4294967296) == Div1AsWrittenLoop(Div1Regs(4287976789, 13981013, 0, false), 9, d, 4294967296);
    assert Div1AsWrittenStep(Div1Regs(4287976789, 13981013, 0, false), d, 4294967296) == Div1Regs(4280986282, 27962025, 1, true);
    assert Div1AsWrittenLoop(Div1Regs(4287976789, 13981013, 0, false), 9, d, 4294967296) == Div1AsWrittenLoop(Div1Regs(4280986282, 27962025, 1, true), 8, d, 4294967296);
  }

  /** Passes 25 to 32 of Div1AsWrittenWrong. */
  lemma Div1AsWrittenLastPasses(d: int)
    requires d == 4294967294
    ensures Div1AsWrittenLoop(Div1Regs(4280986282, 27962025, 1, true), 8, d, 4294967296)
         == Div1AsWrittenLoop(Div1Regs(715827882, 2863311529, 1, true), 0, d, 4294967296)
  {
    assert Div1AsWrittenStep(Div1Regs(4280986282, 27962025, 1, true), d, 4294967296) == Div1Regs(4267005269, 55924053, 0, false);
    assert Div1AsWrittenLoop(Div1Regs(4280986282, 27962025, 1, true), 8, d, 4294967296) == Div1AsWrittenLoop(Div1Regs(4267005269, 55924053, 0, false), 7, d, 4294967296);
    assert Div1AsWrittenStep(Div1Regs(4267005269, 55924053, 0, false), d, 4294967296) == Div1Regs(4239043242, 111848105, 1, true);
    assert Div1AsWrittenLoop(Div1Regs(4267005269, 55924053, 0, false), 7, d, 4294967296) == Div1AsWrittenLoop(Div1Regs(4239043242, 111848105, 1, true), 6, d, 4294967296);
    assert Div1AsWrittenStep(Div1Regs(4239043242, 111848105, 1, true), d, 4294967296) == Div1Regs(4183119189, 223696213, 0, false);
    assert Div1AsWrittenLoop(Div1Regs(4239043242, 111848105, 1, true), 6, d, 4294967296) == Div1AsWrittenLoop(Div1Regs(4183119189, 223696213, 0, false), 5, d, 4294967296);
    assert Div1AsWrittenStep(Div1Regs(4183119189, 223696213, 0, false), d, 4294967296) == Div1Regs(4071271082, 447392425, 1, true);
    assert Div1AsWrittenLoop(Div1Regs(4183119189, 223696213, 0, false), 5, d, 4294967296) == Div1AsWrittenLoop(Div1Regs(4071271082, 447392425, 1, true), 4, d, 4294967296);
    assert Div1AsWrittenStep(Div1Regs(4071271082, 447392425, 1, true), d, 4294967296) == Div1Regs(3847574869, 894784853, 0, false);
    assert Div1AsWrittenLoop(Div1Regs(4071271082, 447392425, 1, true), 4, d, 4294967296) == Div1AsWrittenLoop(Div1Regs(3847574869, 894784853, 0, false), 3, d, 4294967296);
    assert Div1AsWrittenStep(Div1Regs(3847574869, 894784853, 0, false), d, 4294967296) == Div1Regs(3400182442, 1789569705, 1, true);
    assert Div1AsWrittenLoop(Div1Regs(3847574869, 894784853, 0, false), 3, d, 4294967296) == Div1AsWrittenLoop(Div1Regs(3400182442, 1789569705, 1, true), 2, d, 4294967296);
    assert Div1AsWrittenStep(Div1Regs(3400182442, 1789569705, 1, true), d, 4294967296) == Div1Regs(2505397589, 3579139413, 0, false);
    assert Div1AsWrittenLoop(Div1Regs(3400182442, 1789569705, 1, true), 2, d, 4294967296) == Div1AsWrittenLoop(Div1Regs(2505397589, 3579139413, 0, false), 1, d, 4294967296);
    assert Div1AsWrittenStep(Div1Regs(2505397589, 3579139413, 0, false), d, 4294967296) == Div1Regs(715827882, 2863311529, 1, true);
    assert Div1AsWrittenLoop(Div1Regs(2505397589, 3579139413, 0, false), 1, d, 4294967296) == Div1AsWrittenLoop(Div1Regs(715827882, 2863311529, 1, true), 0, d, 4294967296);
  }

  /** The divisor d, with leading bit j, moved up to the leading bit i of x > d: the
      shifted divisor has leading bit i, and it or its half is the largest d * 2^k not
      above x, with x below twice it. */
  lemma Div2Window(x: nat, d: nat, i: nat, j: nat, k: nat)
    requires Pow2(i) <= x < Pow2(i + 1) && Pow2(j) <= d < Pow2(j + 1) && j <= i && x > d
    requires k == i - j
    ensures Pow2(i) <= d * Pow2(k) < Pow2(i + 1)
    ensures x >= d * Pow2(k) ==> x < 2 * (d * Pow2(k))
    ensures x < d * Pow2(k) ==> k >= 1 && (d * Pow2(k)) / 2 == d * Pow2(k - 1)
    ensures x < d * Pow2(k) ==> d * Pow2(k - 1) <= x < 2 * (d * Pow2(k - 1))
  {
    var P := Pow2(k);
    assert Pow2(i) == Pow2(j) * P by { Pow2Add(j, k); }
    assert Pow2(i + 1) == Pow2(j + 1) * P by { Pow2Add(j + 1, k); }
    MulMonotone(Pow2(j), d, P);
    MulStrictBound(d, P, Pow2(j + 1), P + 1);
    assert d * P < Pow2(j + 1) * P by {
      MulMonotone(d + 1, Pow2(j + 1), P);
      MulDistrib(P, d, 1);
    }
    if x < d * P {
      assert k >= 1;
      assert P == 2 * Pow2(k - 1);
      assert d * P == 2 * (d * Pow2(k - 1)) by {
        MulAssoc(d, 2, Pow2(k - 1));
        MulComm(d, 2);
        MulAssoc(2, d, Pow2(k - 1));
      }
    }
  }

  /** The step of the recursive division: with d * 2^k <= x < 2 * d * 2^k, the rest
      x - d * 2^k divides by d to a quotient below 2^k, so x / d is that quotient with bit
      k set, and the remainders agree. */
  lemma Div2Combine(x: nat, d: nat, k: nat)
    requires d > 0 && d * Pow2(k) <= x < 2 * (d * Pow2(k))
    ensures (x - d * Pow2(k)) / d < Pow2(k)
    ensures x / d == Pow2(k) + (x - d * Pow2(k)) / d
    ensures x % d == (x - d * Pow2(k)) % d
  {
    var P := Pow2(k);
    var y := x - d * P;
    DivNat(y, d);
    var q, r := y / d, y % d;
    assert q < P by {
      MulComm(q, d);
      MulLessCancel(q, P, d);
    }
    MulDistrib(d, P, q);
    MulComm(d, P + q);
    DivModUnique(x, d, P + q, r);
  }
}
