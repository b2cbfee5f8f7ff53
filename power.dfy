/** Natural powers, and the square-and-multiply loop of UInt::Pow as the library writes
    it (ttmath/ttmathuint.h:1831-1866): the registers are the running result, the running
    square `start` and the exponent still to be consumed; cap is 2^(value_size * W). */
module Powers {
  import opened Arith

  /** x^n; 0^0 is 1 here, the library refuses it before the loop */
  function Power(x: nat, n: nat): nat
  {
    if n == 0 then 1 else x * Power(x, n - 1)
  }

  lemma {:induction false} PowerAdd(x: nat, a: nat, b: nat)
    ensures Power(x, a + b) == Power(x, a) * Power(x, b)
  {
    if a > 0 {
      PowerAdd(x, a - 1, b);
      MulAssoc(x, Power(x, a - 1), Power(x, b));
    }
  }

  /** x^(2k) == (x * x)^k */
  lemma {:induction false} PowerOfSquare(x: nat, k: nat)
    ensures Power(x, 2 * k) == Power(x * x, k)
  {
    if k > 0 {
      PowerOfSquare(x, k - 1);
      var sq: int := x * x;
      assert Power(x, 2) == sq by {
        assert Power(x, 1) == x;
      }
      assert Power(x, 2 * k) == sq * Power(x, 2 * (k - 1)) by {
        PowerAdd(x, 2, 2 * (k - 1));
        assert 2 + 2 * (k - 1) == 2 * k;
      }
      assert Power(sq, k) == sq * Power(sq, k - 1);
    }
  }

  /** One pass of the loop consumes the lowest bit of the exponent:
      x^n == x^(n % 2) * (x * x)^(n / 2). */
  lemma PowerHalving(x: nat, n: nat)
    ensures Power(x, n) == (if n % 2 == 1 then x else 1) * Power(x * x, n / 2)
  {
    PowerOfSquare(x, n / 2);
    if n % 2 == 1 {
      assert n == 2 * (n / 2) + 1;
      PowerAdd(x, 1, 2 * (n / 2));
    } else {
      assert n == 2 * (n / 2);
    }
  }

  /** a positive base: y <= y^k for k >= 1, and 1 <= y^k */
  lemma {:induction false} PowerAtLeastBase(y: nat, k: nat)
    requires y >= 1
    ensures Power(y, k) >= 1
    ensures k >= 1 ==> Power(y, k) >= y
  {
    if k > 0 {
      PowerAtLeastBase(y, k - 1);
      MulMonotone(1, Power(y, k - 1), y);
    }
  }

  /** An invariant-preserving pass: with r * s^n == T and n >= 1, multiplying r by s when
      the low bit is set and squaring s keeps the product at T. */
  lemma PowStep(r: nat, s: nat, n: nat, T: nat)
    requires n >= 1 && r * Power(s, n) == T
    ensures (if n % 2 == 1 then r * s else r) * Power(s * s, n / 2) == T
  {
    PowerHalving(s, n);
    var Q := Power(s * s, n / 2);
    if n % 2 == 1 {
      MulAssoc(r, s, Q);
    }
  }

  /** An overflow of r * s on an odd exponent means r * s^n overflows too. */
  lemma ProductOverflowPersists(r: nat, s: nat, n: nat, cap: nat)
    requires n % 2 == 1 && r * s >= cap >= 1
    ensures r * Power(s, n) >= cap
  {
    assert s >= 1;
    PowerHalving(s, n);
    var Q := Power(s * s, n / 2);
    PowerAtLeastBase(s * s, n / 2);
    MulAssoc(r, s, Q);
    MulMonotone(1, Q, r * s);
  }

  /** An overflow of the square s * s while exponent bits remain means r * (s * s)^k
      overflows, as long as r is not zero. */
  lemma SquareOverflowPersists(r: nat, s: nat, k: nat, cap: nat)
    requires k >= 1 && r >= 1 && s * s >= cap >= 1
    ensures r * Power(s * s, k) >= cap
  {
    PowerAtLeastBase(s * s, k);
    MulMonotone(1, r, Power(s * s, k));
  }

  /** The loop of Pow as written: (status, result) where status 1 reports a carry. The
      square is taken, and its overflow reported, after every pass, also the last one. */
  function PowLoopAsWritten(result: nat, start: nat, p: nat, cap: nat): (nat, nat)
    decreases p
  {
    if p == 0 then (0, result)
    else if p % 2 == 1 && result * start >= cap then (1, result)
    else
      var r := if p % 2 == 1 then result * start else result;
      if start * start >= cap then (1, r) else PowLoopAsWritten(r, start * start, p / 2, cap)
  }

  /** Pow as written: status 2 for 0^0, otherwise the loop from result = 1. */
  function PowAsWritten(x: nat, p: nat, cap: nat): (nat, nat)
  {
    if x == 0 && p == 0 then (2, x) else PowLoopAsWritten(1, x, p, cap)
  }

  /** What the written loop gets right: a result it reports without a carry is the exact
      power and fits, so a power that does not fit is always reported. */
  lemma {:induction false} PowLoopAsWrittenSound(result: nat, start: nat, p: nat, cap: nat)
    requires result < cap
    ensures PowLoopAsWritten(result, start, p, cap).0 <= 1
    ensures PowLoopAsWritten(result, start, p, cap).0 == 0 ==>
      PowLoopAsWritten(result, start, p, cap).1 == result * Power(start, p) < cap
    decreases p
  {
    if p > 0 && !(p % 2 == 1 && result * start >= cap) {
      var r := if p % 2 == 1 then result * start else result;
      if start * start < cap {
        PowLoopAsWrittenSound(r, start * start, p / 2, cap);
        PowStep(result, start, p, result * Power(start, p));
      }
    }
  }

  lemma PowAsWrittenSound(x: nat, p: nat, cap: nat)
    requires 1 < cap
    ensures PowAsWritten(x, p, cap).0 == 2 <==> x == 0 && p == 0
    ensures PowAsWritten(x, p, cap).0 == 0 ==> PowAsWritten(x, p, cap).1 == Power(x, p) < cap
    ensures Power(x, p) >= cap ==> PowAsWritten(x, p, cap).0 == 1
  {
    if !(x == 0 && p == 0) {
      PowLoopAsWrittenSound(1, x, p, cap);
    }
  }

  /** What it gets wrong: x^1 is reported as a carry whenever x * x does not fit, although
      x^1 == x fits. */
  lemma PowAsWrittenSpuriousCarry(x: nat, cap: nat)
    requires x < cap <= x * x
    ensures PowAsWritten(x, 1, cap) == (1, x)
    ensures Power(x, 1) == x < cap
  {
    assert 1 * x == x;
  }
}
