/** Powers of two and the division facts that the word-level proofs rely on.
    Everything here is plain arithmetic on naturals; nothing models the source directly. */
module Arith {

  /** 2^k */
  function Pow2(k: nat): (r: nat)
    ensures r >= 1
  {
    if k == 0 then 1 else 2 * Pow2(k - 1)
  }

  lemma {:induction false} Pow2Add(a: nat, b: nat)
    ensures Pow2(a + b) == Pow2(a) * Pow2(b)
  {
    if a > 0 {
      Pow2Add(a - 1, b);
      assert Pow2(a + b) == 2 * Pow2(a - 1 + b);
    }
  }

  /** 2^b split at a */
  lemma {:induction false} Pow2Split(a: nat, b: nat)
    requires a <= b
    ensures Pow2(b) == Pow2(a) * Pow2(b - a)
  {
    if a > 0 {
      Pow2Split(a - 1, b - 1);
      var x, y := Pow2(a - 1), Pow2(b - a);
      assert Pow2(b) == 2 * (x * y);
      MulAssoc(2, x, y);
    }
  }

  lemma Pow2Le(a: nat, b: nat)
    requires a <= b
    ensures Pow2(a) <= Pow2(b)
    ensures Pow2(b) % Pow2(a) == 0
  {
    Pow2Split(a, b);
    var x, y := Pow2(a), Pow2(b - a);
    MulComm(x, y);
    MulMonotone(1, y, x);
    MulModZero(y, x);
  }

  lemma Pow2Lt(a: nat, b: nat)
    requires a < b
    ensures 2 * Pow2(a) <= Pow2(b)
  {
    Pow2Le(a + 1, b);
  }

  /** Division is unique: the quotient and remainder are determined by x == q * m + r. */
  lemma DivModUnique(x: int, m: int, q: int, r: int)
    requires m > 0 && 0 <= r < m && x == q * m + r
    ensures x / m == q && x % m == r
  {
    var q0, r0 := x / m, x % m;
    assert x == q0 * m + r0;
    if q > q0 {
      MulMonotone(1, q - q0, m);
      assert false;
    } else if q < q0 {
      MulMonotone(1, q0 - q, m);
      assert false;
    }
  }

  lemma MulComm(x: int, y: int)
    ensures x * y == y * x
  {
  }

  lemma MulAssoc(x: int, y: int, z: int)
    ensures x * (y * z) == (x * y) * z
  {
  }

  lemma MulDistrib(x: int, y: int, z: int)
    ensures x * (y + z) == x * y + x * z
    ensures (y + z) * x == y * x + z * x
  {
  }

  lemma MulMonotone(a: int, b: int, m: int)
    requires a <= b && m >= 0
    ensures a * m <= b * m
  {
  }

  lemma MulModZero(q: int, m: int)
    requires m > 0
    ensures (q * m) % m == 0 && (q * m) / m == q
  {
    DivModUnique(q * m, m, q, 0);
  }

  /** (q * m + r) / m == q and (q * m + r) % m == r for a remainder r < m */
  lemma DivModSplit(q: int, m: int, r: int)
    requires m > 0 && 0 <= r < m
    ensures (q * m + r) / m == q && (q * m + r) % m == r
  {
    DivModUnique(q * m + r, m, q, r);
  }

  /** Adding a multiple of m does not change the remainder. */
  lemma ModAddMultiple(x: int, k: int, m: int)
    requires m > 0
    ensures (x + k * m) % m == x % m
    ensures (x + k * m) / m == x / m + k
  {
    var q, r := x / m, x % m;
    assert x + k * m == (q + k) * m + r;
    DivModUnique(x + k * m, m, q + k, r);
  }

  /** x / a / b == x / (a * b), and the matching decomposition of the remainder. */
  lemma DivDiv(x: nat, a: nat, b: nat)
    requires a > 0 && b > 0
    ensures x / a / b == x / (a * b)
    ensures x % (a * b) == (x / a % b) * a + x % a
  {
    var q1, r1 := x / a, x % a;
    var q2, r2 := q1 / b, q1 % b;
    assert x == q2 * (a * b) + (r2 * a + r1) by {
      assert x == q1 * a + r1;
      assert q1 == q2 * b + r2;
      assert q1 * a == q2 * (a * b) + r2 * a;
    }
    assert r2 * a + r1 < a * b by {
      MulMonotone(r2, b - 1, a);
      assert (b - 1) * a == a * b - a;
    }
    DivModUnique(x, a * b, q2, r2 * a + r1);
  }

  /** Remainders modulo a * b reduced modulo a. */
  lemma ModMod(x: nat, a: nat, b: nat)
    requires a > 0 && b > 0
    ensures x % (a * b) % a == x % a
    ensures x % (a * b) / a == x / a % b
  {
    DivDiv(x, a, b);
    DivModSplit(x / a % b, a, x % a);
  }

  /** Multiplying by m and dividing by m cancel. */
  lemma MulDivCancel(x: nat, m: nat)
    requires m > 0
    ensures x * m / m == x
  {
    MulModZero(x, m);
  }

  /** (x % m) * k + y and x * k + y are congruent modulo m. */
  lemma ModOfMulAdd(x: int, k: int, y: int, m: int)
    requires m > 0
    ensures ((x % m) * k + y) % m == (x * k + y) % m
  {
    var q := x / m;
    assert x == q * m + x % m;
    assert x * k + y == ((x % m) * k + y) + (q * k) * m;
    ModAddMultiple((x % m) * k + y, q * k, m);
  }

  /** The remainder modulo 2^a of a remainder modulo 2^b, for a <= b. */
  lemma ModPow2Mod(x: nat, a: nat, b: nat)
    requires a <= b
    ensures x % Pow2(b) % Pow2(a) == x % Pow2(a)
  {
    Pow2Add(a, b - a);
    ModMod(x, Pow2(a), Pow2(b - a));
  }

  /** x / 2^a / 2^b == x / 2^(a + b) */
  lemma DivPow2Add(x: nat, a: nat, b: nat)
    ensures x / Pow2(a) / Pow2(b) == x / Pow2(a + b)
  {
    Pow2Add(a, b);
    DivDiv(x, Pow2(a), Pow2(b));
  }

  /** A value below m has quotient 0 and is its own remainder. */
  lemma SmallDivMod(x: nat, m: nat)
    requires x < m
    ensures x / m == 0 && x % m == x
  {
    DivModUnique(x, m, 0, x);
  }

  /** Division of a natural number by a positive one stays natural. */
  lemma DivNat(x: nat, m: nat)
    requires m > 0
    ensures x / m >= 0 && 0 <= x % m < m
    ensures x == x / m * m + x % m
  {
    DivLower(x, m, 0);
  }

  lemma DivBound(x: nat, m: nat, k: nat)
    requires m > 0 && x < k * m
    ensures x / m < k
  {
    var q := x / m;
    assert x == q * m + x % m;
    if q >= k {
      MulMonotone(k, q, m);
      assert false;
    }
  }

  lemma DivLower(x: nat, m: nat, k: nat)
    requires m > 0 && k * m <= x
    ensures k <= x / m
  {
    var q := x / m;
    assert x == q * m + x % m;
    if q < k {
      MulMonotone(q + 1, k, m);
      assert false;
    }
  }

  /** hi * m + lo stays below h * m when hi < h and lo < m */
  lemma ConcatBound(hi: nat, lo: nat, h: nat, m: nat)
    requires hi < h && lo < m
    ensures hi * m + lo < h * m
  {
    MulMonotone(hi + 1, h, m);
    MulDistrib(m, hi, 1);
  }

  lemma MulStrictBound(a: nat, b: nat, x: nat, y: nat)
    requires a < x && b < y
    ensures a * b < x * y
    ensures a * b <= (x - 1) * (y - 1)
  {
    MulMonotone(a, x - 1, b);
    MulMonotone(b, y - 1, x - 1);
    assert (x - 1) * (y - 1) < x * y;
  }

  /** m * a < m * b gives a < b */
  lemma MulLessCancel(a: nat, b: nat, m: nat)
    requires m * a < m * b
    ensures a < b
  {
    if a >= b {
      MulMonotone(b, a, m);
      MulComm(a, m);
      MulComm(b, m);
    }
  }

  lemma ModLe(x: nat, m: nat)
    requires m > 0
    ensures x % m <= x
  {
    if x >= m {
      DivNat(x, m);
      DivLower(x, m, 1);
      MulMonotone(1, x / m, m);
    } else {
      SmallDivMod(x, m);
    }
  }

  /** A quotient by a positive number is at most the dividend. */
  lemma DivLe(x: nat, m: nat)
    requires m > 0
    ensures x / m <= x
  {
    DivNat(x, m);
    MulMonotone(1, m, x / m);
  }

  /** a shift by no bits */
  lemma MulPow2Zero(x: nat)
    ensures x * Pow2(0) == x
  {
  }
}
