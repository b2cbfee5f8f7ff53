/** Digits and text in bases 2 to 16 (ttmath/ttmathuint.h:1955-2026, 2337-2430): the
    character-to-digit maps, the digit string ToString produces, the value of the digit run
    FromString reads, and the white space it skips. Characters are Dafny chars; the
    library's tchar_t is a char or a wchar_t. */
module Text {
  import opened Arith

  /** The value of '0'..'9', 'a'..'z' or 'A'..'Z' (10 onwards for the letters), or -1 for
      any other character; a value that is not below b is -1 as well. */
  function CharToDigit(c: char, b: nat): (r: int)
    ensures -1 <= r && (r >= 0 ==> r < b && r < 36)
    ensures r >= 0 ==> IsAlnum(c)
  {
    var v := if '0' <= c <= '9' then c as int - '0' as int
      else if 'a' <= c <= 'z' then c as int - 'a' as int + 10
      else if 'A' <= c <= 'Z' then c as int - 'A' as int + 10
      else -1;
    if v == -1 || v >= b then -1 else v
  }

  predicate IsAlnum(c: char)
  {
    '0' <= c <= '9' || 'a' <= c <= 'z' || 'A' <= c <= 'Z'
  }

  /** The one-argument CharToDigit, which does not check its character: digits and small
      letters as above, everything else as a capital letter, c - 'A' + 10 in w-bit
      unsigned arithmetic (so it wraps below 'A' - 10). On the characters CharToDigit
      accepts in base 36 the two agree once a word holds 8 bits. */
  function CharToDigitUnchecked(c: char, w: nat): (r: nat)
    ensures r < Pow2(w) || c as int >= Pow2(w)
    ensures w >= 8 && CharToDigit(c, 36) >= 0 ==> r == CharToDigit(c, 36)
  {
    if '0' <= c <= '9' then c as int - '0' as int
    else if 'a' <= c <= 'z' then c as int - 'a' as int + 10
    else
      var v := c as int - 'A' as int + 10;
      FitsInWord(v, w);
      v % Pow2(w)
  }

  /** A number below 64 is its own w-bit residue once w >= 8. */
  lemma FitsInWord(v: int, w: nat)
    ensures 0 <= v < 64 && w >= 8 ==> v % Pow2(w) == v
  {
    if 0 <= v < 64 && w >= 8 {
      Pow2Le(6, w);
      assert Pow2(6) == 64;
      SmallDivMod(v, Pow2(w));
    }
  }

  /** A digit 0..15 as '0'..'9' or 'A'..'F'. */
  function DigitToChar(d: nat): (c: char)
    requires d < 16
  {
    if d < 10 then (d + '0' as int) as char else (d - 10 + 'A' as int) as char
  }

  /** the capital form of a small letter; every other character unchanged */
  function Upper(c: char): char
  {
    if 'a' <= c <= 'z' then (c as int - 'a' as int + 'A' as int) as char else c
  }

  /** DigitToChar and CharToDigit are inverse on digits below the base. */
  lemma DigitRoundTrip(d: nat, b: nat)
    requires d < b <= 16
    ensures CharToDigit(DigitToChar(d), b) == d
    ensures '0' <= DigitToChar(d) <= '9' || 'A' <= DigitToChar(d) <= 'F'
  {
  }

  /** A digit character read back through DigitToChar is its capital form: the two cases
      of a letter give the same digit. */
  lemma CharRoundTrip(c: char, b: nat)
    requires b <= 16 && CharToDigit(c, b) >= 0
    ensures DigitToChar(CharToDigit(c, b)) == Upper(c)
    ensures CharToDigit(Upper(c), b) == CharToDigit(c, b)
  {
  }

  /** Below 'A' - 10 the unchecked map wraps: ' ' (32) gives 2^w - 23. */
  lemma UncheckedWraps(c: char, w: nat)
    requires c == ' ' && w >= 8
    ensures CharToDigitUnchecked(c, w) == Pow2(w) - 23
  {
    assert c as int - 'A' as int + 10 == -23;
    Pow2Le(5, w);
    assert Pow2(5) == 32;
    DivModUnique(-23, Pow2(w), -1, Pow2(w) - 23);
  }

  /** The string ToString makes of x in base b: the digits most significant first, with
      no leading zero, and "0" for zero. */
  function ToDigits(x: nat, b: nat): (s: string)
    requires 2 <= b <= 16
    decreases x
  {
    if x < b then [DigitToChar(x)] else ToDigits(x / b, b) + [DigitToChar(x % b)]
  }

  /** every character of s is a digit below b */
  ghost predicate AllDigits(s: string, b: nat)
  {
    forall i :: 0 <= i < |s| ==> CharToDigit(s[i], b) >= 0
  }

  /** The value of a run of digits below b, most significant first, as FromString
      accumulates it: value * b + digit for each character. */
  function DigitsValue(s: string, b: nat): nat
    requires AllDigits(s, b)
  {
    if |s| == 0 then 0 else DigitsValue(s[..|s| - 1], b) * b + CharToDigit(s[|s| - 1], b)
  }

  /** The shape of what ToString produces: capital digits below b, at least one, and no
      leading zero unless x is zero, which gives "0". */
  lemma {:induction false} ToDigitsShape(x: nat, b: nat)
    requires 2 <= b <= 16
    ensures var s := ToDigits(x, b);
      |s| >= 1 && AllDigits(s, b) && (s[0] == '0' <==> x == 0) && (x == 0 ==> s == "0")
      && forall i :: 0 <= i < |s| ==> '0' <= s[i] <= '9' || 'A' <= s[i] <= 'F'
    decreases x
  {
    if x < b {
      DigitRoundTrip(x, b);
    } else {
      var q, r := x / b, x % b;
      QuotientPositive(x, b);
      ToDigitsShape(q, b);
      DigitRoundTrip(r, b);
      var t := ToDigits(q, b);
      assert ToDigits(x, b) == t + [DigitToChar(r)];
    }
  }

  /** x >= b > 0 gives 1 <= x / b < x and x % b < b */
  lemma QuotientPositive(x: nat, b: nat)
    requires 2 <= b <= x
    ensures 1 <= x / b < x && x % b < b && x == x / b * b + x % b
  {
    DivNat(x, b);
    var q: int, r: int := x / b, x % b;
    if q == 0 {
      assert false;
    }
    MulMonotone(2, b, q);
  }

  /** The digits ToString produces denote x. */
  lemma {:induction false} ToDigitsValue(x: nat, b: nat)
    requires 2 <= b <= 16
    ensures AllDigits(ToDigits(x, b), b) && DigitsValue(ToDigits(x, b), b) == x
    decreases x
  {
    ToDigitsShape(x, b);
    var s := ToDigits(x, b);
    if x < b {
      DigitRoundTrip(x, b);
      assert s[..0] == "";
    } else {
      var q, r := x / b, x % b;
      QuotientPositive(x, b);
      ToDigitsValue(q, b);
      var t := ToDigits(q, b);
      DigitRoundTrip(r, b);
      assert s == t + [DigitToChar(r)];
      assert s[..|s| - 1] == t;
      assert DigitsValue(s, b) == DigitsValue(t, b) * b + r;
    }
  }

  /** One more digit of a run: the value of s[st..i + 1] is the value of s[st..i] times b
      plus the digit, so appending a digit does not lower the value and a carry FromString
      has reported stays right. */
  lemma DigitsExtend(s: string, st: nat, i: nat, b: nat)
    requires st <= i < |s| && b >= 1 && AllDigits(s[st..i], b) && CharToDigit(s[i], b) != -1
    ensures AllDigits(s[st..i + 1], b)
    ensures DigitsValue(s[st..i + 1], b) == DigitsValue(s[st..i], b) * b + CharToDigit(s[i], b)
    ensures DigitsValue(s[st..i + 1], b) >= DigitsValue(s[st..i], b)
  {
    var u, p := s[st..i + 1], s[st..i];
    assert u == p + [s[i]];
    forall k | 0 <= k < |u|
      ensures CharToDigit(u[k], b) >= 0
    {
      if k < |p| {
        assert u[k] == p[k];
      }
    }
    assert u[..|u| - 1] == p;
    var v: int := DigitsValue(p, b);
    MulMonotone(1, b, v);
    assert DigitsValue(u, b) == v * b + CharToDigit(s[i], b);
  }

  /** ' ', '\t', carriage return (13) and '\n' */
  predicate IsWhite(c: char)
  {
    c == ' ' || c == '\t' || c == 13 as char || c == '\n'
  }

  /** the first index at or after i that is not white space, or |s| */
  function SkipWhite(s: string, i: nat): (j: nat)
    requires i <= |s|
    ensures i <= j <= |s| && (j < |s| ==> !IsWhite(s[j]))
    ensures forall k :: i <= k < j ==> IsWhite(s[k])
    decreases |s| - i
  {
    if i < |s| && IsWhite(s[i]) then SkipWhite(s, i + 1) else i
  }

  /** the end of the longest run of digits below b that starts at i */
  function DigitRunEnd(s: string, i: nat, b: nat): (j: nat)
    requires i <= |s|
    ensures i <= j <= |s| && AllDigits(s[i..j], b)
    ensures j < |s| ==> CharToDigit(s[j], b) == -1
    decreases |s| - i
  {
    if i < |s| && CharToDigit(s[i], b) != -1 then
      var j := DigitRunEnd(s, i + 1, b);
      assert forall k :: 0 <= k < j - i ==> s[i..j][k] == if k == 0 then s[i] else s[i + 1..j][k - 1];
      j
    else i
  }

  /** A run of digits from st that stops at i, at the end or at a non-digit, is the
      longest run: DigitRunEnd characterised by its two properties. */
  lemma {:induction false} RunEndsAt(s: string, st: nat, i: nat, b: nat)
    requires st <= i <= |s| && AllDigits(s[st..i], b)
    requires i == |s| || CharToDigit(s[i], b) == -1
    ensures DigitRunEnd(s, st, b) == i
    decreases i - st
  {
    if st < i {
      assert s[st..i][0] == s[st];
      var t, u := s[st + 1..i], s[st..i];
      forall k | 0 <= k < |t|
        ensures CharToDigit(t[k], b) >= 0
      {
        assert t[k] == u[k + 1];
      }
      RunEndsAt(s, st + 1, i, b);
    }
  }

  /** What FromString reads back from ToString's output: it starts at once, consumes every
      character, and the digits denote x. */
  lemma ToDigitsReadBack(x: nat, b: nat)
    requires 2 <= b <= 16
    ensures var s := ToDigits(x, b);
      SkipWhite(s, 0) == 0 && DigitRunEnd(s, 0, b) == |s| && DigitsValue(s[0..|s|], b) == x
  {
    var s := ToDigits(x, b);
    ToDigitsShape(x, b);
    ToDigitsValue(x, b);
    assert !IsWhite(s[0]);
    RunOfDigits(s, 0, b);
    assert s[0..|s|] == s;
  }

  lemma {:induction false} RunOfDigits(s: string, i: nat, b: nat)
    requires i <= |s| && AllDigits(s, b)
    ensures DigitRunEnd(s, i, b) == |s|
    decreases |s| - i
  {
    if i < |s| {
      RunOfDigits(s, i + 1, b);
    }
  }

  /** The example of the documentation: "12foo" in base 10 reads as 12 and stops at 'f'. */
  lemma StopsAtNonDigit(s: string, b: nat)
    requires s == "12foo" && b == 10
    ensures DigitRunEnd(s, 0, b) == 2 && DigitsValue(s[0..2], b) == 12
  {
    assert CharToDigit(s[2], b) == -1;
    assert DigitRunEnd(s, 2, b) == 2;
    assert CharToDigit(s[1], b) == 2 && CharToDigit(s[0], b) == 1;
    assert DigitRunEnd(s, 1, b) == 2;
    var t := s[0..2];
    assert t[..1] == [s[0]] && t[..1][..0] == [];
    assert DigitsValue(t[..1], b) == 1;
    assert t[..|t| - 1] == t[..1];
  }
}
