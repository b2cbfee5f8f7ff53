/** The fixed-width unsigned integer UInt<value_size> of ttmath: `size` machine words of
    `w` bits, least significant word first. Each method updates the word array in place,
    as the library does, and states the new value against the number the words denote. */
module TTMath {
  import opened Arith
  import opened Words
  import opened Bits
  import opened WordOps
  import opened Vec
  import opened Shifts
  import opened Bitwise
  import opened Mult
  import opened LongDiv
  import opened Knuth
  import opened Powers
  import opened Text

  class UInt {
    /** TTMATH_BITS_PER_UINT: 32 or 64 */
    const w: nat
    /** value_size: the number of words */
    const size: nat
    /** the words, table[0] the least significant */
    const table: array<nat>

    /** The platforms use words of 32 or 64 bits; the proofs hold for any word width of at
        least 8 bits. */
    ghost predicate Valid()
      reads table
    {
      w >= 8 && size >= 1 && table.Length == size && IsWords(table[..], w)
    }

    /** the number the words denote */
    ghost function Value(): nat
      reads table
    {
      Val(table[..], w)
    }

    /** the number of bits, value_size * TTMATH_BITS_PER_UINT */
    function Width(): nat
    {
      w * size
    }

    /** 2^Width(): one more than the largest value */
    ghost function Cap(): nat
    {
      WPow(w, size)
    }

    /** TTMATH_UINT_MAX_VALUE */
    function MaxWord(): nat
    {
      Pow2(w) - 1
    }

    /** A zero of `size` words of `w` bits. */
    constructor (w: nat, size: nat)
      requires w >= 8 && size >= 1
      ensures Valid() && this.w == w && this.size == size && fresh(table)
      ensures Value() == 0 && forall i :: 0 <= i < size ==> table[i] == 0
    {
      this.w := w;
      this.size := size;
      table := new nat[size](_ => 0);
      new;
      assert forall i :: 0 <= i < size ==> table[..][i] == 0;
      ValZero(table[..], w);
    }

    /** the copy constructor */
    constructor Copy(p: UInt)
      requires p.Valid()
      ensures Valid() && w == p.w && size == p.size && fresh(table)
      ensures table[..] == p.table[..] && Value() == p.Value()
    {
      w := p.w;
      size := p.size;
      table := new nat[p.size](i requires 0 <= i < p.size reads p.table => p.table[i]);
      new;
      assert table[..] == p.table[..];
    }

    /** operator=: the words of p, which has the same width */
    method Assign(p: UInt)
      requires Valid() && p.Valid() && p.w == w && p.size == size
      modifies table
      ensures Valid() && table[..] == old(p.table[..]) && Value() == old(p.Value())
    {
      ghost var src := p.table[..];
      var i := 0;
      while i < size
        invariant 0 <= i <= size
        invariant forall j :: 0 <= j < i ==> table[j] == src[j]
        invariant forall j :: i <= j < size ==> p.table[j] == src[j]
      {
        table[i] := p.table[i];
        i := i + 1;
      }
      assert table[..] == src;
    }

    /** Conversion from a UInt of another number of words: the low words of p, zeros
        above them; returns 1 when p does not fit, and then the value is p modulo
        2^Width(). p may be this object. */
    method FromUInt(p: UInt) returns (carry: nat)
      requires Valid() && p.Valid() && p.w == w
      modifies table
      ensures Valid() && carry <= 1
      ensures Value() == old(p.Value()) % Cap()
      ensures carry == 1 <==> old(p.Value()) >= Cap()
    {
      ghost var src, P := p.table[..], p.Value();
      var minSize := if size < p.size then size else p.size;
      var i := 0;
      while i < minSize
        invariant i <= minSize
        invariant forall j :: 0 <= j < i ==> table[j] == src[j]
        invariant forall j :: i <= j < p.size ==> p.table[j] == src[j]
        invariant IsWords(table[..], w)
      {
        table[i] := p.table[i];
        i := i + 1;
      }
      if size > p.size {
        while i < size
          invariant minSize <= i <= size
          invariant forall j :: 0 <= j < minSize ==> table[j] == src[j]
          invariant forall j :: minSize <= j < i ==> table[j] == 0
          invariant IsWords(table[..], w)
        {
          table[i] := 0;
          i := i + 1;
        }
        assert table[..][..p.size] == src;
        ValHighZero(table[..], p.size, w);
        ValBound(src, w);
        WPowLe(w, p.size, size);
        SmallDivMod(P, Cap());
        carry := 0;
      } else {
        assert table[..] == src[..size];
        LowWords(src, size, P, w);
        while i < p.size
          invariant size <= i <= p.size
          invariant forall j :: size <= j < i ==> src[j] == 0
        {
          if p.table[i] != 0 {
            return 1;
          }
          i := i + 1;
        }
        carry := 0;
      }
    }

    /** Conversion from one word: value in the lowest word, zeros above. */
    method FromUIntWord(value: nat)
      requires Valid() && value < Pow2(w)
      modifies table
      ensures Valid() && Value() == value
    {
      var i := 1;
      while i < size
        invariant 1 <= i <= size
        invariant forall j :: 1 <= j < i ==> table[j] == 0
        invariant IsWords(table[..], w)
      {
        table[i] := 0;
        i := i + 1;
      }
      table[0] := value;
      assert table[..][..1] == [value];
      ValHighZero(table[..], 1, w);
      ValSingle(value, w);
    }

    /** The words SetFromTable copies from a table given most significant word first:
        word size - 1 - k of this takes temp[k]; words below the copied ones are zero. */
    ghost function Mantissa(temp: seq<nat>): (m: seq<nat>)
      ensures |m| == size
    {
      seq(size, i requires 0 <= i < size => if size - 1 - i < |temp| then temp[size - 1 - i] else 0)
    }

    /** Whether SetFromTable rounds the lowest word up: a word of temp is left over, its top
        bit (TTMATH_UINT_HIGHEST_BIT) is set, and the lowest copied word is not all ones. */
    ghost predicate RoundsUp(temp: seq<nat>)
    {
      size >= 1 && w >= 1 && |temp| > size && temp[size] >= Pow2(w - 1) && temp[size - 1] != Pow2(w) - 1
    }

    /** The 32-bit SetFromTable: the leading words of temp (most significant first) fill
        this from the top; the lowest word is rounded up by the top bit of the first word
        left over, unless it is all ones; words below the copied ones are cleared. */
    method SetFromTable(temp: seq<nat>)
      requires Valid() && IsWords(temp, w)
      modifies table
      ensures Valid()
      ensures table[..] == if RoundsUp(temp) then Mantissa(temp)[0 := temp[size - 1] + 1] else Mantissa(temp)
      ensures Value() == Val(Mantissa(temp), w) + (if RoundsUp(temp) then 1 else 0)
    {
      var k := 0;
      var i: int := size - 1;
      while i >= 0 && k < |temp|
        invariant -1 <= i < size && k == size - 1 - i && k <= |temp|
        invariant forall j :: i < j < size ==> table[j] == temp[size - 1 - j]
        invariant IsWords(table[..], w)
      {
        table[i] := temp[k];
        i := i - 1;
        k := k + 1;
      }
      if k < |temp| {
        if temp[k] >= Pow2(w - 1) {
          if table[0] != MaxWord() {
            table[0] := table[0] + 1;
          }
        }
      }
      while i >= 0
        invariant -1 <= i < size
        invariant forall j :: i < j < size - k ==> table[j] == 0
        invariant forall j :: size - k <= j < size && j > 0 ==> table[j] == temp[size - 1 - j]
        invariant size - k > 0 || table[0] == (if RoundsUp(temp) then temp[size - 1] + 1 else temp[size - 1])
        invariant IsWords(table[..], w)
      {
        table[i] := 0;
        i := i - 1;
      }
      ghost var m := Mantissa(temp);
      if RoundsUp(temp) {
        assert table[..] == m[0 := temp[size - 1] + 1];
        ValUpdate(m, 0, temp[size - 1] + 1, w);
        assert WPow(w, 0) == 1;
      } else {
        assert table[..] == m;
      }
    }

    method SetZero()
      requires Valid()
      modifies table
      ensures Valid() && Value() == 0
      ensures forall j :: 0 <= j < size ==> table[j] == 0
    {
      var i := 0;
      while i < size
        invariant 0 <= i <= size
        invariant forall j :: 0 <= j < i ==> table[j] == 0
        invariant IsWords(table[..], w)
      {
        table[i] := 0;
        i := i + 1;
      }
      ValZero(table[..], w);
    }

    method SetOne()
      requires Valid()
      modifies table
      ensures Valid() && Value() == 1
    {
      SetZero();
      ghost var z := table[..];
      table[0] := 1;
      assert table[..] == z[0 := 1];
      ValUpdate(z, 0, 1, w);
    }

    /** all bits set: the largest value */
    method SetMax()
      requires Valid()
      modifies table
      ensures Valid() && Value() == Cap() - 1
    {
      var i := 0;
      while i < size
        invariant 0 <= i <= size
        invariant forall j :: 0 <= j < i ==> table[j] == MaxWord()
        invariant IsWords(table[..], w)
      {
        table[i] := MaxWord();
        i := i + 1;
      }
      ValAllOnes(table[..], w);
    }

    /** the smallest value, zero */
    method SetMin()
      requires Valid()
      modifies table
      ensures Valid() && Value() == 0
    {
      SetZero();
    }

    /** this = this + ss2 + c, modulo 2^Width(); a nonzero c counts as one; returns the
        carry out of the top word. ss2 may be this object. */
    method Add(ss2: UInt, c: nat) returns (carry: nat)
      requires Valid() && ss2.Valid() && ss2.w == w && ss2.size == size
      modifies table
      ensures Valid() && carry <= 1
      ensures Value() + carry * Cap() == old(Value()) + old(ss2.Value()) + BoolBit(c != 0)
      ensures carry == 1 <==> old(Value()) + old(ss2.Value()) + BoolBit(c != 0) >= Cap()
    {
      ghost var a, b := table[..], ss2.table[..];
      ghost var c0 := BoolBit(c != 0);
      var B: nat := Pow2(w);
      carry := if c != 0 then 1 else 0;
      var i := 0;
      while i < size
        invariant 0 <= i <= size && carry <= 1
        invariant IsWords(table[..], w)
        invariant forall j :: i <= j < size ==> ss2.table[j] == b[j]
        invariant Val(table[..], w) + carry * WPow(w, i) == Val(a, w) + Val(b[..i], w) + c0
      {
        ghost var t := table[..];
        var s: nat := table[i] + ss2.table[i] + carry;
        var nw: nat, cout: nat := if s < B then s else s - B, if s < B then 0 else 1;
        AddLoopStep(t, a, b, i, c0, carry, nw, cout, w);
        WordsUpdate(t, i, nw, w);
        table[i] := nw;
        assert table[..] == t[i := nw];
        carry := cout;
        i := i + 1;
      }
      assert b[..size] == b;
      ValBound(table[..], w);
      CarryOut(Val(table[..], w), carry, Cap(), Val(a, w) + Val(b, w) + c0);
    }

    /** this = this + value * 2^(w * index), modulo 2^Width(); returns the carry out of
        the top word. The words below index do not change. The value is a word; the model
        also admits 2^w, a word plus an incoming carry, which AddTwoInts passes on. */
    method AddInt(value: nat, index: nat) returns (carry: nat)
      requires Valid() && value <= Pow2(w) && index < size
      modifies table
      ensures Valid() && carry <= 1
      ensures Value() + carry * Cap() == old(Value()) + value * WPow(w, index)
      ensures carry == 1 <==> old(Value()) + value * WPow(w, index) >= Cap()
      ensures forall j :: 0 <= j < index ==> table[j] == old(table[j])
    {
      ghost var a := table[..];
      var B: nat := Pow2(w);
      var i: nat, v: nat := index, value;
      while i < size && v != 0
        invariant index <= i <= size && v <= B
        invariant i > index ==> v <= 1
        invariant IsWords(table[..], w)
        invariant forall j :: 0 <= j < index ==> table[j] == a[j]
        invariant Val(table[..], w) + v * WPow(w, i) == Val(a, w) + value * WPow(w, index)
        decreases size - i
      {
        ghost var t := table[..];
        var s: nat := table[i] + v;
        var nw: nat, cout: nat := if s < B then s else s - B, if s < B then 0 else 1;
        PendingStep(t, i, v, nw, cout, w);
        WordsUpdate(t, i, nw, w);
        table[i] := nw;
        assert table[..] == t[i := nw];
        v := cout;
        i := i + 1;
      }
      carry := v;
      ValBound(table[..], w);
      CarryOut(Val(table[..], w), carry, Cap(), Val(a, w) + value * WPow(w, index));
    }

    /** Adds x1 at word index and x2 at word index + 1, that is
        this = this + (x2 * 2^w + x1) * 2^(w * index), modulo 2^Width(); returns the carry.
        The words below index do not change. */
    method AddTwoInts(x2: nat, x1: nat, index: nat) returns (carry: nat)
      requires Valid() && x1 < Pow2(w) && x2 < Pow2(w) && index + 1 < size
      modifies table
      ensures Valid() && carry <= 1
      ensures Value() + carry * Cap() == old(Value()) + x1 * WPow(w, index) + x2 * WPow(w, index + 1)
      ensures carry == 1 <==> old(Value()) + x1 * WPow(w, index) + x2 * WPow(w, index + 1) >= Cap()
      ensures forall j :: 0 <= j < index ==> table[j] == old(table[j])
    {
      ghost var a := table[..];
      ghost var sum := Val(a, w) + x1 * WPow(w, index) + x2 * WPow(w, index + 1);
      var B: nat := Pow2(w);
      var s := table[index] + x1;
      var nw: nat, cy: nat := if s < B then s else s - B, if s < B then 0 else 1;
      PendingStep(a, index, x1, nw, cy, w);
      WordsUpdate(a, index, nw, w);
      table[index] := nw;
      assert table[..] == a[index := nw];
      // the carry of the low word joins x2, and the sum propagates from word index + 1
      // exactly as in AddInt
      MulDistrib(WPow(w, index + 1), x2, cy);
      carry := AddInt(x2 + cy, index + 1);
      ValBound(table[..], w);
      CarryOut(Val(table[..], w), carry, Cap(), sum);
    }

    /** this = this - ss2 - c, modulo 2^Width(); a nonzero c counts as one; returns the
        borrow out of the top word. ss2 may be this object. */
    method Sub(ss2: UInt, c: nat) returns (borrow: nat)
      requires Valid() && ss2.Valid() && ss2.w == w && ss2.size == size
      modifies table
      ensures Valid() && borrow <= 1
      ensures Value() + old(ss2.Value()) + BoolBit(c != 0) == old(Value()) + borrow * Cap()
      ensures borrow == 1 <==> old(Value()) < old(ss2.Value()) + BoolBit(c != 0)
    {
      ghost var a, b := table[..], ss2.table[..];
      ghost var c0 := BoolBit(c != 0);
      var B: nat := Pow2(w);
      borrow := if c != 0 then 1 else 0;
      var i := 0;
      while i < size
        invariant 0 <= i <= size && borrow <= 1
        invariant IsWords(table[..], w)
        invariant forall j :: i <= j < size ==> ss2.table[j] == b[j]
        invariant Val(table[..], w) + Val(b[..i], w) + c0 == Val(a, w) + borrow * WPow(w, i)
      {
        ghost var t := table[..];
        var x: nat, y: nat := table[i], ss2.table[i] + borrow;
        var nw: nat, bout: nat := if x >= y then x - y else x + B - y, if x >= y then 0 else 1;
        SubLoopStep(t, a, b, i, c0, borrow, nw, bout, w);
        WordsUpdate(t, i, nw, w);
        table[i] := nw;
        assert table[..] == t[i := nw];
        borrow := bout;
        i := i + 1;
      }
      assert b[..size] == b;
      ValBound(table[..], w);
      BorrowOut(Val(table[..], w), borrow, Cap(), Val(a, w), Val(b, w) + c0);
    }

    /** this = this - value * 2^(w * index), modulo 2^Width(); returns the borrow out of
        the top word. The words below index do not change. */
    method SubInt(value: nat, index: nat) returns (borrow: nat)
      requires Valid() && value < Pow2(w) && index < size
      modifies table
      ensures Valid() && borrow <= 1
      ensures Value() + value * WPow(w, index) == old(Value()) + borrow * Cap()
      ensures borrow == 1 <==> old(Value()) < value * WPow(w, index)
      ensures forall j :: 0 <= j < index ==> table[j] == old(table[j])
    {
      ghost var a := table[..];
      var B: nat := Pow2(w);
      var i: nat, v: nat := index, value;
      while i < size && v != 0
        invariant index <= i <= size && v < B
        invariant i > index ==> v <= 1
        invariant IsWords(table[..], w)
        invariant forall j :: 0 <= j < index ==> table[j] == a[j]
        invariant Val(table[..], w) + value * WPow(w, index) == Val(a, w) + v * WPow(w, i)
        decreases size - i
      {
        ghost var t := table[..];
        var x: nat := table[i];
        var nw: nat, bout: nat := if x >= v then x - v else x + B - v, if x >= v then 0 else 1;
        BorrowStep(t, i, v, 0, nw, bout, w);
        WordsUpdate(t, i, nw, w);
        table[i] := nw;
        assert table[..] == t[i := nw];
        v := bout;
        i := i + 1;
      }
      borrow := v;
      ValBound(table[..], w);
      BorrowOut(Val(table[..], w), borrow, Cap(), Val(a, w), value * WPow(w, index));
    }

    /** this = this + 1; returns the carry */
    method AddOne() returns (carry: nat)
      requires Valid()
      modifies table
      ensures Valid() && carry <= 1
      ensures Value() + carry * Cap() == old(Value()) + 1
    {
      carry := AddInt(1, 0);
    }

    /** this = this - 1; returns the borrow */
    method SubOne() returns (borrow: nat)
      requires Valid()
      modifies table
      ensures Valid() && borrow <= 1
      ensures Value() + 1 == old(Value()) + borrow * Cap()
    {
      borrow := SubInt(1, 0);
    }

    /** Shifts the whole vector one bit to the left: return value <- this <- c. The
        vacated lowest bit takes c (a nonzero c counts as one); returns the bit that left
        the top. */
    method Rcl2_one(c: nat) returns (last: nat)
      requires Valid()
      modifies table
      ensures Valid()
      ensures Value() == ShlFill(old(Value()), 1, c != 0, Width())
      ensures last == Bit(old(Value()), Width() - 1)
    {
      ghost var a := table[..];
      ghost var F := FillMask(1, c != 0);
      var cy: nat := if c != 0 then 1 else 0;
      var i: nat := 0;
      while i < size
        invariant i <= size && cy < Pow2(1)
        invariant IsWords(table[..], w)
        invariant forall j :: i <= j < size ==> table[j] == a[j]
        invariant Val(table[..i], w) + cy * WPow(w, i) == Val(a[..i], w) * Pow2(1) + F
      {
        ghost var t := table[..];
        var p := ShiftWordLeft(table[i], 1, w, cy);
        ShlStep(t, a, i, Pow2(1), F, cy, p.0, p.1, w);
        WordsUpdate(t, i, p.0, w);
        table[i] := p.0;
        assert table[..] == t[i := p.0];
        cy := p.1;
        i := i + 1;
      }
      last := cy % 2;
      assert table[..size] == table[..] && a[..size] == a;
      ValBound(table[..], w);
      WPowIsPow2(w, size);
      ShlFinish(Value(), cy, Val(a, w), 1, c != 0, Width());
    }

    /** Shifts the whole vector one bit to the right: c -> this -> return value. The
        vacated highest bit takes c (a nonzero c counts as one); returns the bit that left
        the bottom. */
    method Rcr2_one(c: nat) returns (last: nat)
      requires Valid()
      modifies table
      ensures Valid()
      ensures Value() == ShrFill(old(Value()), 1, c != 0, Width())
      ensures last == Bit(old(Value()), 0)
    {
      ghost var a := table[..];
      ghost var F := FillMask(1, c != 0);
      var cy: nat := if c != 0 then 1 else 0;
      var i: nat := size;
      assert table[size..] == [];
      while i > 0
        invariant i <= size && cy < Pow2(1)
        invariant IsWords(table[..], w)
        invariant forall j :: 0 <= j < i ==> table[j] == a[j]
        invariant Val(table[i..], w) * Pow2(1) + cy == Val(a[i..], w) + F * WPow(w, size - i)
      {
        ghost var t := table[..];
        var p := ShiftWordRight(table[i - 1], 1, w, cy);
        ShrStep(t, a, i, Pow2(1), F, cy, p.0, p.1, w);
        WordsUpdate(t, i - 1, p.0, w);
        table[i - 1] := p.0;
        assert table[..] == t[i - 1 := p.0];
        cy := p.1;
        i := i - 1;
      }
      last := cy % 2;
      assert table[0..] == table[..] && a[0..] == a;
      ValBound(a, w);
      WPowIsPow2(w, size);
      ShrFinish(Value(), cy, Val(a, w), 1, c != 0, Width());
    }

    /** Shifts the whole vector bits places to the left, 0 < bits < w: return value <-
        this <- c. The vacated low bits all take c (a nonzero c counts as one); returns the
        last bit that left the top. */
    method Rcl2(bits: nat, c: nat) returns (last: nat)
      requires Valid() && 0 < bits < w
      modifies table
      ensures Valid()
      ensures Value() == ShlFill(old(Value()), bits, c != 0, Width())
      ensures last == Bit(old(Value()), Width() - bits)
    {
      ghost var a := table[..];
      var F: nat := FillMask(bits, c != 0);
      var K: nat := Pow2(bits);
      var cy: nat := F;
      var i: nat := 0;
      while i < size
        invariant i <= size && cy < K
        invariant IsWords(table[..], w)
        invariant forall j :: i <= j < size ==> table[j] == a[j]
        invariant Val(table[..i], w) + cy * WPow(w, i) == Val(a[..i], w) * K + F
      {
        ghost var t := table[..];
        var p := ShiftWordLeft(table[i], bits, w, cy);
        ShlStep(t, a, i, K, F, cy, p.0, p.1, w);
        WordsUpdate(t, i, p.0, w);
        table[i] := p.0;
        assert table[..] == t[i := p.0];
        cy := p.1;
        i := i + 1;
      }
      last := cy % 2;
      assert table[..size] == table[..] && a[..size] == a;
      ValBound(table[..], w);
      WPowIsPow2(w, size);
      MulMonotone(1, size, w);
      ShlFinish(Value(), cy, Val(a, w), bits, c != 0, Width());
    }

    /** Shifts the whole vector bits places to the right, 0 < bits < w: c -> this ->
        return value. The vacated high bits all take c (a nonzero c counts as one); returns
        the last bit that left the bottom. */
    method Rcr2(bits: nat, c: nat) returns (last: nat)
      requires Valid() && 0 < bits < w
      modifies table
      ensures Valid()
      ensures Value() == ShrFill(old(Value()), bits, c != 0, Width())
      ensures last == Bit(old(Value()), bits - 1)
    {
      ghost var a := table[..];
      var F: nat := FillMask(bits, c != 0);
      var K: nat := Pow2(bits);
      var cy: nat := F;
      var i: nat := size;
      assert table[size..] == [];
      while i > 0
        invariant i <= size && cy < K
        invariant IsWords(table[..], w)
        invariant forall j :: 0 <= j < i ==> table[j] == a[j]
        invariant Val(table[i..], w) * K + cy == Val(a[i..], w) + F * WPow(w, size - i)
      {
        ghost var t := table[..];
        var p := ShiftWordRight(table[i - 1], bits, w, cy);
        ShrStep(t, a, i, K, F, cy, p.0, p.1, w);
        WordsUpdate(t, i - 1, p.0, w);
        table[i - 1] := p.0;
        assert table[..] == t[i - 1 := p.0];
        cy := p.1;
        i := i - 1;
      }
      last := Bit(cy, bits - 1);
      assert table[0..] == table[..] && a[0..] == a;
      ValBound(a, w);
      WPowIsPow2(w, size);
      MulMonotone(1, size, w);
      ShrFinish(Value(), cy, Val(a, w), bits, c != 0, Width());
    }

    /** The word-moving part of Rcl: shifts left by all = bits / w whole words, the
        vacated words taking the mask of c, and returns the bits still to shift,
        bits % w. A shift by size words or more fills every word and leaves no bits; the
        bit returned is the last one shifted out, except that a shift past the width
        returns 0 (the caller's default). */
    method RclMoveAllWords(bits: nat, c: nat) returns (restBits: nat, lastC: nat)
      requires Valid()
      modifies table
      ensures Valid()
      ensures var (all, rest) := SplitBits(bits, w);
        all >= size ==> (restBits == 0 && table[..] == Fill(size, FillMask(w, c != 0)) &&
                         lastC == if all == size && rest == 0 then old(table[0]) % 2 else 0)
      ensures var (all, rest) := SplitBits(bits, w);
        0 < all < size ==> (restBits == rest && lastC == old(table[size - all]) % 2 &&
                            table[..] == Fill(all, FillMask(w, c != 0)) + old(table[..])[..size - all])
      ensures var (all, rest) := SplitBits(bits, w);
        all == 0 ==> restBits == rest && table[..] == old(table[..]) && lastC == 0
      ensures Value() == ShlFill(old(Value()), w * SplitBits(bits, w).0, c != 0, Width())
    {
      ghost var a := table[..];
      var d := SplitBits(bits, w);
      var all, rest := d.0, d.1;
      var mask := FillMask(w, c != 0);
      restBits, lastC := rest, 0;
      if all >= size {
        if all == size && rest == 0 {
          lastC := table[0] % 2;
        }
        var i: nat := 0;
        while i < size
          invariant i <= size
          invariant forall j :: 0 <= j < i ==> table[j] == mask
        {
          table[i] := mask;
          i := i + 1;
        }
        restBits := 0;
        assert table[..] == Fill(size, mask);
        ShlWordsSaturated(a, all, c != 0, w);
      } else if all > 0 {
        lastC := table[size - all] % 2;
        var first: nat := size;
        while first > all
          invariant all <= first <= size
          invariant forall j :: 0 <= j < first ==> table[j] == a[j]
          invariant forall j :: first <= j < size ==> table[j] == a[j - all]
        {
          table[first - 1] := table[first - 1 - all];
          first := first - 1;
        }
        while first > 0
          invariant first <= all
          invariant forall j :: first <= j < all ==> table[j] == mask
          invariant forall j :: all <= j < size ==> table[j] == a[j - all]
        {
          table[first - 1] := mask;
          first := first - 1;
        }
        MovedUp(table[..], a, all, mask);
        ShlWordsVal(a, all, c != 0, w);
      } else {
        assert Fill(0, mask) + a[..size] == a;
        ShlWordsVal(a, 0, c != 0, w);
      }
    }

    /** The word-moving part of Rcr: shifts right by all = bits / w whole words, the
        vacated words taking the mask of c, and returns the bits still to shift,
        bits % w. A shift by size words or more fills every word and leaves no bits; the
        bit returned is the last one shifted out, except that a shift past the width
        returns 0 (the caller's default). */
    method RcrMoveAllWords(bits: nat, c: nat) returns (restBits: nat, lastC: nat)
      requires Valid()
      modifies table
      ensures Valid()
      ensures var (all, rest) := SplitBits(bits, w);
        all >= size ==> (restBits == 0 && table[..] == Fill(size, FillMask(w, c != 0)) &&
                         lastC == if all == size && rest == 0 then Bit(old(table[size - 1]), w - 1) else 0)
      ensures var (all, rest) := SplitBits(bits, w);
        0 < all < size ==> (restBits == rest && lastC == Bit(old(table[all - 1]), w - 1) &&
                            table[..] == old(table[..])[all..] + Fill(all, FillMask(w, c != 0)))
      ensures var (all, rest) := SplitBits(bits, w);
        all == 0 ==> restBits == rest && table[..] == old(table[..]) && lastC == 0
      ensures Value() == ShrFill(old(Value()), w * SplitBits(bits, w).0, c != 0, Width())
    {
      ghost var a := table[..];
      var d := SplitBits(bits, w);
      var all, rest := d.0, d.1;
      var mask := FillMask(w, c != 0);
      restBits, lastC := rest, 0;
      if all >= size {
        if all == size && rest == 0 {
          lastC := Bit(table[size - 1], w - 1);
        }
        var i: nat := 0;
        while i < size
          invariant i <= size
          invariant forall j :: 0 <= j < i ==> table[j] == mask
        {
          table[i] := mask;
          i := i + 1;
        }
        restBits := 0;
        assert table[..] == Fill(size, mask);
        ShrWordsSaturated(a, all, c != 0, w);
      } else if all > 0 {
        lastC := Bit(table[all - 1], w - 1);
        var first: nat := 0;
        while first + all < size
          invariant first + all <= size
          invariant forall j :: 0 <= j < first ==> table[j] == a[j + all]
          invariant forall j :: first <= j < size ==> table[j] == a[j]
        {
          table[first] := table[first + all];
          first := first + 1;
        }
        while first < size
          invariant size - all <= first <= size
          invariant forall j :: 0 <= j < size - all ==> table[j] == a[j + all]
          invariant forall j :: size - all <= j < first ==> table[j] == mask
        {
          table[first] := mask;
          first := first + 1;
        }
        MovedDown(table[..], a, all, mask);
        ShrWordsVal(a, all, c != 0, w);
      } else {
        assert a[0..] + Fill(0, mask) == a;
        ShrWordsVal(a, 0, c != 0, w);
      }
    }

    /** Shifts the whole vector bits places to the left: return value <- this <- c. The
        vacated low bits all take c (a nonzero c counts as one) and the last bit pushed out
        of the top is returned. A shift by 0 changes nothing and returns 0; a shift by
        more than the width fills every word and returns 0. */
    method Rcl(bits: nat, c: nat) returns (last: nat)
      requires Valid()
      modifies table
      ensures Valid()
      ensures bits == 0 ==> last == 0 && table[..] == old(table[..])
      ensures bits > 0 ==> Value() == ShlFill(old(Value()), bits, c != 0, Width())
      ensures 0 < bits <= Width() ==> last == Bit(old(Value()), Width() - bits)
      ensures bits > Width() ==> last == 0
      ensures bits >= Width() ==> table[..] == Fill(size, FillMask(w, c != 0))
    {
      if bits == 0 {
        return 0;
      }
      ghost var a := table[..];
      ghost var X, T, fill := Value(), Width(), c != 0;
      ghost var d := SplitBits(bits, w);
      assert X < Pow2(T) by {
        ValBound(a, w);
        WPowIsPow2(w, size);
      }
      assert w <= T by { MulMonotone(1, size, w); }
      var lastC: nat := 0;
      var restBits: nat := bits;
      if bits >= w {
        restBits, lastC := RclMoveAllWords(bits, c);
      } else {
        ShiftByZero(X, fill, T);
      }
      ghost var k0 := if bits >= w then w * d.0 else 0;
      assert Value() == ShlFill(X, k0, fill, T);
      if restBits == 0 {
        ShlWordsOnly(a, w, bits, lastC, fill);
        return lastC;
      }
      assert 0 < restBits < w && k0 + restBits == bits && bits < T by {
        SplitBitsBounds(bits, w, size);
      }
      ShlCompose(X, k0, restBits, fill, T);
      assert T - (k0 + restBits) == T - bits;
      last := RclRestBits(restBits, c);
    }

    /** The tail of Rcl once fewer than w bits remain to shift: one-bit shifts for 1 and 2
        bits, Rcl2 otherwise. */
    method RclRestBits(bits: nat, c: nat) returns (last: nat)
      requires Valid() && 0 < bits < w
      modifies table
      ensures Valid()
      ensures Value() == ShlFill(old(Value()), bits, c != 0, Width())
      ensures last == Bit(old(Value()), Width() - bits)
    {
      if bits == 1 {
        last := Rcl2_one(c);
      } else if bits == 2 {
        // two one-bit shifts in place of Rcl2(2, c)
        ghost var X := Value();
        MulMonotone(1, size, w);
        var _ := Rcl2_one(c);
        last := Rcl2_one(c);
        ShlCompose(X, 1, 1, c != 0, Width());
      } else {
        last := Rcl2(bits, c);
      }
    }

    /** Shifts the whole vector bits places to the right: c -> this -> return value. The
        vacated high bits all take c (a nonzero c counts as one) and the last bit pushed
        out of the bottom is returned. A shift by 0 changes nothing and returns 0; a shift
        by more than the width fills every word and returns 0. */
    method Rcr(bits: nat, c: nat) returns (last: nat)
      requires Valid()
      modifies table
      ensures Valid()
      ensures bits == 0 ==> last == 0 && table[..] == old(table[..])
      ensures bits > 0 ==> Value() == ShrFill(old(Value()), bits, c != 0, Width())
      ensures 0 < bits <= Width() ==> last == Bit(old(Value()), bits - 1)
      ensures bits > Width() ==> last == 0
      ensures bits >= Width() ==> table[..] == Fill(size, FillMask(w, c != 0))
    {
      if bits == 0 {
        return 0;
      }
      ghost var a := table[..];
      ghost var X, T, fill := Value(), Width(), c != 0;
      ghost var d := SplitBits(bits, w);
      assert X < Pow2(T) by {
        ValBound(a, w);
        WPowIsPow2(w, size);
      }
      assert w <= T by { MulMonotone(1, size, w); }
      var lastC: nat := 0;
      var restBits: nat := bits;
      if bits >= w {
        restBits, lastC := RcrMoveAllWords(bits, c);
      } else {
        ShiftByZero(X, fill, T);
      }
      ghost var k0 := if bits >= w then w * d.0 else 0;
      assert Value() == ShrFill(X, k0, fill, T);
      if restBits == 0 {
        ShrWordsOnly(a, w, bits, lastC, fill);
        return lastC;
      }
      assert 0 < restBits < w && k0 + restBits == bits && bits < T by {
        SplitBitsBounds(bits, w, size);
      }
      ShrCompose(X, k0, restBits, fill, T);
      last := RcrRestBits(restBits, c);
    }

    /** The tail of Rcr once fewer than w bits remain to shift: one-bit shifts for 1 and 2
        bits, Rcr2 otherwise. */
    method RcrRestBits(bits: nat, c: nat) returns (last: nat)
      requires Valid() && 0 < bits < w
      modifies table
      ensures Valid()
      ensures Value() == ShrFill(old(Value()), bits, c != 0, Width())
      ensures last == Bit(old(Value()), bits - 1)
    {
      if bits == 1 {
        last := Rcr2_one(c);
      } else if bits == 2 {
        // two one-bit shifts in place of Rcr2(2, c)
        ghost var X := Value();
        assert X < Pow2(Width()) by {
          ValBound(table[..], w);
          WPowIsPow2(w, size);
        }
        MulMonotone(1, size, w);
        var _ := Rcr2_one(c);
        last := Rcr2_one(c);
        ShrCompose(X, 1, 1, c != 0, Width());
      } else {
        last := Rcr2(bits, c);
      }
    }

    /** Looks for the highest set bit: the word that holds it and its index in the word.
        Zero gives false with both indices 0. */
    method FindLeadingBit() returns (found: bool, tableId: nat, index: nat)
      requires Valid()
      ensures found <==> Value() != 0
      ensures !found ==> tableId == 0 && index == 0
      ensures found ==> tableId < size && index < w && table[tableId] != 0
      ensures found ==> forall j :: tableId < j < size ==> table[j] == 0
      ensures found ==> Pow2(index) <= table[tableId] < Pow2(index + 1)
      ensures found ==> Pow2(w * tableId + index) <= Value() < Pow2(w * tableId + index + 1)
    {
      ghost var s := table[..];
      tableId := size - 1;
      while tableId != 0 && table[tableId] == 0
        invariant tableId < size
        invariant forall j :: tableId < j < size ==> s[j] == 0
      {
        tableId := tableId - 1;
      }
      if tableId == 0 && table[tableId] == 0 {
        ValZero(s, w);
        return false, 0, 0;
      }
      var lead := FindLeadingBitInWord(table[tableId]);
      LeadingBitBelow(s[tableId], w);
      index := lead as nat;
      found := true;
      LeadingBitOfVal(s, w, tableId, index);
    }

    /** The word-moving part of CompensationToLeft: words 0..top move to the top of the
        table and zero words fill the rest. */
    method MoveWordsToTop(top: nat)
      requires Valid() && top < size - 1
      requires forall j :: top < j < size ==> table[j] == 0
      modifies table
      ensures Valid()
      ensures table[..] == Fill(size - 1 - top, 0) + old(table[..])[..top + 1]
      ensures Value() == old(Value()) * WPow(w, size - 1 - top)
    {
      ghost var a := table[..];
      var m := size - 1 - top;
      var i: int := size - 1;
      var src: int := top;
      while src >= 0
        invariant -1 <= src <= top && i == src + m
        invariant forall j :: i < j < size ==> table[j] == a[j - m]
        invariant forall j :: 0 <= j <= i ==> table[j] == a[j]
      {
        table[i] := table[src];
        i := i - 1;
        src := src - 1;
      }
      while i >= 0
        invariant -1 <= i < m
        invariant forall j :: i < j < m ==> table[j] == 0
        invariant forall j :: m <= j < size ==> table[j] == a[j - m]
      {
        table[i] := 0;
        i := i - 1;
      }
      MovedUp(table[..], a, m, 0);
      assert Valid();
      ghost var z := Fill(m, 0);
      assert Val(z, w) == 0 by { ValZero(z, w); }
      ValAppend(z, a[..top + 1], w);
      ValHighZero(a, top + 1, w);
      MulComm(Val(a, w), WPow(w, m));
    }

    /** Moves the value to the left until the top bit of the top word is set, and returns
        by how many bits it moved. Zero is left as it is and gives 0. */
    method CompensationToLeft() returns (moving: nat)
      requires Valid()
      modifies table
      ensures Valid()
      ensures old(Value()) == 0 ==> moving == 0 && table[..] == old(table[..])
      ensures old(Value()) != 0 ==> moving < Width() && Value() == old(Value()) * Pow2(moving)
      ensures old(Value()) != 0 ==> Pow2(Width() - 1) <= Value()
    {
      ghost var X := Value();
      // top: the last nonzero word, -1 when there is none
      var top: int := size - 1;
      while top >= 0 && table[top] == 0
        invariant -1 <= top < size
        invariant forall j :: top < j < size ==> table[j] == 0
      {
        top := top - 1;
      }
      if top < 0 {
        ValZero(table[..], w);
        return 0;
      }
      moving := CompensationMoveWords(top);
      var moving2 := CompensationMoveBits();
      assert Value() == X * Pow2(moving + moving2) by {
        Pow2Add(moving, moving2);
        MulAssoc(X, Pow2(moving), Pow2(moving2));
      }
      assert moving + moving2 < Width() by {
        MulDistrib(w, size - 1, 1);
      }
      moving := moving + moving2;
    }

    /** The first step of CompensationToLeft: when the last nonzero word is not the top
        one, the words move up so that it is; returns the number of bits moved. */
    method CompensationMoveWords(top: nat) returns (moving: nat)
      requires Valid() && top < size && table[top] != 0
      requires forall j :: top < j < size ==> table[j] == 0
      modifies table
      ensures Valid() && table[size - 1] != 0
      ensures moving <= w * (size - 1) && Value() == old(Value()) * Pow2(moving)
    {
      ghost var a := table[..];
      ghost var m: nat := size - 1 - top;
      moving := 0;
      if top != size - 1 {
        moving := (size - 1 - top) * w;
        MoveWordsToTop(top);
        assert table[..][size - 1] == a[top];
      }
      WPowIsPow2(w, m);
      MulComm(m, w);
      MulMonotone(m, size - 1, w);
      MulComm(size - 1, w);
    }

    /** The second step of CompensationToLeft: a Rcl by the number of clear bits above the
        leading bit of the top word; returns that number. */
    method CompensationMoveBits() returns (moving2: nat)
      requires Valid() && table[size - 1] != 0
      modifies table
      ensures Valid() && moving2 < w
      ensures Value() == old(Value()) * Pow2(moving2)
      ensures Pow2(Width() - 1) <= Value()
    {
      ghost var V1 := Value();
      var lead := FindLeadingBitInWord(table[size - 1]);
      LeadingBitBelow(table[size - 1], w);
      moving2 := w - lead as nat - 1;
      ShlTopWordToTop(table[..], w, lead as nat);
      var _ := Rcl(moving2, 0);
      if moving2 == 0 {
        ShiftByZero(V1, false, Width());
      }
    }

    /** Bit bitIndex of the value; the value is left as it is. */
    method GetBit(bitIndex: nat) returns (res: nat)
      requires Valid() && bitIndex < Width()
      ensures res == Bit(Value(), bitIndex)
    {
      var (index, bit) := SplitBits(bitIndex, w);
      ValBitAt(table[..], w, bitIndex);
      var temp := table[index];
      var _, old_bit := SetBitInWord(temp, bit, w);
      res := old_bit;
    }

    /** Sets bit bitIndex and returns its previous state; no other bit changes. */
    method SetBit(bitIndex: nat) returns (res: nat)
      requires Valid() && bitIndex < Width()
      modifies table
      ensures Valid()
      ensures res == Bit(old(Value()), bitIndex)
      ensures Value() == if res == 1 then old(Value()) else old(Value()) + Pow2(bitIndex)
      ensures forall j: nat :: Bit(Value(), j) == if j == bitIndex then 1 else Bit(old(Value()), j)
    {
      ghost var a := table[..];
      var (index, bit) := SplitBits(bitIndex, w);
      ValBitAt(a, w, bitIndex);
      var nw;
      nw, res := SetBitInWord(table[index], bit, w);
      table[index] := nw;
      assert table[..] == a[index := nw];
      SetBitWord(a, w, bitIndex, index, bit, nw, res);
    }

    /** this = this AND ss2, word by word; ss2 may be this object. */
    method BitAnd(ss2: UInt)
      requires Valid() && ss2.Valid() && ss2.w == w && ss2.size == size
      modifies table
      ensures Valid()
      ensures Value() == And(old(Value()), old(ss2.Value()), Width())
      ensures forall j: nat :: j < Width() ==>
        Bit(Value(), j) == Bit(old(Value()), j) * Bit(old(ss2.Value()), j)
    {
      ghost var a, b := table[..], ss2.table[..];
      var x := 0;
      while x < size
        invariant x <= size
        invariant forall i :: 0 <= i < x ==> table[i] == And(a[i], b[i], w)
        invariant forall i :: x <= i < size ==> table[i] == a[i] && ss2.table[i] == b[i]
      {
        table[x] := And(table[x], ss2.table[x], w);
        x := x + 1;
      }
      ValAnd(table[..], a, b, w);
      forall j: nat | j < Width()
        ensures Bit(Value(), j) == Bit(Val(a, w), j) * Bit(Val(b, w), j)
      {
        AndBit(Val(a, w), Val(b, w), Width(), j);
      }
    }

    /** this = this OR ss2, word by word; ss2 may be this object. */
    method BitOr(ss2: UInt)
      requires Valid() && ss2.Valid() && ss2.w == w && ss2.size == size
      modifies table
      ensures Valid()
      ensures Value() == Or(old(Value()), old(ss2.Value()), Width())
      ensures forall j: nat :: j < Width() ==>
        Bit(Value(), j) == if Bit(old(Value()), j) == 1 || Bit(old(ss2.Value()), j) == 1 then 1 else 0
    {
      ghost var a, b := table[..], ss2.table[..];
      var x := 0;
      while x < size
        invariant x <= size
        invariant forall i :: 0 <= i < x ==> table[i] == Or(a[i], b[i], w)
        invariant forall i :: x <= i < size ==> table[i] == a[i] && ss2.table[i] == b[i]
      {
        table[x] := Or(table[x], ss2.table[x], w);
        x := x + 1;
      }
      ValOr(table[..], a, b, w);
      forall j: nat | j < Width()
        ensures Bit(Value(), j) == if Bit(Val(a, w), j) == 1 || Bit(Val(b, w), j) == 1 then 1 else 0
      {
        OrBit(Val(a, w), Val(b, w), Width(), j);
      }
    }

    /** this = this XOR ss2, word by word; ss2 may be this object. */
    method BitXor(ss2: UInt)
      requires Valid() && ss2.Valid() && ss2.w == w && ss2.size == size
      modifies table
      ensures Valid()
      ensures Value() == Xor(old(Value()), old(ss2.Value()), Width())
      ensures forall j: nat :: j < Width() ==>
        Bit(Value(), j) == (Bit(old(Value()), j) + Bit(old(ss2.Value()), j)) % 2
    {
      ghost var a, b := table[..], ss2.table[..];
      var x := 0;
      while x < size
        invariant x <= size
        invariant forall i :: 0 <= i < x ==> table[i] == Xor(a[i], b[i], w)
        invariant forall i :: x <= i < size ==> table[i] == a[i] && ss2.table[i] == b[i]
      {
        table[x] := Xor(table[x], ss2.table[x], w);
        x := x + 1;
      }
      ValXor(table[..], a, b, w);
      forall j: nat | j < Width()
        ensures Bit(Value(), j) == (Bit(Val(a, w), j) + Bit(Val(b, w), j)) % 2
      {
        XorBit(Val(a, w), Val(b, w), Width(), j);
      }
    }

    /** Complements every bit: this = 2^Width() - 1 - this. */
    method BitNot()
      requires Valid()
      modifies table
      ensures Valid()
      ensures Value() == Cap() - 1 - old(Value())
      ensures forall j: nat :: j < Width() ==> Bit(Value(), j) == 1 - Bit(old(Value()), j)
    {
      ghost var a := table[..];
      var x := 0;
      while x < size
        invariant x <= size
        invariant forall i :: 0 <= i < x ==> table[i] == MaxWord() - a[i]
        invariant forall i :: x <= i < size ==> table[i] == a[i]
      {
        table[x] := MaxWord() - table[x];
        x := x + 1;
      }
      ValNot(table[..], a, w);
      ghost var X := Val(a, w);
      assert X < Pow2(Width()) && Cap() == Pow2(Width()) by {
        ValBoundBits(a, w);
        WPowIsPow2(w, size);
      }
      forall j: nat | j < Width()
        ensures Bit(Value(), j) == 1 - Bit(X, j)
      {
        NotBit(X, Width(), j);
      }
    }

    /** Complements the bits from the leading bit down: a value whose leading bit is L
        becomes 2^(L+1) - 1 - value (so 8 becomes 7). Zero becomes one. */
    method BitNot2()
      requires Valid()
      modifies table
      ensures Valid()
      ensures old(Value()) == 0 ==> Value() == 1
      ensures old(Value()) != 0 ==>
        Value() == Pow2((FindLeadingBitInWord(old(Value())) + 1) as nat) - 1 - old(Value())
    {
      ghost var a := table[..];
      ghost var X := Value();
      var found, tableId, index := FindLeadingBit();
      if found {
        NotUpToLeadingBit(tableId, index);
        LeadingBitUnique(X, w * tableId + index);
      } else {
        assert forall i :: 0 <= i < size ==> a[i] == 0 by { ValZero(a, w); }
        table[0] := 1;
        assert table[..] == a[0 := 1];
        ValUpdate(a, 0, 1, w);
      }
    }

    /** The nonzero case of BitNot2: the words below tableId are complemented and word
        tableId is XORed with the mask of its bits up to index. */
    method NotUpToLeadingBit(tableId: nat, index: nat)
      requires Valid() && tableId < size && index < w
      requires Pow2(index) <= table[tableId] < Pow2(index + 1)
      requires forall j :: tableId < j < size ==> table[j] == 0
      modifies table
      ensures Valid()
      ensures Value() == Pow2(w * tableId + index + 1) - 1 - old(Value())
    {
      ghost var a := table[..];
      ComplementWordsBelow(tableId);
      XorLowMask(tableId, index);
      ValNotUpTo(table[..], a, w, tableId, index);
    }

    /** The last step of BitNot2: word tableId, whose leading bit is index, is XORed with
        the mask of bits 0..index, TTMATH_UINT_MAX_VALUE >> (w - index - 1). */
    method XorLowMask(tableId: nat, index: nat)
      requires Valid() && tableId < size && index < w && table[tableId] < Pow2(index + 1)
      modifies table
      ensures Valid()
      ensures table[..] == old(table[..])[tableId := Pow2(index + 1) - 1 - old(table[tableId])]
    {
      var mask := MaxWord();
      var shift := w - index - 1;
      if shift != 0 {
        mask := Shr(mask, shift);
      }
      assert mask == Pow2(index + 1) - 1 by {
        MaskShr(w, shift);
      }
      XorMask(table[tableId], index + 1, w);
      table[tableId] := Xor(table[tableId], mask, w);
    }

    /** The loop of BitNot2: complements the words below k. */
    method ComplementWordsBelow(k: nat)
      requires Valid() && k <= size
      modifies table
      ensures Valid()
      ensures forall i :: 0 <= i < k ==> table[i] == MaxWord() - old(table[i])
      ensures forall i :: k <= i < size ==> table[i] == old(table[i])
    {
      var x := 0;
      while x < k
        invariant x <= k && Valid()
        invariant forall i :: 0 <= i < x ==> table[i] == MaxWord() - old(table[i])
        invariant forall i :: x <= i < size ==> table[i] == old(table[i])
      {
        table[x] := MaxWord() - table[x];
        x := x + 1;
      }
    }

    /** Clears the lowest n bits: this = this - this mod 2^n. */
    method ClearFirstBits(n: nat)
      requires Valid()
      modifies table
      ensures Valid()
      ensures Value() == old(Value()) - old(Value()) % Pow2(n)
      ensures forall j: nat :: Bit(Value(), j) == if j < n then 0 else Bit(old(Value()), j)
    {
      ghost var a := table[..];
      ghost var X := Value();
      if n >= Width() {
        SetZero();
        assert X < Pow2(n) by {
          ValBoundBits(a, w);
          Pow2Le(Width(), n);
        }
        SmallDivMod(X, Pow2(n));
      } else {
        ClearWordsAndBits(n);
      }
      forall j: nat
        ensures Bit(Value(), j) == if j < n then 0 else Bit(X, j)
      {
        ClearLowBits(X, n, j);
      }
    }

    /** ClearFirstBits for n below the width: whole words first, then the low bits of the
        next word, ANDed with TTMATH_UINT_MAX_VALUE << n. */
    method ClearWordsAndBits(n: nat)
      requires Valid() && n < Width()
      modifies table
      ensures Valid()
      ensures Value() == old(Value()) - old(Value()) % Pow2(n)
    {
      ghost var a := table[..];
      var p: nat := 0;
      var k: nat := n;
      while k >= w
        invariant w * p + k == n && p < size
        invariant forall i :: 0 <= i < p ==> table[i] == 0
        invariant forall i :: p <= i < size ==> table[i] == a[i]
      {
        table[p] := 0;
        assert p + 1 < size by {
          MulDistrib(w, p, 1);
          MulLessCancel(p + 1, size, w);
        }
        p := p + 1;
        k := k - w;
        MulDistrib(w, p - 1, 1);
      }
      assert Pow2(k) <= Pow2(w) by { Pow2Le(k, w); }
      var mask: nat := MaxWord() - (Pow2(k) - 1);
      if k != 0 {
        table[p] := And(table[p], mask, w);
      }
      forall i, j | 0 <= i < size && 0 <= j < w
        ensures Bit(table[..][i], j) == if w * i + j < n then 0 else Bit(a[i], j)
      {
        ClearedWordBit(i, j, p, k, w);
        if i < p {
          BitHigh(0, 0, j);
        } else if i == p && k != 0 {
          AndHighMask(a[p], mask, k, w, j);
        }
      }
      ClearedVal(table[..], a, w, n);
    }

    /** whether the top bit of the top word is set (the test against
        TTMATH_UINT_HIGHEST_BIT) */
    function IsTheHighestBitSet(): (r: bool)
      requires Valid()
      reads table
      ensures r <==> Pow2(Width() - 1) <= Value()
    {
      ValBit(table[..], w, size - 1, w - 1);
      MulDistrib(w, size - 1, 1);
      ValBoundBits(table[..], w);
      TopBit(Value(), Width());
      Bit(table[size - 1], w - 1) == 1
    }

    /** whether the lowest bit is set */
    function IsTheLowestBitSet(): (r: bool)
      requires Valid()
      reads table
      ensures r <==> Value() % 2 == 1
    {
      ValBit(table[..], w, 0, 0);
      table[0] % 2 == 1
    }

    method IsZero() returns (r: bool)
      requires Valid()
      ensures r <==> Value() == 0
    {
      var i := 0;
      while i < size
        invariant i <= size
        invariant forall j :: 0 <= j < i ==> table[j] == 0
      {
        if table[i] != 0 {
          ValZero(table[..], w);
          return false;
        }
        i := i + 1;
      }
      ValZero(table[..], w);
      return true;
    }

    /** this = this * ss2 for a word ss2; returns 1 when the product does not fit, and then
        the words hold a partial product. Word x1 of the old value is multiplied by ss2 and
        the double word added at x1; the last word must not produce a high word. The
        two-word branch is taken while x1 + 2 <= value_size (see MulIntTwoWordGuard for
        the guard as the library writes it). */
    method MulInt(ss2: nat) returns (carry: nat)
      requires Valid() && ss2 < Pow2(w)
      modifies table
      ensures Valid() && carry <= 1
      ensures carry == 1 <==> old(Value()) * ss2 >= Cap()
      ensures carry == 0 ==> Value() == old(Value()) * ss2
    {
      var u := table[..];
      SetZero();
      var x1: nat := 0;
      while x1 < size
        invariant x1 <= size && Valid()
        invariant Value() == Val(u[..x1], w) * ss2
      {
        carry := MulIntPass(u, x1, ss2);
        if carry != 0 {
          return 1;
        }
        x1 := x1 + 1;
      }
      assert u[..size] == u;
      ValBound(table[..], w);
      carry := 0;
    }

    /** One pass of MulInt: word x1 of the old words u times ss2, added at x1 as two words
        while x1 + 2 <= value_size, and as one word at the top, where a nonzero high word
        is a carry. Without a carry the value is the product of the low x1 + 1 words; with
        one, the whole product does not fit. */
    method MulIntPass(u: seq<nat>, x1: nat, ss2: nat) returns (carry: nat)
      requires Valid() && IsWords(u, w) && |u| == size && x1 < size && ss2 < Pow2(w)
      requires Value() == Val(u[..x1], w) * ss2
      modifies table
      ensures Valid() && carry <= 1
      ensures carry == 0 ==> Value() == Val(u[..x1 + 1], w) * ss2
      ensures carry != 0 ==> Val(u, w) * ss2 >= Cap()
    {
      var r := MulTwoWords(u[x1], ss2, w);
      var r2: nat, r1: nat := r.0, r.1;
      ghost var next: int := Val(u[..x1 + 1], w) * ss2;
      WordProductPass(u, x1, ss2, w, Value(), r2, r1);
      if x1 + 2 <= size {
        carry := AddTwoInts(r2, r1, x1);
      } else if r2 != 0 {
        assert next >= r2 * WPow(w, x1 + 1) >= Cap() by {
          MulMonotone(0, r1, WPow(w, x1));
          MulMonotone(1, r2, WPow(w, x1 + 1));
        }
        carry := 1;
      } else {
        carry := AddInt(r1, x1);
      }
    }

    /** The words that can contribute to a product: end is one past the highest nonzero
        word (0 for a zero value) and start the lowest nonzero word below end. */
    method NonzeroRange() returns (start: nat, end: nat)
      requires Valid()
      ensures start <= end <= size
      ensures forall j :: end <= j < size ==> table[j] == 0
      ensures forall j :: 0 <= j < start ==> table[j] == 0
      ensures end > 0 ==> table[end - 1] != 0 && start < end && table[start] != 0
      ensures end == 0 <==> Value() == 0
    {
      end := size;
      while end > 0 && table[end - 1] == 0
        invariant end <= size
        invariant forall j :: end <= j < size ==> table[j] == 0
      {
        end := end - 1;
      }
      start := 0;
      while start < end && table[start] == 0
        invariant start <= end
        invariant forall j :: 0 <= j < start ==> table[j] == 0
      {
        start := start + 1;
      }
      ValZero(table[..], w);
      if end > 0 {
        assert table[..][end - 1] != 0;
      }
    }

    /** result = this * ss2 for a word ss2, into a wider result; returns 1, leaving result
        as it was, when result is not wider than this. Only the words between the lowest
        and the highest nonzero word are multiplied when there are more than two. */
    method MulIntTo(ss2: nat, result: UInt) returns (carry: nat)
      requires Valid() && result.Valid() && result.w == w && ss2 < Pow2(w)
      modifies result.table
      ensures result.Valid()
      ensures carry == 1 <==> size >= result.size
      ensures size >= result.size ==> result.table[..] == old(result.table[..])
      ensures size < result.size ==> result.Value() == Value() * ss2
    {
      if size >= result.size {
        return 1;
      }
      ghost var a := table[..];
      ghost var X := Value();
      result.SetZero();
      var x1start: nat, x1size: nat := 0, size;
      if size > 2 {
        x1start, x1size := NonzeroRange();
        if x1size == 0 {
          return 0;
        }
      }
      ZeroPrefixProduct(a, x1start, ss2, w);
      var x1 := x1start;
      while x1 < x1size
        invariant x1start <= x1 <= x1size <= size
        invariant result.Valid() && table[..] == a
        invariant result.Value() == Val(a[..x1], w) * ss2
      {
        var r := MulTwoWords(table[x1], ss2, w);
        var r2: nat, r1: nat := r.0, r.1;
        WordProductPass(a, x1, ss2, w, result.Value(), r2, r1);
        assert Val(a[..x1 + 1], w) * ss2 < result.Cap() by {
          ValBound(a, w);
          WordProductBound(X, ss2, w, size);
          WPowLe(w, size + 1, result.size);
        }
        var c := result.AddTwoInts(r2, r1, x1);
        x1 := x1 + 1;
      }
      ZeroSuffixProduct(a, x1size, ss2, w);
      carry := 0;
    }

    /** this = this * ss2 by shifting and adding: for each bit of the old value, from the
        top, the product so far is doubled and ss2 added when the bit is set. Returns 1 as
        soon as a step overflows, which happens exactly when the product does not fit.
        ss2 must not be this object (the library asserts it). */
    method Mul1(ss2: UInt) returns (carry: nat)
      requires Valid() && ss2.Valid() && ss2.w == w && ss2.size == size
      requires ss2.table != table
      modifies table
      ensures Valid() && carry <= 1
      ensures carry == 1 <==> old(Value()) * old(ss2.Value()) >= Cap()
      ensures carry == 0 ==> Value() == old(Value()) * old(ss2.Value())
    {
      ghost var X, Y, T := Value(), ss2.Value(), Width();
      assert X < Pow2(T) by {
        ValBound(table[..], w);
        WPowIsPow2(w, size);
      }
      var ss1 := new UInt.Copy(this);
      SetZero();
      ShrAll(X, T);
      ShiftByZero(X, false, T);
      var i: nat := 0;
      while i < Width()
        invariant i <= T && Valid() && ss2.Value() == Y
        invariant ss1.Valid() && fresh(ss1.table) && ss1.w == w && ss1.size == size
        invariant Value() == Shr(X, T - i) * Y
        invariant ss1.Value() == ShlFill(X, i, false, T)
      {
        carry := Mul1Step(ss1, ss2, X, Y, i);
        if carry != 0 {
          return 1;
        }
        i := i + 1;
      }
      ValBound(table[..], w);
      carry := 0;
    }

    /** One round of Mul1 for bit T - 1 - i of X, where T is the width: the product so far
        is doubled, the top bit of ss1 (X shifted left by i) is shifted out, and ss2 added
        when that bit is set. A carry means the product of the bits of X from T - 1 - i up
        does not fit. */
    method Mul1Step(ss1: UInt, ss2: UInt, ghost X: nat, ghost Y: nat, ghost i: nat)
      returns (carry: nat)
      requires Valid() && ss2.Valid() && ss2.w == w && ss2.size == size
      requires ss1.Valid() && ss1.w == w && ss1.size == size
      requires ss2.table != table && ss1.table != table && ss1.table != ss2.table
      requires i < Width() && ss2.Value() == Y
      requires Value() == Shr(X, Width() - i) * Y
      requires ss1.Value() == ShlFill(X, i, false, Width())
      modifies table, ss1.table
      ensures Valid() && ss1.Valid() && ss2.Value() == Y && carry <= 1
      ensures Shr(X, Width() - 1 - i) * Y <= X * Y
      ensures carry == 1 <==> Shr(X, Width() - 1 - i) * Y >= Cap()
      ensures carry == 0 ==> Value() == Shr(X, Width() - 1 - i) * Y
      ensures carry == 0 ==> ss1.Value() == ShlFill(X, i + 1, false, Width())
    {
      ghost var T, k := Width(), Width() - 1 - i;
      ghost var p := Value();
      ShiftAddStep(X, Y, k, p);
      carry := Add(this, 0);
      if carry != 0 {
        return 1;
      }
      ShlCompose(X, i, 1, false, T);
      var bit := ss1.Rcl(1, 0);
      assert bit == Bit(X, k);
      if bit != 0 {
        carry := Add(ss2, 0);
      }
    }

    /** result = this * ss2 by shifting and adding, into a result of twice the words: both
        factors are widened to 2 * value_size words and multiplied there by Mul1, where the
        product cannot overflow. ss2 may be this object. The library widens both factors
        in the same pair of loops; here each is widened by its own call of Widen. */
    method Mul1Big(ss2: UInt, result: UInt)
      requires Valid() && ss2.Valid() && ss2.w == w && ss2.size == size
      requires result.Valid() && result.w == w && result.size == 2 * size
      modifies result.table
      ensures result.Valid() && result.Value() == Value() * ss2.Value()
    {
      var big := new UInt(w, 2 * size);
      result.Widen(this);
      big.Widen(ss2);
      assert Value() * ss2.Value() < result.Cap() by {
        ValBound(table[..], w);
        ValBound(ss2.table[..], w);
        DoubleProductBound(Value(), ss2.Value(), w, size);
      }
      var c := result.Mul1(big);
    }

    /** The words of src, which has half as many, followed by zero words: the same value
        in twice the width. */
    method Widen(src: UInt)
      requires Valid() && src.Valid() && src.w == w && size == 2 * src.size
      modifies table
      ensures Valid() && table[..] == src.table[..] + Fill(src.size, 0)
      ensures Value() == src.Value()
    {
      ghost var a := src.table[..];
      var i := 0;
      while i < src.size
        invariant i <= src.size && IsWords(table[..], w)
        invariant forall j :: 0 <= j < i ==> table[j] == a[j]
      {
        table[i] := src.table[i];
        i := i + 1;
      }
      while i < size
        invariant src.size <= i <= size && IsWords(table[..], w)
        invariant forall j :: 0 <= j < src.size ==> table[j] == a[j]
        invariant forall j :: src.size <= j < i ==> table[j] == 0
      {
        table[i] := 0;
        i := i + 1;
      }
      assert table[..] == a + Fill(src.size, 0);
      ValHighZero(table[..], src.size, w);
      assert table[..][..src.size] == a;
    }

    /** result = this * ss2 by the schoolbook method, into a result of twice the words:
        every word of this times every word of ss2, added at the sum of their indices.
        With more than two words, only the words between the lowest and the highest
        nonzero word of each factor take part. ss2 may be this object. */
    method Mul2Big(ss2: UInt, result: UInt)
      requires Valid() && ss2.Valid() && ss2.w == w && ss2.size == size
      requires result.Valid() && result.w == w && result.size == 2 * size
      modifies result.table
      ensures result.Valid() && result.Value() == Value() * ss2.Value()
    {
      ghost var a, b := table[..], ss2.table[..];
      ghost var X, Y := Value(), ss2.Value();
      result.SetZero();
      var x1start: nat, x1size: nat, x2start: nat, x2size: nat := 0, size, 0, size;
      if size > 2 {
        x1start, x1size := NonzeroRange();
        x2start, x2size := ss2.NonzeroRange();
        if x1size == 0 || x2size == 0 {
          return;
        }
      }
      assert Val(a[..x1start], w) * Y == 0 by { ZeroPrefixProduct(a, x1start, Y, w); }
      assert Val(b[..x2start], w) == 0 by { ValZero(b[..x2start], w); }
      assert Val(b[..x2size], w) == Y by { ValHighZero(b, x2size, w); }
      var x1 := x1start;
      while x1 < x1size
        invariant x1start <= x1 <= x1size <= size
        invariant result.Valid() && table[..] == a && ss2.table[..] == b
        invariant result.Value() == Val(a[..x1], w) * Y
      {
        Mul2Row(ss2, result, x1, x2start, x2size);
        x1 := x1 + 1;
      }
      ZeroSuffixProduct(a, x1size, Y, w);
    }

    /** The inner loop of Mul2Big: word x1 of this times the words x2start .. x2size - 1 of
        ss2, added at x1 + x2. Words of ss2 outside that range contribute nothing. */
    method Mul2Row(ss2: UInt, result: UInt, x1: nat, x2start: nat, x2size: nat)
      requires Valid() && ss2.Valid() && ss2.w == w && ss2.size == size
      requires result.Valid() && result.w == w && result.size == 2 * size
      requires x1 < size && x2start <= x2size <= size
      requires Val(ss2.table[..][..x2start], w) == 0
      requires Val(ss2.table[..][..x2size], w) == ss2.Value()
      requires result.Value() == Val(table[..][..x1], w) * ss2.Value()
      modifies result.table
      ensures result.Valid() && result.Value() == Val(table[..][..x1 + 1], w) * ss2.Value()
    {
      ghost var a, b := table[..], ss2.table[..];
      ghost var X, Y, P := Value(), ss2.Value(), WPow(w, x1);
      ghost var s0 := result.Value();
      assert X * Y < result.Cap() by {
        ValBound(a, w);
        ValBound(b, w);
        DoubleProductBound(X, Y, w, size);
      }
      var x2 := x2start;
      while x2 < x2size
        invariant x2start <= x2 <= x2size
        invariant result.Valid() && table[..] == a && ss2.table[..] == b
        invariant result.Value() == s0 + a[x1] * Val(b[..x2], w) * P
      {
        var r := MulTwoWords(table[x1], ss2.table[x2], w);
        var r2: nat, r1: nat := r.0, r.1;
        SchoolbookStep(a[x1], b, x2, x1, r2, r1, w);
        SchoolbookBound(a, b, x1, x2 + 1, w);
        var c := result.AddTwoInts(r2, r1, x2 + x1);
        x2 := x2 + 1;
      }
      PartialProductStep(a, x1, Y, w);
    }

    /** this = this * ss2 by the schoolbook method: the double-width product is computed by
        Mul2Big, its low words kept, and 1 returned when a high word is not zero. The words
        always hold the product modulo 2^Width(). ss2 may be this object. */
    method Mul2(ss2: UInt) returns (carry: nat)
      requires Valid() && ss2.Valid() && ss2.w == w && ss2.size == size
      modifies table
      ensures Valid() && carry <= 1
      ensures Value() == old(Value()) * old(ss2.Value()) % Cap()
      ensures carry == 1 <==> old(Value()) * old(ss2.Value()) >= Cap()
      ensures carry == 0 ==> Value() == old(Value()) * old(ss2.Value())
    {
      ghost var P: nat := Value() * ss2.Value();
      var result := new UInt(w, 2 * size);
      Mul2Big(ss2, result);
      LowWords(result.table[..], size, P, w);
      CopyLowWords(result);
      carry := result.HighWordsNonzero(size);
    }

    /** 1 when a word at index n or above is not zero, 0 otherwise: the overflow test on the
        high half of a double-width product. */
    method HighWordsNonzero(n: nat) returns (carry: nat)
      requires Valid() && n <= size
      ensures carry <= 1
      ensures carry == 0 <==> forall j :: n <= j < size ==> table[j] == 0
    {
      var i := n;
      while i < size
        invariant n <= i <= size
        invariant forall j :: n <= j < i ==> table[j] == 0
      {
        if table[i] != 0 {
          return 1;
        }
        i := i + 1;
      }
      carry := 0;
    }

    /** The low words of a wider src: table[i] = src.table[i] for every word of this. */
    method CopyLowWords(src: UInt)
      requires Valid() && src.Valid() && src.w == w && src.size >= size
      requires src.table != table
      modifies table
      ensures Valid() && table[..] == src.table[..][..size]
      ensures Value() == Val(src.table[..][..size], w)
    {
      var i := 0;
      while i < size
        invariant i <= size && IsWords(table[..], w)
        invariant forall j :: 0 <= j < i ==> table[j] == src.table[j]
      {
        table[i] := src.table[i];
        i := i + 1;
      }
      assert table[..] == src.table[..][..size];
    }

    /** this = this * ss2 with algorithm 1 (Mul1) or, for any other number, 2 (Mul2).
        Algorithm 1 does not admit ss2 being this object. */
    method Mul(ss2: UInt, algorithm: nat) returns (carry: nat)
      requires Valid() && ss2.Valid() && ss2.w == w && ss2.size == size
      requires algorithm == 1 ==> ss2.table != table
      modifies table
      ensures Valid() && carry <= 1
      ensures carry == 1 <==> old(Value()) * old(ss2.Value()) >= Cap()
      ensures carry == 0 ==> Value() == old(Value()) * old(ss2.Value())
    {
      if algorithm == 1 {
        carry := Mul1(ss2);
      } else {
        carry := Mul2(ss2);
      }
    }

    /** result = this * ss2 into a result of twice the words, with algorithm 1 (Mul1Big) or,
        for any other number, 2 (Mul2Big). */
    method MulBig(ss2: UInt, result: UInt, algorithm: nat)
      requires Valid() && ss2.Valid() && ss2.w == w && ss2.size == size
      requires result.Valid() && result.w == w && result.size == 2 * size
      modifies result.table
      ensures result.Valid() && result.Value() == Value() * ss2.Value()
    {
      if algorithm == 1 {
        Mul1Big(ss2, result);
      } else {
        Mul2Big(ss2, result);
      }
    }

    /** this = this ^ pow by binary exponentiation from the lowest bit of pow: 2 for 0^0,
        1 when the power does not fit, and then the value is unchanged; x^0 is 1. The
        running square is taken only while bits of pow remain (see PowAsWritten for the
        loop as the library writes it). pow may be this object. */
    method Pow(p: UInt) returns (status: nat)
      requires Valid() && p.Valid() && p.w == w && p.size == size
      modifies table
      ensures Valid() && status <= 2
      ensures status == 2 <==> old(Value()) == 0 && old(p.Value()) == 0
      ensures status != 2 ==> (status == 1 <==> Power(old(Value()), old(p.Value())) >= Cap())
      ensures status == 0 ==> Value() == Power(old(Value()), old(p.Value()))
      ensures status != 0 ==> Value() == old(Value())
    {
      var powZero := p.IsZero();
      var zero := IsZero();
      if powZero && zero {
        return 2;
      }
      var carry, result := PowLoop(p);
      if carry == 1 {
        return 1;
      }
      Assign(result);
      status := 0;
    }

    /** The loop of Pow: the power of this to p into a new result from 1, with the running
        square in a copy of this and the exponent in a copy of p. 1 when a multiplication
        does not fit, which happens exactly when the power does not fit. */
    method PowLoop(p: UInt) returns (carry: nat, result: UInt)
      requires Valid() && p.Valid() && p.w == w && p.size == size
      ensures result.Valid() && result.w == w && result.size == size && fresh(result.table)
      ensures carry <= 1
      ensures carry == 1 <==> Power(Value(), p.Value()) >= Cap()
      ensures carry == 0 ==> result.Value() == Power(Value(), p.Value())
    {
      ghost var T := Power(Value(), p.Value());
      var pow := new UInt.Copy(p);
      var start := new UInt.Copy(this);
      var startTemp := new UInt(w, size);
      result := new UInt(w, size);
      result.SetOne();
      assert result.Value() * Power(start.Value(), pow.Value()) == T by {
        assert start.Value() == Value() && pow.Value() == p.Value();
      }
      var done := pow.IsZero();
      while !done
        invariant pow.Valid() && start.Valid() && startTemp.Valid() && result.Valid()
        invariant pow.w == w && start.w == w && startTemp.w == w && result.w == w
        invariant pow.size == size && start.size == size && startTemp.size == size && result.size == size
        invariant fresh(pow.table) && fresh(start.table) && fresh(startTemp.table) && fresh(result.table)
        invariant start.table != startTemp.table && start.table != result.table
        invariant start.table != pow.table && result.table != pow.table && startTemp.table != pow.table
        invariant startTemp.table != result.table
        invariant done <==> pow.Value() == 0
        invariant result.Value() * Power(start.Value(), pow.Value()) == T
        invariant start.Value() != 0 ==> result.Value() != 0
        decreases pow.Value()
      {
        carry, done := result.PowPass(start, startTemp, pow, T);
        if carry == 1 {
          return;
        }
      }
      ghost var R: int, S := result.Value(), start.Value();
      assert R * Power(S, 0) == T && Power(S, 0) == 1;
      assert R == T;
      ValBound(result.table[..], w);
      carry := 0;
    }

    /** One pass of the Pow loop on the running result (this), the running square start and
        the exponent pow: multiply by start when the low bit of pow is set, shift pow right
        by one, and square start while bits of pow remain. The product this * start^pow
        stays at T; 1 is returned when a multiplication does not fit, and then T does not
        fit either. */
    method PowPass(start: UInt, startTemp: UInt, pow: UInt, ghost T: nat) returns (carry: nat, done: bool)
      requires Valid() && start.Valid() && startTemp.Valid() && pow.Valid()
      requires start.w == w && startTemp.w == w && pow.w == w
      requires start.size == size && startTemp.size == size && pow.size == size
      requires table != start.table && table != startTemp.table && table != pow.table
      requires start.table != startTemp.table && start.table != pow.table && startTemp.table != pow.table
      requires pow.Value() != 0 && Value() * Power(start.Value(), pow.Value()) == T
      requires start.Value() != 0 ==> Value() != 0
      modifies table, start.table, startTemp.table, pow.table
      ensures Valid() && start.Valid() && startTemp.Valid() && pow.Valid() && carry <= 1
      ensures carry == 1 ==> T >= Cap()
      ensures carry == 0 ==> Value() * Power(start.Value(), pow.Value()) == T
      ensures carry == 0 ==> (start.Value() != 0 ==> Value() != 0)
      ensures carry == 0 ==> (done <==> pow.Value() == 0) && pow.Value() < old(pow.Value())
    {
      ghost var r, s, n := Value(), start.Value(), pow.Value();
      PowStep(r, s, n, T);
      done := false;
      if pow.IsTheLowestBitSet() {
        carry := Mul(start, 2);
        if carry == 1 {
          ProductOverflowPersists(r, s, n, Cap());
          return;
        }
        assert s != 0 ==> Value() != 0 by {
          if s != 0 {
            MulMonotone(1, r, s);
          }
        }
      }
      ghost var r1 := Value();
      var last := pow.Rcr2_one(0);
      ShrFillHalf(n, Width());
      done := pow.IsZero();
      carry := 0;
      if !done {
        startTemp.Assign(start);
        carry := start.Mul(startTemp, 2);
        if carry == 1 {
          assert s * s >= Cap() >= 1;
          assert s != 0 && r1 != 0 && n / 2 >= 1;
          SquareOverflowPersists(r1, s, n / 2, Cap());
          return;
        }
        assert s != 0 ==> s * s != 0 by {
          if s != 0 {
            MulMonotone(1, s, s);
          }
        }
      }
    }

    /** The digits of the value in base b, most significant first: repeated DivInt by b,
        each remainder put in front; "0" for zero, and the empty string for a base outside
        2..16. */
    method ToString(b: nat) returns (result: string)
      requires Valid()
      ensures 2 <= b <= 16 ==> result == ToDigits(Value(), b)
      ensures !(2 <= b <= 16) ==> result == ""
    {
      var temp := new UInt.Copy(this);
      result := "";
      if b < 2 || b > 16 {
        return;
      }
      assert b < Pow2(w) by {
        Pow2Le(8, w);
        assert Pow2(8) == 256;
      }
      ghost var X := Value();
      var done := false;
      while !done
        invariant temp.Valid() && temp.w == w && temp.size == size && fresh(temp.table)
        invariant done ==> result == ToDigits(X, b)
        invariant !done ==> ToDigits(X, b) == ToDigits(temp.Value(), b) + result
        decreases temp.Value() + (if done then 0 else 1)
      {
        ghost var v := temp.Value();
        var status, rem := temp.DivInt(b);
        result := [DigitToChar(rem)] + result;
        done := temp.IsZero();
        if v < b {
          SmallDivMod(v, b);
        } else {
          QuotientPositive(v, b);
        }
      }
    }

    /** SkipWhiteCharacters: the first index from i that is not ' ', '\t', 13 or '\n'. */
    static method SkipWhiteCharacters(s: string, i: nat) returns (j: nat)
      requires i <= |s|
      ensures j == SkipWhite(s, i)
    {
      j := i;
      while j < |s| && IsWhite(s[j])
        invariant i <= j <= |s| && SkipWhite(s, j) == SkipWhite(s, i)
      {
        j := j + 1;
      }
    }

    /** The value of the digits in base b that follow the white space at the start of s:
        the longest run of digits below b is read (either case of a letter), and reading
        stops at the first other character. Returns 1 for a base outside 2..16 (the value
        is then zero) or when the digits do not fit, the index after the run (after the
        white space for a bad base), and whether a digit was read. */
    method FromString(s: string, b: nat) returns (carry: nat, after: nat, valueRead: bool)
      requires Valid() && b < Pow2(w)
      modifies table
      ensures Valid() && carry <= 1
      ensures var st := SkipWhite(s, 0);
        if !(2 <= b <= 16) then carry == 1 && after == st && !valueRead && Value() == 0
        else
          after == DigitRunEnd(s, st, b) && (valueRead <==> after > st)
          && (carry == 1 <==> DigitsValue(s[st..after], b) >= Cap())
          && (carry == 0 ==> Value() == DigitsValue(s[st..after], b))
    {
      var baseU := new UInt(w, size);
      baseU.FromUIntWord(b);
      var temp := new UInt(w, size);
      SetZero();
      temp.SetZero();
      var i := SkipWhiteCharacters(s, 0);
      after := i;
      valueRead := false;
      if b < 2 || b > 16 {
        return 1, after, valueRead;
      }
      carry, after, valueRead := ReadDigits(s, i, b, baseU, temp);
    }

    /** The digit loop of FromString from index st: each digit below b is read, and
        accumulated while no carry has occurred; the digits after a carry are skipped. */
    method ReadDigits(s: string, st: nat, b: nat, baseU: UInt, temp: UInt) returns (carry: nat, after: nat, valueRead: bool)
      requires Valid() && temp.Valid() && baseU.Valid()
      requires temp.w == w && temp.size == size && baseU.w == w && baseU.size == size
      requires temp.table != table && baseU.table != table && temp.table != baseU.table
      requires st <= |s| && 2 <= b < Pow2(w) && Value() == 0 && baseU.Value() == b
      requires forall j :: 1 <= j < size ==> temp.table[j] == 0
      modifies table, temp.table
      ensures Valid() && carry <= 1
      ensures after == DigitRunEnd(s, st, b) && (valueRead <==> after > st)
      ensures carry == 1 <==> DigitsValue(s[st..after], b) >= Cap()
      ensures carry == 0 ==> Value() == DigitsValue(s[st..after], b)
    {
      var c: nat := 0;
      var i := st;
      valueRead := false;
      assert s[st..i] == [];
      while i < |s| && CharToDigit(s[i], b) != -1
        invariant st <= i <= |s| && AllDigits(s[st..i], b)
        invariant Valid() && temp.Valid() && baseU.Valid()
        invariant baseU.Value() == b
        invariant forall j :: 1 <= j < size ==> temp.table[j] == 0
        invariant valueRead <==> i > st
        invariant c == 0 ==> Value() == DigitsValue(s[st..i], b)
        invariant c != 0 ==> DigitsValue(s[st..i], b) >= Cap()
      {
        valueRead := true;
        ghost var D := DigitsValue(s[st..i], b);
        DigitsExtend(s, st, i, b);
        if c == 0 {
          c := ReadDigit(s, st, i, b, baseU, temp);
        }
        assert c != 0 ==> DigitsValue(s[st..i + 1], b) >= Cap();
        i := i + 1;
      }
      after := i;
      RunEndsAt(s, st, i, b);
      if c == 0 {
        ValBound(table[..], w);
      }
      carry := if c == 0 then 0 else 1;
    }

    /** A digit read while no carry has occurred: with this holding the value of
        s[st..i], accumulate s[i]; a carry means the value of s[st..i + 1] does not fit. */
    method ReadDigit(s: string, st: nat, i: nat, b: nat, baseU: UInt, temp: UInt) returns (c: nat)
      requires Valid() && temp.Valid() && baseU.Valid()
      requires temp.w == w && temp.size == size && baseU.w == w && baseU.size == size
      requires temp.table != table && baseU.table != table && temp.table != baseU.table
      requires st <= i < |s| && 2 <= b < Pow2(w) && baseU.Value() == b
      requires AllDigits(s[st..i], b) && CharToDigit(s[i], b) != -1
      requires Value() == DigitsValue(s[st..i], b)
      requires forall j :: 1 <= j < size ==> temp.table[j] == 0
      modifies table, temp.table
      ensures Valid() && temp.Valid() && forall j :: 1 <= j < size ==> temp.table[j] == 0
      ensures AllDigits(s[st..i + 1], b)
      ensures c == 0 ==> Value() == DigitsValue(s[st..i + 1], b)
      ensures c != 0 ==> DigitsValue(s[st..i + 1], b) >= Cap()
    {
      DigitsExtend(s, st, i, b);
      c := FromStringDigit(baseU, temp, b, CharToDigit(s[i], b));
    }

    /** One digit of FromString: temp takes the digit z, then this = this * base + temp.
        Returns the carries of the multiplication and the addition; none means the new
        value is exact, any means the exact value does not fit. */
    method FromStringDigit(baseU: UInt, temp: UInt, b: nat, z: nat) returns (c: nat)
      requires Valid() && temp.Valid() && baseU.Valid()
      requires temp.w == w && temp.size == size && baseU.w == w && baseU.size == size
      requires temp.table != table && baseU.table != table && temp.table != baseU.table
      requires baseU.Value() == b && z < b && z < Pow2(w)
      requires forall j :: 1 <= j < size ==> temp.table[j] == 0
      modifies table, temp.table
      ensures Valid() && temp.Valid() && forall j :: 1 <= j < size ==> temp.table[j] == 0
      ensures c == 0 ==> Value() == old(Value()) * b + z
      ensures c != 0 ==> old(Value()) * b + z >= Cap()
    {
      ghost var V: int := Value();
      temp.table[0] := z;
      assert temp.Value() == z by {
        ghost var t := temp.table[..];
        assert t[..1] == [z];
        ValHighZero(t, 1, w);
        ValSingle(z, w);
      }
      var m := Mul(baseU, 2);
      ghost var P: int := V * b;
      assert m == 1 <==> P >= Cap();
      assert m == 0 ==> Value() == P;
      var a := Add(temp, 0);
      c := m + a;
    }

    /** The number of low words a comparison with the given start index looks at: all of
        them for index -1 or an index past the top word, index + 1 words otherwise, and
        none for an index below -1. */
    function CmpWords(index: int): (k: nat)
      ensures k <= size
      ensures index == -1 ==> k == size
    {
      if index == -1 || index >= size then size else if index < 0 then 0 else index + 1
    }

    /** The highest of the low k words in which this and l differ, or -1 when they agree. */
    method FirstDifference(l: UInt, k: nat) returns (i: int)
      requires Valid() && l.Valid() && l.size == size && k <= size
      ensures -1 <= i < k
      ensures forall j :: i < j < k ==> table[j] == l.table[j]
      ensures i >= 0 ==> table[i] != l.table[i]
    {
      i := k - 1;
      while i >= 0 && table[i] == l.table[i]
        invariant -1 <= i < k
        invariant forall j :: i < j < k ==> table[j] == l.table[j]
      {
        i := i - 1;
      }
    }

    /** this < l on the low CmpWords(index) words, compared from the top word down. */
    method CmpSmaller(l: UInt, index: int) returns (r: bool)
      requires Valid() && l.Valid() && l.w == w && l.size == size
      ensures r <==> Val(table[..CmpWords(index)], w) < Val(l.table[..CmpWords(index)], w)
      ensures index == -1 ==> (r <==> Value() < l.Value())
    {
      var k := CmpWords(index);
      var i := FirstDifference(l, k);
      PrefixCompare(table[..], l.table[..], k, i, w);
      r := i >= 0 && table[i] < l.table[i];
      assert table[..size] == table[..] && l.table[..size] == l.table[..];
    }

    /** this > l on the low CmpWords(index) words. */
    method CmpBigger(l: UInt, index: int) returns (r: bool)
      requires Valid() && l.Valid() && l.w == w && l.size == size
      ensures r <==> Val(table[..CmpWords(index)], w) > Val(l.table[..CmpWords(index)], w)
      ensures index == -1 ==> (r <==> Value() > l.Value())
    {
      var k := CmpWords(index);
      var i := FirstDifference(l, k);
      PrefixCompare(table[..], l.table[..], k, i, w);
      r := i >= 0 && table[i] > l.table[i];
      assert table[..size] == table[..] && l.table[..size] == l.table[..];
    }

    /** this == l on the low CmpWords(index) words. */
    method CmpEqual(l: UInt, index: int) returns (r: bool)
      requires Valid() && l.Valid() && l.w == w && l.size == size
      ensures r <==> Val(table[..CmpWords(index)], w) == Val(l.table[..CmpWords(index)], w)
      ensures index == -1 ==> (r <==> Value() == l.Value())
    {
      var k := CmpWords(index);
      var i := FirstDifference(l, k);
      PrefixCompare(table[..], l.table[..], k, i, w);
      r := i < 0;
      assert table[..size] == table[..] && l.table[..size] == l.table[..];
    }

    /** this <= l on the low CmpWords(index) words. */
    method CmpSmallerEqual(l: UInt, index: int) returns (r: bool)
      requires Valid() && l.Valid() && l.w == w && l.size == size
      ensures r <==> Val(table[..CmpWords(index)], w) <= Val(l.table[..CmpWords(index)], w)
      ensures index == -1 ==> (r <==> Value() <= l.Value())
    {
      var k := CmpWords(index);
      var i := FirstDifference(l, k);
      PrefixCompare(table[..], l.table[..], k, i, w);
      r := i < 0 || table[i] < l.table[i];
      assert table[..size] == table[..] && l.table[..size] == l.table[..];
    }

    /** this >= l on the low CmpWords(index) words. */
    method CmpBiggerEqual(l: UInt, index: int) returns (r: bool)
      requires Valid() && l.Valid() && l.w == w && l.size == size
      ensures r <==> Val(table[..CmpWords(index)], w) >= Val(l.table[..CmpWords(index)], w)
      ensures index == -1 ==> (r <==> Value() >= l.Value())
    {
      var k := CmpWords(index);
      var i := FirstDifference(l, k);
      PrefixCompare(table[..], l.table[..], k, i, w);
      r := i < 0 || table[i] > l.table[i];
      assert table[..size] == table[..] && l.table[..size] == l.table[..];
    }

    /** this = this / divisor for a word divisor, returning the remainder. A zero divisor
        returns status 1 and changes nothing; a divisor of 1 changes nothing. Otherwise the
        words are divided from the highest nonzero word down, one double-word division per
        word, the running remainder being the high word of the next. */
    method DivInt(divisor: nat) returns (status: nat, remainder: nat)
      requires Valid() && divisor < Pow2(w)
      modifies table
      ensures Valid()
      ensures divisor == 0 ==> status == 1 && remainder == 0 && table[..] == old(table[..])
      ensures divisor == 1 ==> status == 0 && remainder == 0 && table[..] == old(table[..])
      ensures divisor != 0 ==> status == 0
      ensures divisor != 0 ==> Value() == old(Value()) / divisor
      ensures divisor != 0 ==> remainder == old(Value()) % divisor
    {
      if divisor == 0 {
        return 1, 0;
      }
      if divisor == 1 {
        DivModUnique(Value(), 1, Value(), 0);
        return 0, 0;
      }
      var d := table[..];
      SetZero();
      var i: int := size - 1;
      while i > 0 && d[i] == 0
        invariant 0 <= i < size
        invariant forall j :: i < j < size ==> d[j] == 0
      {
        i := i - 1;
      }
      remainder := DivIntFrom(d, i, divisor);
      status := 0;
    }

    /** The division loop of DivInt over the saved dividend d, from word top down, into the
        cleared words of this; the words above top are zero. */
    method DivIntFrom(d: seq<nat>, top: nat, divisor: nat) returns (r: nat)
      requires Valid() && Value() == 0 && IsWords(d, w) && |d| == size && top < size
      requires 1 < divisor < Pow2(w)
      requires forall j :: top < j < size ==> d[j] == 0
      modifies table
      ensures Valid() && Value() == Val(d, w) / divisor && r == Val(d, w) % divisor
    {
      ZeroTop(d, top + 1, w);
      SmallDivMod(0, divisor);
      ValZero(table[..], w);
      var i: int := top;
      r := 0;
      while i >= 0
        invariant -1 <= i < size
        invariant Valid()
        invariant forall j :: 0 <= j <= i ==> table[j] == 0
        invariant r == Val(d[i + 1..], w) % divisor
        invariant Value() == (Val(d[i + 1..], w) / divisor) * WPow(w, i + 1)
      {
        var qr := DivTwoWords(r, d[i], divisor, w);
        DivIntStep(d, i, r, qr.0, qr.1, divisor, w);
        ghost var t := table[..];
        ValUpdate(t, i, qr.0, w);
        WordsUpdate(t, i, qr.0, w);
        table[i] := qr.0;
        assert table[..] == t[i := qr.0];
        r := qr.1;
        i := i - 1;
      }
      assert d[0..] == d;
    }

    /** The index of the highest nonzero word, or 0 when every word is zero. */
    method HighestWord() returns (m: nat)
      requires Valid()
      ensures m < size && forall j :: m < j < size ==> table[j] == 0
      ensures table[m] == 0 <==> Value() == 0
      ensures table[m] == 0 ==> m == 0
      ensures table[m] != 0 ==> WPow(w, m) <= Value() < WPow(w, m + 1)
    {
      m := size - 1;
      while m != 0 && table[m] == 0
        invariant m < size
        invariant forall j :: m < j < size ==> table[j] == 0
      {
        m := m - 1;
      }
      if table[m] == 0 {
        ValZero(table[..], w);
      } else {
        TopWordBounds(table[..], m, w);
      }
    }

    /** Div_CalculatingSize: classifies a division this / v. It gives 1 when v is zero, 2 when
        this is zero, 3 when this is smaller than v, 4 when they are equal, and 0 when this
        is bigger; in that case m and n index the highest nonzero words of this and v. */
    method DivCalculatingSize(v: UInt) returns (status: nat, m: nat, n: nat)
      requires Valid() && v.Valid() && v.w == w && v.size == size
      ensures status <= 4
      ensures status == 1 <==> v.Value() == 0
      ensures status == 2 <==> v.Value() != 0 && Value() == 0
      ensures status == 3 <==> v.Value() != 0 && Value() != 0 && Value() < v.Value()
      ensures status == 4 <==> v.Value() != 0 && Value() != 0 && Value() == v.Value()
      ensures status == 0 <==> v.Value() != 0 && Value() > v.Value()
      ensures status == 0 ==> n <= m < size && table[m] != 0 && v.table[n] != 0
      ensures status == 0 ==> forall j :: m < j < size ==> table[j] == 0
      ensures status == 0 ==> forall j :: n < j < size ==> v.table[j] == 0
    {
      m := 0;
      n := v.HighestWord();
      if n == 0 && v.table[n] == 0 {
        return 1, m, n;
      }
      m := HighestWord();
      if m == 0 && table[m] == 0 {
        return 2, m, n;
      }
      if m < n {
        WPowLe(w, m + 1, n);
        return 3, m, n;
      } else if m == n {
        var cmp := CompareBelow(v, n);
        if cmp != 0 {
          return cmp, m, n;
        }
      } else {
        WPowLe(w, n + 1, m);
      }
      status := 0;
    }

    /** The comparison step of DivCalculatingSize when this and v have the same highest
        word n: words are compared from n down to the first that differs (or word 0);
        3 when this is smaller, 4 when they are equal, 0 when this is bigger. */
    method CompareBelow(v: UInt, n: nat) returns (status: nat)
      requires Valid() && v.Valid() && v.w == w && v.size == size && n < size
      requires forall j :: n < j < size ==> table[j] == 0 && v.table[j] == 0
      ensures status == 3 || status == 4 || status == 0
      ensures status == 3 <==> Value() < v.Value()
      ensures status == 4 <==> Value() == v.Value()
      ensures status == 0 <==> Value() > v.Value()
    {
      var i: nat := n;
      assert i < table.Length && i < v.table.Length;
      while i != 0 && table[i] == v.table[i]
        invariant i <= n
        invariant forall j :: i < j <= n ==> table[j] == v.table[j]
      {
        i := i - 1;
      }
      ValHighZero(table[..], n + 1, w);
      ValHighZero(v.table[..], n + 1, w);
      if table[i] == v.table[i] {
        PrefixCompare(table[..], v.table[..], n + 1, -1, w);
        return 4;
      }
      PrefixCompare(table[..], v.table[..], n + 1, i, w);
      status := if table[i] < v.table[i] then 3 else 0;
    }

    /** Div_StandardTest: settles the divisions that need no loop. It gives 1 when v is
        zero (nothing changes), 0 when the division is already done (this is zero, smaller
        than v or equal to it; the quotient is stored and the remainder set), and 2 when
        this is bigger than v, with m and n as DivCalculatingSize gives them. */
    method DivStandardTest(v: UInt, remainder: UInt) returns (status: nat, m: nat, n: nat)
      requires Valid() && v.Valid() && v.w == w && v.size == size
      requires remainder.Valid() && remainder.w == w && remainder.size == size
      requires remainder.table != table && remainder.table != v.table
      modifies table, remainder.table
      ensures Valid() && remainder.Valid() && status <= 2
      ensures status == 1 <==> old(v.Value()) == 0
      ensures status == 2 <==> old(v.Value()) != 0 && old(Value()) > old(v.Value())
      ensures status != 0 ==> table[..] == old(table[..])
      ensures status != 0 ==> remainder.table[..] == old(remainder.table[..])
      ensures status == 0 ==> Value() == old(Value()) / old(v.Value())
      ensures status == 0 ==> remainder.Value() == old(Value()) % old(v.Value())
      ensures status == 2 ==> n <= m < size && table[m] != 0 && v.table[n] != 0
      ensures status == 2 ==> forall j :: m < j < size ==> table[j] == 0
      ensures status == 2 ==> forall j :: n < j < size ==> v.table[j] == 0
    {
      ghost var X, V := Value(), v.Value();
      var cs;
      cs, m, n := DivCalculatingSize(v);
      if cs == 4 {
        remainder.SetZero();
        SetOne();
        DivModUnique(X, V, 1, 0);
        return 0, m, n;
      } else if cs == 3 {
        remainder.Assign(this);
        SetZero();
        SmallDivMod(X, V);
        return 0, m, n;
      } else if cs == 2 {
        remainder.SetZero();
        SetZero();
        DivModUnique(X, V, 0, 0);
        return 0, m, n;
      } else if cs == 1 {
        return 1, m, n;
      }
      status := 2;
    }

    /** Div1: the radix-2 division this = this / divisor, remainder = this % divisor. It
        gives 1 on division by zero, changing nothing, and 0 otherwise. */
    method Div1(divisor: UInt, remainder: UInt) returns (status: nat)
      requires Valid() && divisor.Valid() && divisor.w == w && divisor.size == size
      requires remainder.Valid() && remainder.w == w && remainder.size == size
      requires remainder.table != table && remainder.table != divisor.table
      modifies table, remainder.table
      ensures Valid() && remainder.Valid() && status <= 1
      ensures status == 1 <==> old(divisor.Value()) == 0
      ensures status == 1 ==> table[..] == old(table[..])
      ensures status == 1 ==> remainder.table[..] == old(remainder.table[..])
      ensures status == 0 ==> Value() == old(Value()) / old(divisor.Value())
      ensures status == 0 ==> remainder.Value() == old(Value()) % old(divisor.Value())
    {
      var m, n;
      status, m, n := DivStandardTest(divisor, remainder);
      if status < 2 {
        return;
      }
      status := Div1Calculate(divisor, remainder);
    }

    /** Div1_Calculate: the non-restoring radix-2 loop. Each step shifts the next bit of the
        dividend out of the top of this into the remainder rest, and the quotient bit it
        finds in at the bottom; rest holds either the partial remainder or, after a step
        that found a zero bit, the partial remainder minus the divisor, modulo 2^Width().
        The divisor is a different object from this. */
    method Div1Calculate(divisor: UInt, rest: UInt) returns (status: nat)
      requires Valid() && divisor.Valid() && divisor.w == w && divisor.size == size
      requires rest.Valid() && rest.w == w && rest.size == size
      requires divisor.table != table && rest.table != table && rest.table != divisor.table
      requires divisor.Value() != 0
      modifies table, rest.table
      ensures Valid() && rest.Valid() && status == 0
      ensures Value() == old(Value()) / divisor.Value()
      ensures rest.Value() == old(Value()) % divisor.Value()
    {
      ghost var X, D, T := Value(), divisor.Value(), Width();
      assert X < Pow2(T) && D < Pow2(T) && Cap() == Pow2(T) by {
        ValBound(table[..], w);
        ValBound(divisor.table[..], w);
        WPowIsPow2(w, size);
      }
      rest.SetZero();
      var loop: nat := size * w;
      var c: nat := 0;
      var positive := true;
      Div1Start(X, D, T);
      ghost var i: nat := 0;
      while loop > 0
        invariant Valid() && rest.Valid() && i + loop == T
        invariant Div1Invariant(Value(), c, rest.Value(), positive, X, D, T, i)
      {
        c := Div1Step(divisor, rest, c, positive, X, D, i);
        positive := c == 1;
        loop := loop - 1;
        i := i + 1;
      }
      Div1Final(divisor, rest, c, positive, X, D);
      status := 0;
    }

    /** The end of Div1Calculate: the last quotient bit moves in, and the remainder
        register is corrected by adding the divisor back when the last step left it
        negative. */
    method Div1Final(divisor: UInt, rest: UInt, c: nat, positive: bool, ghost X: nat, ghost D: nat)
      requires Valid() && divisor.Valid() && divisor.w == w && divisor.size == size
      requires rest.Valid() && rest.w == w && rest.size == size
      requires divisor.table != table && rest.table != table && rest.table != divisor.table
      requires D == divisor.Value() && D != 0 && X < Pow2(Width()) && Cap() == Pow2(Width())
      requires Div1Invariant(Value(), c, rest.Value(), positive, X, D, Width(), Width())
      modifies table, rest.table
      ensures Valid() && rest.Valid()
      ensures Value() == X / D && rest.Value() == X % D
    {
      Div1Finish(X, D, Width(), Value(), c, rest.Value(), positive);
      ghost var r := rest.Value();
      var last := Rcl(1, c);
      assert rest.Value() == r;
      if !positive {
        assert X % D < D by { DivNat(X, D); }
        var carry := rest.Add(divisor, 0);
        assert rest.Value() < Cap() by { ValBound(rest.table[..], w); }
        assert rest.Value() + carry * Cap() == X % D + Cap();
      }
    }

    /** One step of Div1Calculate after i steps: the next dividend bit moves from the top
        of this into rest, and the quotient bit found joins this from the bottom. */
    method Div1Step(divisor: UInt, rest: UInt, c: nat, positive: bool,
                    ghost X: nat, ghost D: nat, ghost i: nat) returns (q: nat)
      requires Valid() && divisor.Valid() && divisor.w == w && divisor.size == size
      requires rest.Valid() && rest.w == w && rest.size == size
      requires divisor.table != table && rest.table != table && rest.table != divisor.table
      requires D == divisor.Value() && D != 0 && X < Pow2(Width()) && i < Width()
      requires Cap() == Pow2(Width())
      requires Div1Invariant(Value(), c, rest.Value(), positive, X, D, Width(), i)
      modifies table, rest.table
      ensures Valid() && rest.Valid()
      ensures Div1Invariant(Value(), q, rest.Value(), q == 1, X, D, Width(), i + 1)
    {
      ghost var T, R := Width(), TopRem(X, D, Width(), i);
      Div1Shift(X, D, T, i, Value(), c);
      assert D < Pow2(T) by { ValBound(divisor.table[..], w); }
      assert R < D by { DivNat(Shr(X, T - i), D); }
      var bit := Rcl(1, c);
      assert positive ==> 2 * R + bit < Cap() by {
        if positive {
          Div1PositiveNoCarry(X, D, T, i);
        }
      }
      q := Div1RestStep(divisor, rest, bit, positive, R);
      Div1Recurrence(X, D, T, i);
    }

    /** The remainder half of a step: rest holds the partial remainder R (positive mode) or
        R - divisor modulo 2^Width(), and takes 2R + bit, less the divisor when that
        reaches it (quotient bit q = 1). In the positive mode, as in the library, the
        carry out of rest + rest goes into the subtraction and the quotient bit is the
        negated borrow; that carry is 0 because 2R + bit fits, which every reachable
        positive state satisfies (LongDiv.Div1PositiveNoCarry). In the negative mode the
        two carries together make the quotient bit, where the library keeps only the
        second. */
    method Div1RestStep(divisor: UInt, rest: UInt, bit: nat, positive: bool, ghost R: nat)
      returns (q: nat)
      requires divisor.Valid() && divisor.w == w && divisor.size == size
      requires rest.Valid() && rest.w == w && rest.size == size && rest.table != divisor.table
      requires Cap() == Pow2(Width()) && bit <= 1 && R < divisor.Value()
      requires rest.Value() == R + (if positive then 0 else Cap() - divisor.Value())
      requires positive ==> 2 * R + bit < Cap()
      modifies rest.table
      ensures rest.Valid() && q <= 1
      ensures q == 1 <==> 2 * R + bit >= divisor.Value()
      ensures rest.Value() == 2 * R + bit - divisor.Value() + (if q == 1 then 0 else Cap())
    {
      ghost var D, C := divisor.Value(), Cap();
      assert D < C by { ValBound(divisor.table[..], w); }
      var c1 := rest.Add(rest, bit);
      ghost var r1 := rest.Value();
      assert r1 < C by { ValBound(rest.table[..], w); }
      if positive {
        assert c1 == 0;
        var borrow := rest.Sub(divisor, c1);
        ghost var r2 := rest.Value();
        assert r2 < C by { ValBound(rest.table[..], w); }
        Div1PositiveStep(R, bit, D, C, r1, c1, r2, borrow);
        q := if borrow == 0 then 1 else 0;
      } else {
        var c2 := rest.Add(divisor, 0);
        ghost var r2 := rest.Value();
        assert r2 < C by { ValBound(rest.table[..], w); }
        Div1NegativeStep(R, bit, D, C, r1, c1, r2, c2);
        q := if c1 == 1 && c2 == 1 then 1 else 0;
      }
    }

    /** Div2: the recursive radix-2 division this = this / divisor, remainder =
        this % divisor. Each level subtracts the largest divisor * 2^k not above this and
        sets quotient bit k on top of the quotient of the rest. It gives 1 on division by
        zero, changing nothing, and 0 otherwise. The divisor is a different object from
        this. */
    method Div2(divisor: UInt, remainder: UInt) returns (status: nat)
      requires Valid() && divisor.Valid() && divisor.w == w && divisor.size == size
      requires remainder.Valid() && remainder.w == w && remainder.size == size
      requires divisor.table != table
      requires remainder.table != table && remainder.table != divisor.table
      modifies table, remainder.table
      ensures Valid() && remainder.Valid() && status <= 1
      ensures status == 1 <==> divisor.Value() == 0
      ensures status == 1 ==> table[..] == old(table[..])
      ensures status == 1 ==> remainder.table[..] == old(remainder.table[..])
      ensures status == 0 ==> Value() == old(Value()) / divisor.Value()
      ensures status == 0 ==> remainder.Value() == old(Value()) % divisor.Value()
      decreases Value()
    {
      ghost var X, D := Value(), divisor.Value();
      var bitsDiff;
      status, bitsDiff := Div2Calculate(divisor, remainder);
      if status < 2 {
        return;
      }
      Div2Combine(X, D, bitsDiff);
      ghost var Y := Value();
      var ge := CmpBiggerEqual(divisor, -1);
      if ge {
        var _ := Div2(divisor, remainder);
      } else {
        remainder.Assign(this);
        SetZero();
        SmallDivMod(Y, D);
      }
      assert Value() == Y / D < Pow2(bitsDiff);
      BitHigh(Value(), bitsDiff, bitsDiff);
      var res := SetBit(bitsDiff);
      assert res == 0 && Value() == Y / D + Pow2(bitsDiff);
      status := 0;
    }

    /** Div2_Calculate: after the checks of Div2FindLeadingBitsAndCheck (status 0 or 1),
        moves the divisor up to the leading bit of this, one bit less when that exceeds
        this, and subtracts it: this becomes this - divisor * 2^bitsDiff, where
        divisor * 2^bitsDiff <= this < 2 * divisor * 2^bitsDiff (status 2). */
    method Div2Calculate(divisor: UInt, remainder: UInt) returns (status: nat, bitsDiff: nat)
      requires Valid() && divisor.Valid() && divisor.w == w && divisor.size == size
      requires remainder.Valid() && remainder.w == w && remainder.size == size
      requires divisor.table != table
      requires remainder.table != table && remainder.table != divisor.table
      modifies table, remainder.table
      ensures Valid() && remainder.Valid() && status <= 2
      ensures status == 1 <==> divisor.Value() == 0
      ensures status != 0 ==> remainder.table[..] == old(remainder.table[..])
      ensures status == 1 ==> table[..] == old(table[..])
      ensures status == 0 ==> Value() == old(Value()) / divisor.Value()
      ensures status == 0 ==> remainder.Value() == old(Value()) % divisor.Value()
      ensures status == 2 ==> bitsDiff < Width() && divisor.Value() != 0
      ensures status == 2 ==> divisor.Value() * Pow2(bitsDiff) <= old(Value())
                                < 2 * (divisor.Value() * Pow2(bitsDiff))
      ensures status == 2 ==> Value() == old(Value()) - divisor.Value() * Pow2(bitsDiff)
    {
      ghost var X, D, T := Value(), divisor.Value(), Width();
      var tableId, index, divisorTableId, divisorIndex;
      bitsDiff := 0;
      status, tableId, index, divisorTableId, divisorIndex := Div2FindLeadingBitsAndCheck(divisor, remainder);
      if status < 2 {
        return;
      }
      var divisorCopy;
      divisorCopy, bitsDiff := Div2ShiftedDivisor(divisor, tableId, index, divisorIndex);
      var borrow := Sub(divisorCopy, 0);
      assert borrow == 0;
    }

    /** The part of Div2_Calculate that moves a copy of the divisor up by bitsDiff bits,
        to the leading bit of this, or one bit less when that exceeds this; the words
        from tableId down are compared, those above being zero in both. */
    method Div2ShiftedDivisor(divisor: UInt, tableId: nat, index: nat, divisorIndex: nat)
      returns (divisorCopy: UInt, bitsDiff: nat)
      requires Valid() && divisor.Valid() && divisor.w == w && divisor.size == size
      requires divisor.Value() != 0 && Value() > divisor.Value()
      requires tableId < size && w * tableId <= index < w * tableId + w
      requires Pow2(index) <= Value() < Pow2(index + 1)
      requires Pow2(divisorIndex) <= divisor.Value() < Pow2(divisorIndex + 1)
      requires divisorIndex <= index
      ensures fresh(divisorCopy.table) && divisorCopy.Valid()
      ensures divisorCopy.w == w && divisorCopy.size == size
      ensures bitsDiff < Width() && divisorCopy.Value() == divisor.Value() * Pow2(bitsDiff)
      ensures divisorCopy.Value() <= Value() < 2 * divisorCopy.Value()
    {
      ghost var X, D, T := Value(), divisor.Value(), Width();
      assert X < Pow2(T) && index < T by {
        ValBound(table[..], w);
        WPowIsPow2(w, size);
        if index >= T {
          Pow2Le(T, index);
        }
      }
      bitsDiff := index - divisorIndex;
      Div2Window(X, D, index, divisorIndex, bitsDiff);
      Pow2Le(index + 1, T);
      divisorCopy := ShiftedCopy(divisor, bitsDiff);
      assert Pow2(index + 1) <= WPow(w, tableId + 1) by {
        WPowIsPow2(w, tableId + 1);
        Pow2Le(index + 1, w * (tableId + 1));
      }
      assert X < WPow(w, tableId + 1) && divisorCopy.Value() < WPow(w, tableId + 1);
      HighWordsZero(table[..], tableId + 1, w);
      HighWordsZero(divisorCopy.table[..], tableId + 1, w);
      bitsDiff := Div2FitDivisor(divisorCopy, tableId, bitsDiff, D);
    }

    /** A new copy of v moved k bits up, for a product v * 2^k that fits the width. */
    static method ShiftedCopy(v: UInt, k: nat) returns (r: UInt)
      requires v.Valid() && v.Value() * Pow2(k) < Pow2(v.Width())
      ensures fresh(r.table) && r.Valid() && r.w == v.w && r.size == v.size
      ensures r.Value() == v.Value() * Pow2(k)
    {
      r := new UInt.Copy(v);
      var _ := r.Rcl(k, 0);
      if k == 0 {
        assert Pow2(0) == 1;
      } else {
        SmallDivMod(v.Value() * Pow2(k), Pow2(v.Width()));
      }
    }

    /** The end of Div2ShiftedDivisor: when the divisor moved up by k bits, dc, exceeds
        this, it moves one bit back. The comparison looks at the words from tableId down,
        those above being zero in both. */
    method Div2FitDivisor(dc: UInt, tableId: nat, k: nat, ghost D: nat) returns (bitsDiff: nat)
      requires Valid() && dc.Valid() && dc.w == w && dc.size == size && dc.table != table
      requires tableId < size
      requires forall j :: tableId + 1 <= j < size ==> table[..][j] == 0 && dc.table[..][j] == 0
      requires dc.Value() == D * Pow2(k)
      requires Value() >= dc.Value() ==> Value() < 2 * dc.Value()
      requires Value() < dc.Value() ==> k >= 1 && dc.Value() / 2 == D * Pow2(k - 1)
      requires Value() < dc.Value() ==> D * Pow2(k - 1) <= Value() < 2 * (D * Pow2(k - 1))
      modifies dc.table
      ensures dc.Valid() && bitsDiff <= k
      ensures dc.Value() == D * Pow2(bitsDiff) && dc.Value() <= Value() < 2 * dc.Value()
    {
      ghost var X, dv := Value(), dc.Value();
      assert CmpWords(tableId) == tableId + 1;
      assert Val(table[..tableId + 1], w) == X by {
        ValHighZero(table[..], tableId + 1, w);
        assert table[..][..tableId + 1] == table[..tableId + 1];
      }
      assert Val(dc.table[..tableId + 1], w) == dv by {
        ValHighZero(dc.table[..], tableId + 1, w);
        assert dc.table[..][..tableId + 1] == dc.table[..tableId + 1];
      }
      var smaller := CmpSmaller(dc, tableId);
      bitsDiff := k;
      if smaller {
        var _ := dc.Rcr(1, 0);
        assert dc.Value() == dv / 2 by {
          ShrZeroFill(dv, 1, Width());
          assert Pow2(1) == 2;
        }
        bitsDiff := k - 1;
      }
    }

    /** Div2_FindLeadingBitsAndCheck: gives 1 when the divisor is zero; 0 when this is
        zero, when the divisor has a single word (the division goes through DivInt) or
        when the divisor is not below this, with the quotient and remainder stored; and 2
        otherwise, with the leading bits of this and of the divisor counted from bit 0 of
        the value and tableId the word holding the leading bit of this. */
    method Div2FindLeadingBitsAndCheck(divisor: UInt, remainder: UInt)
      returns (status: nat, tableId: nat, index: nat, divisorTableId: nat, divisorIndex: nat)
      requires Valid() && divisor.Valid() && divisor.w == w && divisor.size == size
      requires remainder.Valid() && remainder.w == w && remainder.size == size
      requires divisor.table != table
      requires remainder.table != table && remainder.table != divisor.table
      modifies table, remainder.table
      ensures Valid() && remainder.Valid() && status <= 2
      ensures status == 1 <==> divisor.Value() == 0
      ensures status != 0 ==> table[..] == old(table[..])
      ensures status != 0 ==> remainder.table[..] == old(remainder.table[..])
      ensures status == 0 ==> Value() == old(Value()) / divisor.Value()
      ensures status == 0 ==> remainder.Value() == old(Value()) % divisor.Value()
      ensures status == 2 ==> divisor.Value() != 0 && Value() > divisor.Value()
      ensures status == 2 ==> tableId < size && w * tableId <= index < w * tableId + w
      ensures status == 2 ==> Pow2(index) <= Value() < Pow2(index + 1)
      ensures status == 2 ==> Pow2(divisorIndex) <= divisor.Value() < Pow2(divisorIndex + 1)
      ensures status == 2 ==> divisorIndex <= index
    {
      var found;
      found, divisorTableId, divisorIndex := divisor.FindLeadingBit();
      if !found {
        return 1, 0, 0, divisorTableId, divisorIndex;
      }
      found, tableId, index := FindLeadingBit();
      if !found {
        DivZeroBy(divisor, remainder);
        return 0, tableId, index, divisorTableId, divisorIndex;
      }
      divisorIndex := w * divisorTableId + divisorIndex;
      index := w * tableId + index;
      if divisorTableId == 0 {
        DivByWord(divisor, remainder);
        return 0, tableId, index, divisorTableId, divisorIndex;
      }
      var done := Div2DivisorGreaterOrEqual(divisor, remainder, tableId, index, divisorIndex);
      if done {
        return 0, tableId, index, divisorTableId, divisorIndex;
      }
      status := 2;
    }

    /** Zero divided by a nonzero divisor: quotient and remainder zero. */
    method DivZeroBy(divisor: UInt, remainder: UInt)
      requires Valid() && divisor.Valid() && remainder.Valid() && remainder.w == w
      requires divisor.table != table
      requires remainder.table != table && remainder.table != divisor.table
      requires Value() == 0 && divisor.Value() != 0
      modifies table, remainder.table
      ensures Valid() && remainder.Valid()
      ensures Value() == old(Value()) / divisor.Value()
      ensures remainder.Value() == old(Value()) % divisor.Value()
    {
      SetZero();
      remainder.SetZero();
      DivModUnique(0, divisor.Value(), 0, 0);
    }

    /** The division by a divisor of one word: DivInt divides this, and the remainder word
        becomes word 0 of remainder, whose other words are cleared. */
    method DivByWord(divisor: UInt, remainder: UInt)
      requires Valid() && divisor.Valid() && divisor.w == w && divisor.size == size
      requires remainder.Valid() && remainder.w == w && remainder.size == size
      requires divisor.table != table
      requires remainder.table != table && remainder.table != divisor.table
      requires divisor.table[0] != 0 && forall j :: 0 < j < size ==> divisor.table[j] == 0
      modifies table, remainder.table
      ensures Valid() && remainder.Valid()
      ensures Value() == old(Value()) / divisor.Value()
      ensures remainder.Value() == old(Value()) % divisor.Value()
    {
      ValHighZero(divisor.table[..], 1, w);
      assert divisor.Value() == divisor.table[0] by {
        assert divisor.table[..1] == [divisor.table[0]];
        ValSingle(divisor.table[0], w);
      }
      var st, r := DivInt(divisor.table[0]);
      remainder.SetZero();
      ghost var z := remainder.table[..];
      remainder.table[0] := r;
      assert remainder.table[..] == z[0 := r];
      WordsUpdate(z, 0, r, w);
      ValUpdate(z, 0, r, w);
    }

    /** Div2_DivisorGreaterOrEqual: finishes the division when the divisor is not below
        this, judged by the leading bits (counted from bit 0 of the value) and, when they
        agree, by the words from tableId down. Gives true when it has stored the quotient
        and the remainder, false (changing nothing) when this is bigger. */
    method Div2DivisorGreaterOrEqual(divisor: UInt, remainder: UInt, tableId: nat, index: nat,
                                     divisorIndex: nat) returns (done: bool)
      requires Valid() && divisor.Valid() && divisor.w == w && divisor.size == size
      requires remainder.Valid() && remainder.w == w && remainder.size == size
      requires divisor.table != table
      requires remainder.table != table && remainder.table != divisor.table
      requires tableId < size && w * tableId <= index < w * tableId + w
      requires Pow2(index) <= Value() < Pow2(index + 1)
      requires Pow2(divisorIndex) <= divisor.Value() < Pow2(divisorIndex + 1)
      modifies table, remainder.table
      ensures Valid() && remainder.Valid()
      ensures done <==> divisor.Value() >= old(Value())
      ensures done ==> Value() == old(Value()) / divisor.Value()
      ensures done ==> remainder.Value() == old(Value()) % divisor.Value()
      ensures !done ==> divisorIndex <= index
      ensures !done ==> table[..] == old(table[..])
      ensures !done ==> remainder.table[..] == old(remainder.table[..])
    {
      ghost var X, D := Value(), divisor.Value();
      if divisorIndex > index {
        Pow2Le(index + 1, divisorIndex);
        remainder.Assign(this);
        SetZero();
        SmallDivMod(X, D);
        return true;
      }
      if divisorIndex == index {
        assert Pow2(index + 1) <= WPow(w, tableId + 1) by {
          WPowIsPow2(w, tableId + 1);
          Pow2Le(index + 1, w * (tableId + 1));
        }
        HighWordsZero(table[..], tableId + 1, w);
        HighWordsZero(divisor.table[..], tableId + 1, w);
        var cmp := CompareBelow(divisor, tableId);
        if cmp == 3 {
          remainder.Assign(this);
          SetZero();
          SmallDivMod(X, D);
          return true;
        } else if cmp == 4 {
          remainder.SetZero();
          SetOne();
          DivModUnique(X, D, 1, 0);
          return true;
        }
      } else {
        Pow2Le(divisorIndex + 1, index);
      }
      done := false;
    }

    /** Div3_Calculate: the trial quotient digit of Algorithm D. The top double word u2 u1
        of the window is divided by v1 in a two-word number (the quotient's high word is 0
        or 1); then, while the estimate is B or more or its product with v1 v0 exceeds
        u2 u1 u0, it is decreased and v1 added to the remainder rp, until rp leaves the
        word. v1 has its top bit set and u2 <= v1, as Div3Division provides. */
    static method Div3Calculate(u2: nat, u1: nat, u0: nat, v1: nat, v0: nat, w: nat) returns (qp: nat)
      requires w >= 8 && u1 < Pow2(w) && u0 < Pow2(w) && v0 < Pow2(w)
      requires 0 < v1 < Pow2(w) && 2 * v1 >= Pow2(w) && u2 <= v1
      ensures qp == TrialQuotient(u2, u1, u0, v1, v0, Pow2(w))
    {
      var B := Pow2(w);
      var uTemp := new UInt(w, 2);
      uTemp.table[1] := u2;
      uTemp.table[0] := u1;
      assert uTemp.table[..] == [u1, u2];
      ValPair(u1, u2, w);
      var status: nat, rp: nat := uTemp.DivInt(v1);
      DivNat(u1 + B * u2, v1);
      CalcStart(uTemp.Value(), rp, u2, u1, u0, v1, v0, B);
      assert uTemp.table[1] <= 1 by {
        assert uTemp.table[..] == [uTemp.table[0], uTemp.table[1]];
        ValPair(uTemp.table[0], uTemp.table[1], w);
        DoubleWordDigits(uTemp.table[0], uTemp.table[1], B, uTemp.Value());
      }
      var next := true;
      while next
        invariant uTemp.Valid() && uTemp.w == w && uTemp.size == 2 && rp < B
        invariant next ==> CalcInvariant(uTemp.Value(), rp, u2, u1, u0, v1, v0, B)
        invariant !next ==> uTemp.Value() == TrialQuotient(u2, u1, u0, v1, v0, B)
        decreases uTemp.Value() + (if next then 1 else 0)
      {
        rp, next := Div3CalcCorrect(uTemp, rp, u2, u1, u0, v1, v0);
      }
      assert uTemp.table[..] == [uTemp.table[0], uTemp.table[1]];
      ValPair(uTemp.table[0], uTemp.table[1], w);
      DoubleWordDigits(uTemp.table[0], uTemp.table[1], B, uTemp.Value());
      qp := uTemp.table[0];
    }

    /** One pass of the correction loop of Div3Calculate on the estimate held in uTemp and
        its remainder rp: the estimate is decreased when it is B or more or too large for
        u2 u1 u0; next says whether to test again. */
    static method Div3CalcCorrect(uTemp: UInt, rp: nat, u2: nat, u1: nat, u0: nat, v1: nat, v0: nat)
      returns (rp2: nat, next: bool)
      requires uTemp.Valid() && uTemp.size == 2
      requires CalcInvariant(uTemp.Value(), rp, u2, u1, u0, v1, v0, Pow2(uTemp.w))
      modifies uTemp.table
      ensures uTemp.Valid() && rp2 < Pow2(uTemp.w)
      ensures next ==> CalcInvariant(uTemp.Value(), rp2, u2, u1, u0, v1, v0, Pow2(uTemp.w))
      ensures next ==> uTemp.Value() < old(uTemp.Value())
      ensures !next ==> uTemp.Value() == TrialQuotient(u2, u1, u0, v1, v0, Pow2(uTemp.w))
    {
      var w, B := uTemp.w, Pow2(uTemp.w);
      rp2 := rp;
      ghost var qhat := uTemp.Value();
      assert uTemp.table[..] == [uTemp.table[0], uTemp.table[1]];
      ValPair(uTemp.table[0], uTemp.table[1], w);
      DoubleWordDigits(uTemp.table[0], uTemp.table[1], B, qhat);
      var decrease := false;
      if uTemp.table[1] == 1 {
        decrease := true;
      } else {
        var temp1 := MulTwoWords(uTemp.table[0], v0, w);
        if temp1.0 * B + temp1.1 > rp2 * B + u0 {
          decrease := true;
        }
      }
      assert decrease <==> qhat >= B || qhat * v0 > rp2 * B + u0;
      next := false;
      if decrease {
        CalcDecrease(qhat, rp2, u2, u1, u0, v1, v0, B);
        if rp2 + v1 >= B {
          CalcOverflow(qhat, rp2, u2, u1, u0, v1, v0, B);
        }
        var borrow := uTemp.SubOne();
        assert uTemp.Value() < uTemp.Cap() by { ValBound(uTemp.table[..], w); }
        assert borrow == 0;
        assert uTemp.Value() + 1 == qhat;
        if rp2 + v1 < B {
          rp2 := rp2 + v1;
        } else {
          rp2 := rp2 + v1 - B;
        }
        if rp2 >= v1 {
          next := true;
        }
      } else {
        CalcStop(qhat, rp2, u2, u1, u0, v1, v0, B);
      }
    }

    /** Div3_MultiplySubtract (step D4 of Algorithm D): uu = uu - qp * vv. When the trial
        digit qp was one too large the subtraction borrows; then qp is decreased and vv
        added back, the carry of that addition cancelling the borrow. The result is the
        digit uu / vv and the remainder uu % vv. The product qp * vv fits in uu's words. */
    static method Div3MultiplySubtract(uu: UInt, vv: UInt, qp: nat) returns (q: nat)
      requires uu.Valid() && vv.Valid() && vv.w == uu.w && vv.size == uu.size
      requires uu.table != vv.table && vv.Value() > 0 && qp < Pow2(uu.w)
      requires vv.Value() * Pow2(uu.w) <= uu.Cap()
      requires uu.Value() / vv.Value() <= qp <= uu.Value() / vv.Value() + 1
      modifies uu.table
      ensures uu.Valid()
      ensures q == old(uu.Value()) / vv.Value() && uu.Value() == old(uu.Value()) % vv.Value()
    {
      ghost var W, V, C := uu.Value(), vv.Value(), uu.Cap();
      var vvTemp := new UInt.Copy(vv);
      assert V * qp < C by {
        MulMonotone(qp + 1, Pow2(uu.w), V);
        MulDistrib(V, qp, 1);
        MulComm(V, qp);
        MulComm(Pow2(uu.w), V);
      }
      var carry := vvTemp.MulInt(qp);
      assert vvTemp.Value() == qp * V by { MulComm(V, qp); }
      var borrow := uu.Sub(vvTemp, 0);
      q := qp;
      if borrow == 1 {
        q := q - 1;
        ghost var r1 := uu.Value();
        assert r1 + qp * V == W + C;
        var c := uu.Add(vv, 0);
        assert uu.Value() < C by { ValBound(uu.table[..], uu.w); }
        assert uu.Value() + c * C == r1 + V;
        assert V < C by { ValBound(vv.table[..], uu.w); }
        assert W < qp * V;
        MulSubAddBack(W, V, qp, C, r1, uu.Value(), c);
      } else {
        MulSubExact(W, V, qp, uu.Value());
      }
    }

    /** Div3_MakeNewU: uu, one word longer than this, takes the window of Algorithm D: the
        n words of this from word j, u_max above them, zeros above that. */
    method Div3MakeNewU(uu: UInt, j: nat, n: nat, uMax: nat)
      requires Valid() && uu.Valid() && uu.w == w && uu.size == size + 1 && uu.table != table
      requires j + n <= size && uMax < Pow2(w)
      modifies uu.table
      ensures uu.Valid()
      ensures uu.table[..n] == table[j..j + n] && uu.table[n] == uMax
      ensures forall k :: n < k < size + 1 ==> uu.table[k] == 0
      ensures uu.Value() == Val(table[j..j + n], w) + uMax * WPow(w, n)
    {
      var i := 0;
      while i < n
        invariant i <= n && uu.Valid()
        invariant forall k :: 0 <= k < i ==> uu.table[k] == table[j + k]
      {
        uu.table[i] := table[j + i];
        i := i + 1;
      }
      uu.table[i] := uMax;
      i := i + 1;
      while i < size + 1
        invariant n + 1 <= i <= size + 1 && uu.Valid()
        invariant forall k :: 0 <= k < n ==> uu.table[k] == table[j + k]
        invariant uu.table[n] == uMax
        invariant forall k :: n < k < i ==> uu.table[k] == 0
      {
        uu.table[i] := 0;
        i := i + 1;
      }
      assert uu.table[..n] == table[j..j + n];
      ValHighZero(uu.table[..], n + 1, w);
      assert uu.table[..n + 1] == table[j..j + n] + [uMax];
      ValSnoc(table[j..j + n], uMax, w);
    }

    /** Div3_CopyNewU: the n low words of uu go back into this from word j, and word n of
        uu into word j + n when that is inside this. */
    method Div3CopyNewU(uu: UInt, j: nat, n: nat)
      requires Valid() && uu.Valid() && uu.w == w && uu.size == size + 1 && uu.table != table
      requires j + n <= size
      modifies table
      ensures Valid()
      ensures table[..j] == old(table[..j]) && table[j..j + n] == uu.table[..n]
      ensures j + n < size ==> table[j + n] == uu.table[n]
      ensures forall k :: j + n < k < size ==> table[k] == old(table[k])
    {
      var i := 0;
      while i < n
        invariant i <= n && Valid()
        invariant forall k :: 0 <= k < j ==> table[k] == old(table[k])
        invariant forall k :: 0 <= k < i ==> table[j + k] == uu.table[k]
        invariant forall k :: j + n <= k < size ==> table[k] == old(table[k])
      {
        table[i + j] := uu.table[i];
        i := i + 1;
      }
      if i + j < size {
        table[i + j] := uu.table[i];
      }
      assert table[j..j + n] == uu.table[..n];
    }

    /** Div3_MakeBiggerV: vv, one word longer, takes the value of v. */
    static method Div3MakeBiggerV(v: UInt, vv: UInt)
      requires v.Valid() && vv.Valid() && vv.w == v.w && vv.size == v.size + 1
      requires vv.table != v.table
      modifies vv.table
      ensures vv.Valid() && vv.Value() == v.Value()
      ensures vv.table[..v.size] == v.table[..] && vv.table[v.size] == 0
    {
      var i := 0;
      while i < v.size
        invariant i <= v.size && vv.Valid()
        invariant forall k :: 0 <= k < i ==> vv.table[k] == v.table[k]
      {
        vv.table[i] := v.table[i];
        i := i + 1;
      }
      vv.table[v.size] := 0;
      assert vv.table[..v.size] == v.table[..];
      ValHighZero(vv.table[..], v.size, v.w);
      assert vv.table[..][..v.size] == v.table[..];
    }

    /** Div3_Normalize: shifts v left until the top bit of its word n - 1 is set, and this
        by the same d bits; the bits pushed out of the top of this are returned. */
    method Div3Normalize(v: UInt, n: nat) returns (res: nat, d: nat)
      requires Valid() && v.Valid() && v.w == w && v.size == size && v.table != table
      requires 1 <= n <= size && v.table[n - 1] != 0
      requires forall j :: n <= j < size ==> v.table[j] == 0
      modifies table, v.table
      ensures Valid() && v.Valid() && d < w && res < Pow2(w)
      ensures v.Value() == old(v.Value()) * Pow2(d)
      ensures Value() + res * Cap() == old(Value()) * Pow2(d)
      ensures 2 * v.table[n - 1] >= Pow2(w)
      ensures forall j :: n <= j < size ==> v.table[j] == 0
    {
      LeadingBitBelow(v.table[n - 1], w);
      var bit: nat := FindLeadingBitInWord(v.table[n - 1]);
      var move: nat := w - bit - 1;
      d := move;
      if move > 0 {
        res := Div3NormalizeShift(v, n, bit, move);
      } else {
        res := 0;
        assert Pow2(w) == 2 * Pow2(bit);
        MulPow2Zero(v.Value());
        MulPow2Zero(Value());
        assert res * Cap() == 0;
      }
    }

    /** The shifting branch of Div3_Normalize: both values move move = w - bit - 1 bits to
        the left, and res takes the top bits of the old top word of this, which left it. */
    method Div3NormalizeShift(v: UInt, n: nat, bit: nat, move: nat) returns (res: nat)
      requires Valid() && v.Valid() && v.w == w && v.size == size && v.table != table
      requires 1 <= n <= size && bit < w && move == w - bit - 1 && move > 0
      requires Pow2(bit) <= v.table[n - 1] < Pow2(bit + 1)
      requires forall j :: n <= j < size ==> v.table[j] == 0
      modifies table, v.table
      ensures Valid() && v.Valid() && res < Pow2(w)
      ensures v.Value() == old(v.Value()) * Pow2(move)
      ensures Value() + res * Cap() == old(Value()) * Pow2(move)
      ensures 2 * v.table[n - 1] >= Pow2(w)
      ensures forall j :: n <= j < size ==> v.table[j] == 0
    {
      ghost var vs, s := v.table[..], table[..];
      res := table[size - 1];
      var _ := v.Rcl(move, 0);
      NormalizeDivisor(vs, v.table[..], n, w, bit, move);
      assert table[..] == s;
      var _ := Rcl(move, 0);
      NormalizeDividend(s, table[..], w, move);
      assert w - move == bit + 1;
      DivLe(res, Pow2(bit + 1));
      res := Shr(res, bit + 1);
      assert res * Cap() == (s[|s| - 1] / Pow2(w - move)) * WPow(w, |s|);
    }

    /** Div3_Unnormalize: the remainder is the n low words of this shifted back right by
        the d bits of the normalisation; this is left holding the same words. */
    method Div3Unnormalize(remainder: UInt, n: nat, d: nat)
      requires Valid() && remainder.Valid() && remainder.w == w && remainder.size == size
      requires remainder.table != table && n <= size
      modifies table, remainder.table
      ensures Valid() && remainder.Valid()
      ensures remainder.Value() == Val(old(table[..n]), w) / Pow2(d)
      ensures table[..] == remainder.table[..]
    {
      ghost var low := table[..n];
      var i := n;
      while i < size
        invariant n <= i <= size && Valid()
        invariant table[..n] == low
        modifies table
        invariant forall k :: n <= k < i ==> table[k] == 0
      {
        table[i] := 0;
        i := i + 1;
      }
      ValHighZero(table[..], n, w);
      assert table[..][..n] == low;
      ghost var X := Value();
      var _ := Rcr(d, 0);
      if d > 0 {
        ShrZeroFill(X, d, Width());
      } else {
        assert Pow2(0) == 1;
      }
      remainder.Assign(this);
    }

    /** The digit of one pass of the main loop of Div3_Division at position j: the trial
        digit from the top words, the window W (words j .. j+n-1 of this with u2 above them)
        copied into uu, and the multiply-subtract with its correction, which leave the exact
        digit W / V and the remainder W % V in uu. */
    method Div3Digit(vc: UInt, vv: UInt, uu: UInt, j: nat, n: nat, u2: nat, ghost U: nat, ghost Q: nat)
      returns (qp: nat)
      requires Valid() && vc.Valid() && vv.Valid() && uu.Valid()
      requires vc.w == w && vv.w == w && uu.w == w
      requires vc.size == size && vv.size == size + 1 && uu.size == size + 1 && uu.table != vv.table
      requires n >= 2 && j + n <= size && u2 < Pow2(w)
      requires forall k :: n <= k < size ==> vc.table[k] == 0
      requires 2 * vc.table[n - 1] >= Pow2(w) && vv.Value() == vc.Value()
      requires Progress(U, Q, vc.Value(), Partial(table[..], j + n, u2, w), WPow(w, j + 1))
      modifies uu.table
      ensures uu.Valid() && qp < Pow2(w)
      ensures uu.Value() < vc.Value() < WPow(w, n)
      ensures var W := Val(table[j..j + n], w) + u2 * WPow(w, n);
        qp == W / vc.Value() && uu.Value() == W % vc.Value() && W == qp * vc.Value() + uu.Value()
      ensures Progress(U, Q, vc.Value(), Val(table[..j], w) + (Val(table[j..j + n], w) + u2 * WPow(w, n)) * WPow(w, j),
                       Pow2(w) * WPow(w, j))
      ensures Val(table[..j], w) < WPow(w, j)
    {
      var u1 := table[j + n - 1];
      var u0 := table[j + n - 2];
      var v1 := vc.table[n - 1];
      var v0 := vc.table[n - 2];
      ghost var V, B := vc.Value(), Pow2(w);
      ghost var W := Val(table[j..j + n], w) + u2 * WPow(w, n);
      WindowDigit(table[..], vc.table[..], j, n, u2, w, U, Q);
      qp := Div3Calculate(u2, u1, u0, v1, v0, w);
      Div3MakeNewU(uu, j, n, u2);
      assert V * B <= uu.Cap() by {
        WPowLe(w, n, size);
        MulMonotone(V, WPow(w, size), B);
        MulComm(WPow(w, size), B);
      }
      qp := Div3MultiplySubtract(uu, vv, qp);
      DivNat(W, V);
    }

    /** One pass of the main loop of Div3_Division at position j: the digit of Div3Digit,
        the remainder copied back over the window and the digit stored as word j of q. With
        the partial remainder below V * B^(j+1) before, it is below V * B^j after, and q has
        gained the exact digit W / V at weight B^j. */
    method Div3Step(vc: UInt, vv: UInt, uu: UInt, q: UInt, j: nat, n: nat, u2: nat, ghost U: nat)
      requires Valid() && vc.Valid() && vv.Valid() && uu.Valid() && q.Valid()
      requires vc.w == w && vv.w == w && uu.w == w && q.w == w
      requires vc.size == size && q.size == size && vv.size == size + 1 && uu.size == size + 1
      requires vc.table != table && q.table != table && q.table != vc.table && uu.table != vv.table
      requires n >= 2 && j + n <= size && u2 < Pow2(w)
      requires forall k :: n <= k < size ==> vc.table[k] == 0
      requires 2 * vc.table[n - 1] >= Pow2(w) && vv.Value() == vc.Value()
      requires q.table[j] == 0
      requires Progress(U, q.Value(), vc.Value(), Partial(table[..], j + n, u2, w), WPow(w, j + 1))
      modifies table, uu.table, q.table
      ensures Valid() && uu.Valid() && q.Valid()
      ensures q.table[..] == old(q.table[..])[j := q.table[j]]
      ensures Progress(U, q.Value(), vc.Value(), Val(table[..j + n], w), WPow(w, j))
    {
      ghost var V, P := vc.Value(), WPow(w, j);
      ghost var t, Q := table[..], q.Value();
      assert 0 <= u2 * WPow(w, n) by { MulMonotone(0, u2, WPow(w, n)); }
      ghost var W: nat := Val(table[j..j + n], w) + u2 * WPow(w, n);
      var qp := Div3Digit(vc, vv, uu, j, n, u2, U, Q);
      ghost var r := uu.Value();
      Div3CopyNewU(uu, j, n);
      WindowReplace(t, table[..], uu.table[..], j, n, w);
      ghost var qs := q.table[..];
      assert 0 <= qp * P by { MulMonotone(0, qp, P); }
      assert Val(qs[j := qp], w) == Q + qp * P by {
        ValUpdate(qs, j, qp, w);
        assert qs[j] * P == 0;
      }
      q.table[j] := qp;
      assert q.table[..] == qs[j := qp];
      DigitStep(U, Q, V, Val(t[..j], w), W, P, Pow2(w), qp, r);
      assert vc.Value() == V;
    }

    /** The main loop of Div3_Division, from position m down to 0: each pass finds one
        quotient digit. The partial remainder starts below V * B^(m+1) and ends as the
        first n words of this, below V, with U = q * V + that remainder. */
    method Div3Loop(vc: UInt, vv: UInt, uu: UInt, q: UInt, m: nat, n: nat, u2: nat, ghost U: nat)
      requires Valid() && vc.Valid() && vv.Valid() && uu.Valid() && q.Valid()
      requires vc.w == w && vv.w == w && uu.w == w && q.w == w
      requires vc.size == size && q.size == size && vv.size == size + 1 && uu.size == size + 1
      requires vc.table != table && q.table != table && q.table != vc.table && uu.table != vv.table
      requires n >= 2 && m + n <= size && u2 < Pow2(w)
      requires forall k :: n <= k < size ==> vc.table[k] == 0
      requires 2 * vc.table[n - 1] >= Pow2(w) && vv.Value() == vc.Value()
      requires forall k :: 0 <= k <= m ==> q.table[k] == 0
      requires Progress(U, q.Value(), vc.Value(), Partial(table[..], m + n, u2, w), WPow(w, m + 1))
      modifies table, uu.table, q.table
      ensures Valid() && uu.Valid() && q.Valid()
      ensures Progress(U, q.Value(), vc.Value(), Val(table[..n], w), 1)
    {
      var j: nat := m;
      var top: nat := u2;
      while true
        invariant j + n <= size && top < Pow2(w)
        invariant Valid() && uu.Valid() && q.Valid()
        invariant forall k :: 0 <= k <= j ==> q.table[k] == 0
        invariant Progress(U, q.Value(), vc.Value(), Partial(table[..], j + n, top, w), WPow(w, j + 1))
        decreases j
      {
        Div3Step(vc, vv, uu, q, j, n, top, U);
        if j == 0 {
          break;
        }
        j := j - 1;
        PartialNext(table[..], j + n, w);
        assert table[..][..j + n + 1] == table[..j + n + 1];
        top := table[j + n];
      }
    }

    /** The start of Div3_Division: divisor and dividend normalised by the same d bits,
        the word u2 above the top window taken from the bits pushed out of the dividend
        (when the window reaches the top word) or from the word above the window, vv made
        the one-word-longer copy of the divisor, and the quotient words cleared. The
        normalised dividend is then the first m + n words with u2 above them, and it lies
        below the normalised divisor times B^(m+1). */
    method Div3Start(vc: UInt, vv: UInt, q: UInt, m: nat, n: nat) returns (d: nat, u2: nat)
      requires Valid() && vc.Valid() && vc.w == w && vc.size == size && vc.table != table
      requires vv.Valid() && vv.w == w && vv.size == size + 1 && vv.table != table && vv.table != vc.table
      requires q.Valid() && q.w == w && q.size == size && q.table != table && q.table != vc.table
      requires n >= 2 && m + n <= size && vc.table[n - 1] != 0
      requires forall k :: n <= k < size ==> vc.table[k] == 0
      requires forall k :: m + n <= k < size ==> table[k] == 0
      requires forall k :: 0 <= k < size ==> q.table[k] == 0
      modifies table, vc.table, vv.table, q.table
      ensures Valid() && vc.Valid() && vv.Valid() && q.Valid() && d < w && u2 < Pow2(w)
      ensures vc.Value() == old(vc.Value()) * Pow2(d) && 2 * vc.table[n - 1] >= Pow2(w)
      ensures forall k :: n <= k < size ==> vc.table[k] == 0
      ensures vv.Value() == vc.Value()
      ensures forall k :: 0 <= k < size ==> q.table[k] == 0
      ensures Partial(table[..], m + n, u2, w) == old(Value()) * Pow2(d)
      ensures Progress(old(Value()) * Pow2(d), q.Value(), vc.Value(), Partial(table[..], m + n, u2, w), WPow(w, m + 1))
    {
      ghost var U, V0 := Value(), vc.Value();
      assert U < WPow(w, m + n) && WPow(w, n - 1) <= V0 by {
        ValHighZero(table[..], m + n, w);
        ValBound(table[..][..m + n], w);
        TopWordBounds(vc.table[..], n - 1, w);
      }
      var res;
      res, d := Div3Normalize(vc, n);
      if m + n == size {
        u2 := res;
      } else {
        u2 := table[m + n];
      }
      assert Partial(table[..], m + n, u2, w) == U * Pow2(d) by {
        DividendStart(table[..], res, m + n, w, U, d);
      }
      assert U * Pow2(d) < vc.Value() * WPow(w, m + 1) by {
        StartBound(U, V0, d, n, m, w);
      }
      ghost var t := table[..];
      Div3MakeBiggerV(vc, vv);
      var i := m + 1;
      while i < size
        invariant m + 1 <= i && q.Valid()
        invariant forall k :: 0 <= k < size ==> q.table[k] == 0
        modifies q.table
      {
        q.table[i] := 0;
        i := i + 1;
      }
      ValZero(q.table[..], w);
      assert table[..] == t;
      ghost var UD: int, VD: int := U * Pow2(d), vc.Value();
      assert q.Value() == 0 && 0 * VD == 0;
      assert Progress(UD, q.Value(), VD, Partial(table[..], m + n, u2, w), WPow(w, m + 1));
    }

    /** Div3_Division: Knuth's Algorithm D for a divisor v of n >= 2 significant words and a
        dividend of m + n significant words. Both are normalised, the quotient digits are
        found from position m down to 0, the remainder is shifted back and the quotient
        stored in this. The divisor is taken by value: v itself does not change. */
    method Div3Division(v: UInt, remainder: UInt, m: nat, n: nat)
      requires Valid() && v.Valid() && v.w == w && v.size == size
      requires remainder.Valid() && remainder.w == w && remainder.size == size
      requires v.table != table && remainder.table != table && remainder.table != v.table
      requires n >= 2 && m + n <= size && v.table[n - 1] != 0
      requires forall k :: n <= k < size ==> v.table[k] == 0
      requires forall k :: m + n <= k < size ==> table[k] == 0
      modifies table, remainder.table
      ensures Valid() && remainder.Valid() && v.Value() > 0
      ensures Value() == old(Value()) / v.Value() && remainder.Value() == old(Value()) % v.Value()
    {
      ghost var U, V0 := Value(), v.Value();
      assert V0 > 0 by { TopWordBounds(v.table[..], n - 1, w); }
      var vc := new UInt.Copy(v);
      var uu := new UInt(w, size + 1);
      var vv := new UInt(w, size + 1);
      var q := new UInt(w, size);
      var j: nat := m;
      var d, u2 := Div3Start(vc, vv, q, j, n);
      Div3Loop(vc, vv, uu, q, j, n, u2, U * Pow2(d));
      Div3Finish(q, remainder, n, d, U, V0);
    }

    /** The end of Div3_Division: the remainder, the first n words shifted back by d bits,
        goes to remainder, and the quotient q to this. */
    method Div3Finish(q: UInt, remainder: UInt, n: nat, d: nat, ghost U: nat, ghost V: nat)
      requires Valid() && q.Valid() && remainder.Valid() && n <= size
      requires q.w == w && q.size == size && remainder.w == w && remainder.size == size
      requires remainder.table != table && remainder.table != q.table && q.table != table
      requires V > 0 && Progress(U * Pow2(d), q.Value(), V * Pow2(d), Val(table[..n], w), 1)
      modifies table, remainder.table
      ensures Valid() && remainder.Valid()
      ensures Value() == U / V && remainder.Value() == U % V
    {
      FinishDivision(U, V, d, q.Value(), Val(table[..n], w));
      Div3Unnormalize(remainder, n, d);
      Assign(q);
    }

    /** Div3: this = this / v, remainder = this % v by Knuth's Algorithm D. Zero divisors
        and the trivial cases go through Div_StandardTest, a one-word divisor through the
        word division, and the rest through Div3_Division. It gives 1 on division by zero,
        changing nothing, and 0 otherwise. v must be a different object from this. */
    method Div3(v: UInt, remainder: UInt) returns (status: nat)
      requires Valid() && v.Valid() && v.w == w && v.size == size && v.table != table
      requires remainder.Valid() && remainder.w == w && remainder.size == size
      requires remainder.table != table && remainder.table != v.table
      modifies table, remainder.table
      ensures Valid() && remainder.Valid() && status <= 1
      ensures status == 1 <==> old(v.Value()) == 0
      ensures status == 1 ==> table[..] == old(table[..])
      ensures status == 1 ==> remainder.table[..] == old(remainder.table[..])
      ensures status == 0 ==> Value() == old(Value()) / old(v.Value())
      ensures status == 0 ==> remainder.Value() == old(Value()) % old(v.Value())
    {
      var m, n;
      status, m, n := DivStandardTest(v, remainder);
      if status < 2 {
        return;
      }
      if n == 0 {
        DivByWord(v, remainder);
        return 0;
      }
      Div3Division(v, remainder, m - n, n + 1);
      status := 0;
    }

    /** Div: the division with the algorithm chosen by number, 1 and 2 for the radix-2
        algorithms and 3 (the default, and any other number) for Knuth's. Algorithms 2 and 3
        do not admit the divisor being this object. */
    method Div(divisor: UInt, remainder: UInt, algorithm: nat) returns (status: nat)
      requires Valid() && divisor.Valid() && divisor.w == w && divisor.size == size
      requires remainder.Valid() && remainder.w == w && remainder.size == size
      requires remainder.table != table && remainder.table != divisor.table
      requires algorithm != 1 ==> divisor.table != table
      modifies table, remainder.table
      ensures Valid() && remainder.Valid() && status <= 1
      ensures status == 1 <==> old(divisor.Value()) == 0
      ensures status == 1 ==> table[..] == old(table[..])
      ensures status == 1 ==> remainder.table[..] == old(remainder.table[..])
      ensures status == 0 ==> Value() == old(Value()) / old(divisor.Value())
      ensures status == 0 ==> remainder.Value() == old(Value()) % old(divisor.Value())
    {
      if algorithm == 1 {
        status := Div1(divisor, remainder);
      } else if algorithm == 2 {
        status := Div2(divisor, remainder);
      } else {
        status := Div3(divisor, remainder);
      }
    }
  }
}
