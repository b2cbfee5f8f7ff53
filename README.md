# ttmath UInt in Dafny

A model of the fixed-width unsigned integer `UInt<value_size>` of the ttmath library
(`ttmath/ttmathuint.h`), with its word primitives (`ttmath/ttmathuint_x86_64.h`). The value is an
array `table` of `value_size` machine words of `TTMATH_BITS_PER_UINT` bits, least significant
word first.

The class `TTMath.UInt` keeps that array and updates it in place, as the library does. Every
method states its new state against `Value()`, the number the words denote. Most methods also
state the carry, borrow or status they return: the result modulo `2^Width()`, and the carry
exactly when the exact result does not fit.

The class covers:
- setting and conversion: SetZero, SetOne, SetMax, SetMin, SetFromTable, FromUInt, assignment;
- addition and subtraction with carry, at a word index;
- one-bit and many-bit rotations through the carry, and whole-word moves;
- leading-bit search, bit access and the bitwise operations;
- the three multiplication algorithms (shift-and-add, schoolbook and the word multiplier);
- the word division and the three division algorithms: radix-2 non-restoring, radix-2
  recursive, and Knuth's Algorithm D with its trial digit, normalisation and add-back;
- binary exponentiation;
- the comparisons;
- conversion to and from digit strings in bases 2 to 16.

The pure modules hold the meaning of these operations:
- `Words`: the value of a word vector.
- `Bits`: bits, bit-filling shifts and their composition.
- `Bitwise`: AND, OR, XOR and NOT on whole vectors, set bits, cleared bits.
- `Shifts`: word steps of the shift loops and whole-word moves.
- `Mult`: the partial-product lemmas.
- `LongDiv`: the radix-2 divisions.
- `Knuth`: Algorithm D.
- `Powers`: exponentiation.
- `Text`: digits and strings.
- `WordOps`: the static word primitives of `ttmathuint_x86_64.h`, stated arithmetically.

The word width is a parameter `w` of each object. The library uses 32 or 64; the proofs hold
for any `w >= 8`.

## Model

| member | source | states |
|---|---|---|
| TTMath.UInt.constructor | ttmath/ttmathuint.h:2283-2285 | a new vector of `size` words of `w` bits, all words zero |
| TTMath.UInt.Copy | ttmath/ttmathuint.h:2290-2295 | the copy has the same words and the same value as the original, in a fresh array |
| TTMath.UInt.Assign | ttmath/ttmathuint.h:2102-2109 | after `*this = p` the words equal p's words and the value equals p's value |
| TTMath.UInt.FromUInt | ttmath/ttmathuint.h:2038-2067 | the value becomes p modulo 2^Width(); the carry is 1 exactly when p does not fit; p may alias this |
| TTMath.UInt.FromUIntWord | ttmath/ttmathuint.h:2073-2081 | a single word becomes the value |
| TTMath.UInt.SetFromTable | ttmath/ttmathuint.h:209-244 | the leading words of a most-significant-first table fill the vector from the top; the words below them are cleared; the lowest copied word is rounded up by the top bit of the next table word unless it is all ones; the value is the copied mantissa, plus one when it rounds |
| TTMath.UInt.SetZero | ttmath/ttmathuint.h:144-152 | every word is 0 and the value is 0 |
| TTMath.UInt.SetOne | ttmath/ttmathuint.h:158-164 | the value is 1 |
| TTMath.UInt.SetMax | ttmath/ttmathuint.h:171-177 | the value is 2^Width() - 1, the largest one |
| TTMath.UInt.SetMin | ttmath/ttmathuint.h:184-189 | the value is 0, the smallest one |
| TTMath.UInt.Add | ttmath/ttmathuint_x86_64.h:83-139 | new value + carry * 2^Width() equals old value + ss2 + (c != 0); the carry is 1 exactly when that sum does not fit; ss2 may alias this |
| TTMath.UInt.AddInt | ttmath/ttmathuint_x86_64.h:143-209 | adds value * 2^(w*index) modulo 2^Width(); the carry is 1 exactly when the sum does not fit; the words below index are unchanged |
| TTMath.UInt.AddTwoInts | ttmath/ttmathuint_x86_64.h:213-295 | adds (x2 * 2^w + x1) * 2^(w*index) modulo 2^Width(); the carry is 1 exactly when the sum does not fit; the words below index are unchanged |
| TTMath.UInt.Sub | ttmath/ttmathuint_x86_64.h:301-357 | new value + ss2 + (c != 0) equals old value + borrow * 2^Width(); the borrow is 1 exactly when old value < ss2 + (c != 0) |
| TTMath.UInt.SubInt | ttmath/ttmathuint_x86_64.h:360-425 | subtracts value * 2^(w*index) modulo 2^Width(); the borrow is 1 exactly when the old value is smaller; the words below index are unchanged |
| TTMath.UInt.AddOne | ttmath/ttmathuint.h:329-332 | new value + carry * 2^Width() equals old value + 1 |
| TTMath.UInt.SubOne | ttmath/ttmathuint.h:338-341 | new value + 1 equals old value + borrow * 2^Width() |
| TTMath.UInt.Rcl2_one | ttmath/ttmathuint_x86_64.h:428-482 | the value shifted left one bit, with c in the vacated bit, modulo 2^Width(); returns the old top bit |
| TTMath.UInt.Rcr2_one | ttmath/ttmathuint_x86_64.h:485-537 | the value shifted right one bit, with c in the vacated top bit; returns the old bit 0 |
| TTMath.UInt.Rcl2 | ttmath/ttmathuint_x86_64.h:541-614 | for 0 < bits < w, the value shifted left by bits with every vacated bit equal to c; returns old bit Width() - bits, the last one shifted out |
| TTMath.UInt.Rcr2 | ttmath/ttmathuint_x86_64.h:617-694 | for 0 < bits < w, the value shifted right by bits with every vacated bit equal to c; returns old bit bits - 1, the last one shifted out |
| TTMath.UInt.RclMoveAllWords | ttmath/ttmathuint.h:352-389 | the words move up by bits / w, the vacated words taking c's mask; returns bits % w still to shift (0 once every word is filled) and the last bit shifted out, or 0 past the width |
| TTMath.UInt.RcrMoveAllWords | ttmath/ttmathuint.h:448-484 | the words move down by bits / w, the vacated words taking c's mask; returns bits % w still to shift and the last bit shifted out, or 0 past the width |
| TTMath.UInt.Rcl | ttmath/ttmathuint.h:403-439 | for bits > 0, the value shifted left by bits with c in every vacated bit; returns the last bit shifted out of the top; a shift by 0 changes nothing and returns 0; a shift past the width fills every word and returns 0 |
| TTMath.UInt.RclRestBits | ttmath/ttmathuint.h:421-434 | the same shift for 0 < bits < w, through Rcl2_one for 1 or 2 bits and Rcl2 otherwise |
| TTMath.UInt.Rcr | ttmath/ttmathuint.h:498-534 | for bits > 0, the value shifted right by bits with c in every vacated bit; returns the last bit shifted out of the bottom; a shift by 0 changes nothing; a shift past the width fills every word and returns 0 |
| TTMath.UInt.RcrRestBits | ttmath/ttmathuint.h:516-529 | the same shift for 0 < bits < w, through Rcr2_one for 1 or 2 bits and Rcr2 otherwise |
| TTMath.UInt.FindLeadingBit | ttmath/ttmathuint.h:598-618 | found exactly when the value is nonzero; then the word and the bit index are those of the leading bit: 2^(w*tableId+index) <= value < 2^(w*tableId+index+1); zero gives false, 0, 0 |
| TTMath.UInt.MoveWordsToTop | ttmath/ttmathuint.h:556-568 | the words 0..top move to the top and zeros fill the rest; the value is multiplied by 2^(w*(size-1-top)) |
| TTMath.UInt.CompensationToLeft | ttmath/ttmathuint.h:541-580 | a nonzero value is multiplied by 2^moving with moving < Width(), and its top bit is then set; zero is left alone and gives 0 |
| TTMath.UInt.CompensationMoveWords | ttmath/ttmathuint.h:547-568 | the value is multiplied by 2^moving, and the top word becomes nonzero |
| TTMath.UInt.CompensationMoveBits | ttmath/ttmathuint.h:570-575 | with a nonzero top word, the value is multiplied by 2^moving2 (moving2 < w), and the top bit becomes set |
| TTMath.UInt.GetBit | ttmath/ttmathuint.h:629-642 | returns bit bitIndex of the value |
| TTMath.UInt.SetBit | ttmath/ttmathuint.h:651-662 | returns the old bit bitIndex; afterwards that bit is 1 and every other bit is as before |
| TTMath.UInt.BitAnd | ttmath/ttmathuint.h:668-674 | every bit of the result is the AND of the two old bits; ss2 may alias this |
| TTMath.UInt.BitOr | ttmath/ttmathuint.h:680-686 | every bit of the result is the OR of the two old bits |
| TTMath.UInt.BitXor | ttmath/ttmathuint.h:692-698 | every bit of the result is the XOR of the two old bits |
| TTMath.UInt.BitNot | ttmath/ttmathuint.h:704-710 | every bit is complemented: the value becomes 2^Width() - 1 - value |
| TTMath.UInt.BitNot2 | ttmath/ttmathuint.h:720-742 | the bits from the leading bit L down are complemented: the value becomes 2^(L+1) - 1 - value; zero becomes one |
| TTMath.UInt.NotUpToLeadingBit | ttmath/ttmathuint.h:724-736 | with the leading bit in word tableId at index, the value becomes 2^(w*tableId+index+1) - 1 - value |
| TTMath.UInt.XorLowMask | ttmath/ttmathuint.h:729-735 | only word tableId changes, to its complement within the bits 0..index |
| TTMath.UInt.ComplementWordsBelow | ttmath/ttmathuint.h:726-727 | the words below k are complemented, the others unchanged |
| TTMath.UInt.ClearFirstBits | ttmath/ttmathuint.h:1876-1909 | the lowest n bits are cleared and the others kept: value - value mod 2^n |
| TTMath.UInt.ClearWordsAndBits | ttmath/ttmathuint.h:1892-1908 | for n below the width, the value becomes value - value mod 2^n |
| TTMath.UInt.IsTheHighestBitSet | ttmath/ttmathuint.h:1915-1918 | true exactly when value >= 2^(Width()-1) |
| TTMath.UInt.IsTheLowestBitSet | ttmath/ttmathuint.h:1924-1927 | true exactly when the value is odd |
| TTMath.UInt.IsZero | ttmath/ttmathuint.h:1933-1940 | true exactly when the value is 0 |
| TTMath.UInt.MulInt | ttmath/ttmathuint.h:760-793 | the carry is 1 exactly when value * ss2 does not fit; without a carry the value is the product |
| TTMath.UInt.MulIntPass | ttmath/ttmathuint.h:767-788 | one pass: without a carry the value is the product of the low x1+1 words with ss2; a carry means the whole product does not fit |
| TTMath.UInt.NonzeroRange | ttmath/ttmathuint.h:813-827 | the words outside start..end-1 are zero, and the words at both ends of the range are nonzero; the range is empty exactly for zero |
| TTMath.UInt.MulIntTo | ttmath/ttmathuint.h:802-839 | into a wider result, the result is value * ss2; when the result is not wider, returns 1 and leaves it unchanged |
| TTMath.UInt.Mul1 | ttmath/ttmathuint.h:892-918 | the carry is 1 exactly when the product does not fit; without a carry the value is the product |
| TTMath.UInt.Mul1Step | ttmath/ttmathuint.h:901-912 | after the round for bit T-1-i, the product so far is the top i+1 bits of X times Y, or a carry says that product does not fit |
| TTMath.UInt.Mul1Big | ttmath/ttmathuint.h:927-951 | the double-width result is the exact product |
| TTMath.UInt.Widen | ttmath/ttmathuint.h:933-944 | the words of src followed by zeros: the same value in twice the words |
| TTMath.UInt.Mul2Big | ttmath/ttmathuint.h:994-1031 | the double-width result is the exact product, also when only the nonzero word ranges take part |
| TTMath.UInt.Mul2Row | ttmath/ttmathuint.h:1022-1027 | the running result grows from the product of the low x1 words with ss2 to the product of the low x1+1 words |
| TTMath.UInt.Mul2 | ttmath/ttmathuint.h:966-985 | the value is the product modulo 2^Width(); the carry is 1 exactly when the product does not fit |
| TTMath.UInt.HighWordsNonzero | ttmath/ttmathuint.h:977-980 | 0 exactly when every word from n up is zero |
| TTMath.UInt.CopyLowWords | ttmath/ttmathuint.h:973-975 | the words are the low words of the wider src |
| TTMath.UInt.Mul | ttmath/ttmathuint.h:846-857 | whichever algorithm is chosen, the carry is 1 exactly when the product does not fit, and without a carry the value is the product |
| TTMath.UInt.MulBig | ttmath/ttmathuint.h:866-879 | whichever algorithm is chosen, the double-width result is the exact product |
| TTMath.UInt.Pow | ttmath/ttmathuint.h:1831-1866 | 0^0 gives 2; otherwise 1 exactly when x^p does not fit, and then the value is unchanged; 0 with the value x^p |
| TTMath.UInt.PowLoop | ttmath/ttmathuint.h:1837-1860 | the loop yields x^p and carry 0, or carry 1 exactly when x^p does not fit |
| TTMath.UInt.PowPass | ttmath/ttmathuint.h:1843-1858 | one pass keeps result * start^pow equal to x^p and makes pow smaller; a carry implies x^p does not fit |
| TTMath.UInt.ToString | ttmath/ttmathuint.h:2337-2357 | in a base from 2 to 16, the digits of the value most significant first; the empty string otherwise |
| TTMath.UInt.SkipWhiteCharacters | ttmath/ttmathuint.h:2365-2369 | the first index from i that is not white space |
| TTMath.UInt.FromString | ttmath/ttmathuint.h:2389-2430 | after the leading white space, the longest run of digits below the base is read; the index after it is returned, and value_read is true exactly when the run is not empty; the carry is 1 exactly when the digits' value does not fit, and otherwise the value is theirs; a bad base gives 1 and zero |
| TTMath.UInt.ReadDigits | ttmath/ttmathuint.h:2410-2422 | the loop reads exactly the run of digits; the carry is 1 exactly when its value does not fit, and otherwise the value is theirs |
| TTMath.UInt.ReadDigit | ttmath/ttmathuint.h:2415-2421 | one digit more: the value of s[st..i+1], or a carry when that does not fit |
| TTMath.UInt.FromStringDigit | ttmath/ttmathuint.h:2417-2420 | value * base + digit, or a carry exactly implying that number does not fit |
| TTMath.UInt.CmpWords | ttmath/ttmathuint.h:2491-2494 | the number of low words a comparison with start index `index` looks at: all of them for -1 |
| TTMath.UInt.FirstDifference | ttmath/ttmathuint.h:2497-2501 | the highest of the low k words where the two vectors differ, with every word above it equal, or -1 |
| TTMath.UInt.CmpSmaller | ttmath/ttmathuint.h:2487-2505 | true exactly when this < l on the compared low words; for index -1, exactly when this < l |
| TTMath.UInt.CmpBigger | ttmath/ttmathuint.h:2518-2536 | true exactly when this > l on the compared low words |
| TTMath.UInt.CmpEqual | ttmath/ttmathuint.h:2546-2561 | true exactly when the compared low words hold the same number |
| TTMath.UInt.CmpSmallerEqual | ttmath/ttmathuint.h:2572-2590 | true exactly when this <= l on the compared low words |
| TTMath.UInt.CmpBiggerEqual | ttmath/ttmathuint.h:2601-2619 | true exactly when this >= l on the compared low words |
| TTMath.UInt.DivInt | ttmath/ttmathuint.h:1051-1091 | for a nonzero word divisor, the value becomes value / divisor and the remainder value mod divisor; a zero divisor gives status 1 and changes nothing; a divisor of 1 changes nothing |
| TTMath.UInt.DivIntFrom | ttmath/ttmathuint.h:1073-1086 | the word-by-word loop gives the quotient and the remainder of the saved dividend |
| TTMath.UInt.HighestWord | ttmath/ttmathuint.h:1080 | the index of the highest nonzero word, which bounds the value between B^m and B^(m+1); 0 for zero |
| TTMath.UInt.DivCalculatingSize | ttmath/ttmathuint.h:1196-1224 | 1 exactly for a zero divisor, 2 exactly for a zero dividend, 3 exactly when this < v, 4 exactly when they are equal, 0 exactly when this > v, and then m and n index the highest nonzero words |
| TTMath.UInt.CompareBelow | ttmath/ttmathuint.h:1211-1221 | with the same highest word, 3, 4 or 0 exactly when this is smaller than, equal to or bigger than v |
| TTMath.UInt.DivStandardTest | ttmath/ttmathuint.h:1142-1180 | 1 exactly for a zero divisor, changing nothing; 2 exactly when this > v, changing nothing; otherwise 0 with the quotient and remainder stored |
| TTMath.UInt.Div1 | ttmath/ttmathuint.h:1233-1249 | status 1 exactly for a zero divisor, changing nothing; otherwise this / divisor and the remainder this mod divisor |
| TTMath.UInt.Div1Calculate | ttmath/ttmathuint.h:1255-1308 | the non-restoring loop leaves the quotient in this and the remainder in rest; its negative step keeps both carries where the library keeps one (see Findings) |
| TTMath.UInt.Div1Final | ttmath/ttmathuint.h:1278-1306 | the last quotient bit and the correction of a negative remainder give X / D and X mod D |
| TTMath.UInt.Div1Step | ttmath/ttmathuint.h:1267-1300 | one step keeps the loop invariant Div1Invariant at i + 1 |
| TTMath.UInt.Div1RestStep | ttmath/ttmathuint.h:1267-1294 | the quotient bit is 1 exactly when 2R + bit >= divisor; rest becomes 2R + bit - divisor, modulo 2^Width(); the positive step is the library's (the negated borrow of a subtraction that takes the doubling's carry), the negative step uses both carries |
| TTMath.UInt.Div2 | ttmath/ttmathuint.h:1321-1347 | status 1 exactly for a zero divisor, changing nothing; otherwise this / divisor and the remainder this mod divisor |
| TTMath.UInt.Div2Calculate | ttmath/ttmathuint.h:1365-1399 | either finishes the division (0), rejects a zero divisor (1), or subtracts divisor * 2^bitsDiff with divisor * 2^bitsDiff <= this < 2 * divisor * 2^bitsDiff (2) |
| TTMath.UInt.Div2ShiftedDivisor | ttmath/ttmathuint.h:1383-1392 | a copy of the divisor moved up by bitsDiff bits, not above this and more than half of it |
| TTMath.UInt.ShiftedCopy | ttmath/ttmathuint.h:1385-1386 | a fresh copy of v with value v * 2^k |
| TTMath.UInt.Div2FitDivisor | ttmath/ttmathuint.h:1388-1392 | the shifted divisor moves one bit back when it exceeds this; then it is not above this and more than half of it |
| TTMath.UInt.Div2FindLeadingBitsAndCheck | ttmath/ttmathuint.h:1408-1468 | 1 exactly for a zero divisor; 0 with the division done when this is zero, the divisor has one word or is not below this; 2 otherwise, with the leading bits of both numbers |
| TTMath.UInt.DivZeroBy | ttmath/ttmathuint.h:1420-1432 | zero divided by a nonzero divisor: quotient 0 and remainder 0 |
| TTMath.UInt.DivByWord | ttmath/ttmathuint.h:1437-1453 | a one-word divisor: quotient and remainder through DivInt |
| TTMath.UInt.Div2DivisorGreaterOrEqual | ttmath/ttmathuint.h:1475-1533 | true exactly when divisor >= this, and then the quotient and remainder are stored; otherwise nothing changes |
| TTMath.UInt.Div3Calculate | ttmath/ttmathuint.h:1735-1784 | the trial digit is TrialQuotient: the largest q < B with q * (v1 v0) <= u2 u1 u0 |
| TTMath.UInt.Div3CalcCorrect | ttmath/ttmathuint.h:1749-1779 | one correction pass keeps the estimate invariant and decreases it, or stops at TrialQuotient |
| TTMath.UInt.Div3MultiplySubtract | ttmath/ttmathuint.h:1788-1812 | after the multiply-subtract and the add-back, the digit is uu / vv and uu holds uu mod vv |
| TTMath.UInt.Div3MakeNewU | ttmath/ttmathuint.h:1640-1655 | uu holds the window: n words of this from j, u_max above them, zeros above that |
| TTMath.UInt.Div3CopyNewU | ttmath/ttmathuint.h:1658-1669 | the window goes back into this from word j, nothing else changes |
| TTMath.UInt.Div3MakeBiggerV | ttmath/ttmathuint.h:1676-1684 | the one-word-longer vv has the value of v |
| TTMath.UInt.Div3Normalize | ttmath/ttmathuint.h:1696-1719 | v and this are multiplied by the same 2^d; the top bit of v's word n-1 is then set; the bits pushed out of this are returned |
| TTMath.UInt.Div3NormalizeShift | ttmath/ttmathuint.h:1705-1710 | the shifting branch: both values multiplied by 2^move, with the bits pushed out of this returned |
| TTMath.UInt.Div3Unnormalize | ttmath/ttmathuint.h:1722-1732 | the remainder is the low n words shifted back right by d bits |
| TTMath.UInt.Div3Digit | ttmath/ttmathuint.h:1611-1619 | one digit: the exact W / V of the window and the remainder W mod V |
| TTMath.UInt.Div3Step | ttmath/ttmathuint.h:1611-1622 | one pass keeps dividend = quotient * V + partial remainder, with the partial remainder below V * B^j |
| TTMath.UInt.Div3Loop | ttmath/ttmathuint.h:1609-1629 | the loop ends with dividend = quotient * V + remainder and remainder < V |
| TTMath.UInt.Div3Start | ttmath/ttmathuint.h:1597-1607 | the normalised divisor and dividend, scaled by the same 2^d, and the dividend below V * B^(m+1) |
| TTMath.UInt.Div3Division | ttmath/ttmathuint.h:1589-1637 | Algorithm D gives this / v and the remainder this mod v |
| TTMath.UInt.Div3Finish | ttmath/ttmathuint.h:1631-1634 | the unnormalised remainder and the quotient are U / V and U mod V |
| TTMath.UInt.Div3 | ttmath/ttmathuint.h:1545-1582 | status 1 exactly for a zero divisor, changing nothing; otherwise this / v and the remainder this mod v |
| TTMath.UInt.Div | ttmath/ttmathuint.h:1109-1125 | whichever algorithm is chosen, status 1 exactly for a zero divisor, otherwise the quotient and the remainder |
| WordOps.FindLeadingBitInWord | ttmath/ttmathuint_x86_64.h:697-737 | -1 exactly for zero; otherwise the index r with 2^r <= x < 2^(r+1) |
| WordOps.LeadingBitBelow | ttmath/ttmathuint_x86_64.h:697-737 | the leading bit of a nonzero word lies inside the word |
| WordOps.LeadingBitUnique | ttmath/ttmathuint_x86_64.h:697-737 | any k with 2^k <= x < 2^(k+1) is the leading bit |
| WordOps.LeadingBitIsSet | ttmath/ttmathuint_x86_64.h:697-737 | the leading bit is 1 and every bit above it is 0 |
| WordOps.SetBitInWord | ttmath/ttmathuint_x86_64.h:740-791 | returns the old bit; the new word has that bit set and every other bit unchanged |
| WordOps.MulTwoWords | ttmath/ttmathuint_x86_64.h:802-849 | two result words whose double word is a * b |
| WordOps.DivTwoWords | ttmath/ttmathuint_x86_64.h:862-912 | for a < c, a word quotient and a remainder below c of the double word a b by c |
| Bits.RclRepeatIsShift | ttmath/ttmathuint.h:425-430 | k one-bit rotations through the carry equal one shift by k, returning bit t - k |
| Bits.RcrRepeatIsShift | ttmath/ttmathuint.h:520-525 | k one-bit right rotations equal one right shift by k, returning bit k - 1 |
| Bits.ShlFillAdd | ttmath/ttmathuint.h:411-434 | a left shift by a then b equals a shift by a + b with the same fill |
| Bits.ShrFillAdd | ttmath/ttmathuint.h:506-529 | a right shift by a then b equals a shift by a + b with the same fill |
| Bits.ShlFillBit | ttmath/ttmathuint_x86_64.h:541-614 | bit j of a left shift by k is the fill below k and bit j - k above |
| Bits.ShrFillBit | ttmath/ttmathuint_x86_64.h:617-694 | bit j of a right shift by k is bit j + k inside the width and the fill above |
| Bits.ShrFillHalf | ttmath/ttmathuint_x86_64.h:485-537 | a right shift by one with a zero fill halves the value |
| Shifts.ShiftWordLeft | ttmath/ttmathuint_x86_64.h:541-614 | one word shifted left by k with k incoming bits: the word kept and the bits out recombine to x * 2^k + cin |
| Shifts.ShiftWordRight | ttmath/ttmathuint_x86_64.h:617-694 | one word shifted right by k with k incoming top bits: the word kept and the bits out recombine to x + cin * 2^w |
| Shifts.SplitBits | ttmath/ttmathuint.h:354-355 | all_words and rest_bits: all * w + rest == bits with rest < w |
| Shifts.ShlWordsVal | ttmath/ttmathuint.h:352-389 | moving the words up by m with filled words below is a left shift by w * m |
| Shifts.ShrWordsVal | ttmath/ttmathuint.h:448-484 | moving the words down by m with filled words above is a right shift by w * m |
| Shifts.ShlWordsSaturated | ttmath/ttmathuint.h:359-370 | a left move by at least every word leaves only the fill |
| Shifts.ShrWordsSaturated | ttmath/ttmathuint.h:455-466 | a right move by at least every word leaves only the fill |
| Shifts.ShlWordsOnly | ttmath/ttmathuint.h:411-418 | when no bits remain after the word move, the word move is the whole shift and its last bit is the bit Rcl returns |
| Shifts.ShlWordsOnlyPastWidth | ttmath/ttmathuint.h:359-370 | a move past the width is the whole shift, and its last bit is right |
| Shifts.ShlWordsOnlyInside | ttmath/ttmathuint.h:372-386 | a move inside the width returns bit Width() - bits of the value |
| Shifts.ShrWordsOnly | ttmath/ttmathuint.h:506-513 | when no bits remain after the word move, it is the whole right shift and its last bit is the bit Rcr returns |
| Shifts.ShrWordsOnlyPastWidth | ttmath/ttmathuint.h:455-466 | a move past the width is the whole right shift, and its last bit is right |
| Shifts.ShrWordsOnlyInside | ttmath/ttmathuint.h:467-481 | a move inside the width returns bit bits - 1 of the value |
| Shifts.ShlCompose | ttmath/ttmathuint.h:411-434 | the word move followed by the rest_bits shift is the whole shift, and the last bit out is the right one |
| Shifts.ShrCompose | ttmath/ttmathuint.h:506-529 | the same for right shifts |
| Shifts.ShiftByZero | ttmath/ttmathuint.h:408-409 | a shift by 0 leaves the value unchanged |
| Bitwise.ValAnd | ttmath/ttmathuint.h:668-674 | word-by-word AND is AND of the values |
| Bitwise.ValOr | ttmath/ttmathuint.h:680-686 | word-by-word OR is OR of the values |
| Bitwise.ValXor | ttmath/ttmathuint.h:692-698 | word-by-word XOR is XOR of the values |
| Bitwise.ValNot | ttmath/ttmathuint.h:704-710 | complementing each word complements the value: the two add up to B^n - 1 |
| Bitwise.ValNotUpTo | ttmath/ttmathuint.h:724-736 | complementing the words below k and the low idx+1 bits of word k gives 2^(w*k+idx+1) - 1 - value |
| Bitwise.ClearedVal | ttmath/ttmathuint.h:1876-1909 | words whose bits are the old bits with the low n cleared hold value - value mod 2^n |
| Bitwise.SetBitVal | ttmath/ttmathuint.h:651-662 | adding 2^bit to word index adds 2^(index*w+bit) to the value |
| Bitwise.SetBitWord | ttmath/ttmathuint.h:651-662 | setting the bit in its word sets exactly that bit of the value and returns its old state |
| Bitwise.LeadingBitOfVal | ttmath/ttmathuint.h:598-618 | the leading bit of the highest nonzero word, offset by w times its index, is the leading bit of the value |
| Bitwise.ShlTopWordToTop | ttmath/ttmathuint.h:570-575 | shifting by the clear bits above the leading bit of the top word multiplies by a power of two and sets the top bit |
| Bitwise.XorMask | ttmath/ttmathuint.h:729-735 | XOR with the mask of k low bits complements a value below 2^k |
| Bitwise.MaskShr | ttmath/ttmathuint.h:729-733 | TTMATH_UINT_MAX_VALUE >> s is the mask of the low w - s bits |
| Mult.ShiftAddStep | ttmath/ttmathuint.h:901-912 | doubling the partial product and adding y when the next bit is set gives the product of one more top bit, never above x * y |
| Mult.WordProductPass | ttmath/ttmathuint.h:767-788 | adding the double word of u[k] * m at k extends the product from k to k + 1 words |
| Mult.SchoolbookStep | ttmath/ttmathuint.h:1022-1027 | adding m * b[k] at i + k extends a row of the schoolbook product by one word |
| Mult.SchoolbookBound | ttmath/ttmathuint.h:1020-1028 | the partial sums of the schoolbook product never exceed the whole product |
| Mult.DoubleProductBound | ttmath/ttmathuint.h:994-1031 | a product of two n-word numbers fits in 2n words, so Mul1Big and Mul2Big never overflow |
| Mult.LowWords | ttmath/ttmathuint.h:973-980 | the low n words hold the product mod B^n, and the high words are all zero exactly when it fits |
| Mult.MulIntGuardWraps | ttmath/ttmathuint.h:772 | with one word, the guard as written takes the two-word branch at word 0 |
| Mult.MulIntGuardAgrees | ttmath/ttmathuint.h:772 | from two words on, the guard as written is x1 + 2 <= value_size |
| LongDiv.LongDivStep | ttmath/ttmathuint.h:1082-1083 | one double-word division extends the quotient and remainder by one word |
| LongDiv.DivIntStep | ttmath/ttmathuint.h:1082-1083 | the word loop of DivInt keeps the quotient of the words from i up and its remainder |
| LongDiv.Div1Recurrence | ttmath/ttmathuint.h:1255-1308 | the quotient bit at each step is whether 2R + bit >= d, and the remainder follows |
| LongDiv.Div1Shift | ttmath/ttmathuint.h:1268 | shifting the dividend register brings out the next dividend bit and takes in the quotient bit |
| LongDiv.Div1PositiveStep | ttmath/ttmathuint.h:1267-1272 | the positive step: the carry of rest + rest and the borrow of the subtraction agree exactly when 2R + bit >= d, and with the carry 0 the quotient bit is the negated borrow, as the library computes it |
| LongDiv.Div1PositiveNoCarry | ttmath/ttmathuint.h:1267-1269 | in every reachable positive state 2R + 1 < 2^t, so rest + rest never carries there |
| LongDiv.Div1NegativeStep | ttmath/ttmathuint.h:1288-1291 | the repaired negative step: the quotient bit is 1 exactly when both the carry of rest + rest and the carry of rest + divisor are 1; the library overwrites the first and keeps only the second |
| LongDiv.Div1Start | ttmath/ttmathuint.h:1262-1264 | the invariant holds before the first step |
| LongDiv.Div1Finish | ttmath/ttmathuint.h:1278-1306 | at the end the register holds x / d, and rest holds x mod d, or that minus d in the negative mode |
| LongDiv.Div1AsWrittenWrong | ttmath/ttmathuint.h:1267-1303 | with 32-bit registers the loop as written gives 0x55555555 remainder 0xAAAAAAA9 for 4294967295 / 4294967294, whose quotient and remainder are 1 and 1 |
| LongDiv.Div2Window | ttmath/ttmathuint.h:1383-1392 | the divisor moved to the leading bit of x, or one bit less, is the largest d * 2^k not above x |
| LongDiv.Div2Combine | ttmath/ttmathuint.h:1330-1341 | x / d == 2^k + (x - d*2^k) / d with the same remainder, which is how Div2 recurses |
| Knuth.TrialQuotient | ttmath/ttmathuint.h:1735-1784 | the trial digit is below B |
| Knuth.TrialQuotientBounds | ttmath/ttmathuint.h:1735-1784 | for a normalised divisor, the trial digit is the true digit or one more |
| Knuth.TrialQuotientIsMax | ttmath/ttmathuint.h:1735-1784 | the trial digit is the largest q with q * (v1 v0) <= u2 u1 u0 |
| Knuth.ProductTest | ttmath/ttmathuint.h:1757-1765 | the test qp * v0 > rp * B + u0 is exactly qp * (v1 v0) > u2 u1 u0 |
| Knuth.CalcStart | ttmath/ttmathuint.h:1743-1747 | the first estimate from u2 u1 / v1 satisfies the correction invariant |
| Knuth.CalcDecrease | ttmath/ttmathuint.h:1769-1777 | a decrease keeps the estimate above or at the trial digit, and stops at it once rp leaves the word |
| Knuth.CalcOverflow | ttmath/ttmathuint.h:1753-1754 | an estimate of B or more is one too big |
| Knuth.CalcStop | ttmath/ttmathuint.h:1767-1779 | when both tests fail, the estimate is the trial digit |
| Knuth.DoubleWordDigits | ttmath/ttmathuint.h:1743-1747 | the high word of u2 u1 / v1 is 0 or 1, 1 exactly when the quotient reaches B |
| Knuth.MulSubExact | ttmath/ttmathuint.h:1793-1796 | a multiply-subtract without a borrow leaves the digit and the remainder |
| Knuth.MulSubAddBack | ttmath/ttmathuint.h:1796-1809 | after a borrow, the add-back carries and leaves the digit one less and the remainder |
| Knuth.WindowDigit | ttmath/ttmathuint.h:1611-1620 | the window below V * B gives a digit below B, and the partial remainder shrinks by one word |
| Knuth.NormalizeDivisor | ttmath/ttmathuint.h:1700-1707 | the shift sets the top bit of the divisor's top word and multiplies it by 2^k |
| Knuth.NormalizeDividend | ttmath/ttmathuint.h:1702-1709 | the shifted dividend plus the bits pushed out equals the dividend times 2^k |
| Knuth.DividendStart | ttmath/ttmathuint.h:1597-1602 | the first window with the word above it is the scaled dividend |
| Knuth.DividendBelow | ttmath/ttmathuint.h:1597-1602 | the scaled dividend fits in its words |
| Knuth.StartBound | ttmath/ttmathuint.h:1597-1607 | the scaled dividend lies below the scaled divisor times B^(j+1) |
| Knuth.FinishDivision | ttmath/ttmathuint.h:1631-1634 | the quotient of the scaled numbers is U / V, and the unscaled remainder is U mod V |
| Knuth.ScaledDivMod | ttmath/ttmathuint.h:1696-1732 | scaling both operands by s keeps the quotient and scales the remainder |
| Knuth.DigitStep | ttmath/ttmathuint.h:1618-1622 | one digit extends U = Q * V + R by its place |
| Powers.PowerHalving | ttmath/ttmathuint.h:1843-1858 | x^n is x^(n mod 2) * (x*x)^(n/2) |
| Powers.PowStep | ttmath/ttmathuint.h:1843-1858 | one pass keeps result * start^pow |
| Powers.ProductOverflowPersists | ttmath/ttmathuint.h:1843-1848 | a product that does not fit makes the whole power not fit |
| Powers.SquareOverflowPersists | ttmath/ttmathuint.h:1850-1856 | a square that does not fit, while bits remain, makes the whole power not fit |
| Powers.PowLoopAsWrittenSound | ttmath/ttmathuint.h:1841-1859 | the loop as written never reports a wrong result without a carry |
| Powers.PowAsWrittenSound | ttmath/ttmathuint.h:1831-1866 | Pow as written gives 2 exactly for 0^0, a result without a carry only when it is x^p, and a carry whenever x^p does not fit |
| Powers.PowAsWrittenSpuriousCarry | ttmath/ttmathuint.h:1850-1856 | Pow as written reports a carry for x^1 when x * x does not fit, although x^1 fits |
| Text.CharToDigit | ttmath/ttmathuint.h:1987-2006 | -1 for anything that is not a digit below the base; a digit below the base otherwise, only for letters and digits |
| Text.CharToDigitUnchecked | ttmath/ttmathuint.h:1966-1975 | the unchecked digit in w-bit unsigned arithmetic, below 2^w; on every character the checked map accepts in base 36 it gives the same digit |
| Text.DigitRoundTrip | ttmath/ttmathuint.h:2020-2026 | DigitToChar then CharToDigit gives the digit back, and the character is 0-9 or A-F |
| Text.CharRoundTrip | ttmath/ttmathuint.h:1987-2026 | CharToDigit then DigitToChar gives the capital form of the character |
| Text.UncheckedWraps | ttmath/ttmathuint.h:1966-1975 | below 'A' - 10 it wraps: ' ' gives 2^w - 23 |
| Text.ToDigitsShape | ttmath/ttmathuint.h:2337-2357 | the digits ToString makes are nonempty, without a leading zero unless the value is zero |
| Text.ToDigitsValue | ttmath/ttmathuint.h:2337-2357 | the digits ToString makes are digits of the base and denote the value |
| Text.DigitsExtend | ttmath/ttmathuint.h:2417-2420 | one more digit multiplies the value read by the base and adds the digit |
| Text.SkipWhite | ttmath/ttmathuint.h:2365-2369 | the index skips exactly white space and stops at the first other character |
| Text.DigitRunEnd | ttmath/ttmathuint.h:2410-2422 | the run from i is all digits, and it stops at a non-digit or the end |
| Text.RunEndsAt | ttmath/ttmathuint.h:2410-2422 | the run of digits ends exactly at the first non-digit |
| Text.ToDigitsReadBack | ttmath/ttmathuint.h:2337-2430 | FromString reads back all of ToString's output as the same value |
| Text.RunOfDigits | ttmath/ttmathuint.h:2410-2422 | a string of digits is read to its end |
| Text.StopsAtNonDigit | ttmath/ttmathuint.h:2376-2379 | "12foo" in base 10 reads as 12 and stops at 'f' |

## Left out

- `ttmath/ttmathuint64.h` (the 64-bit table conversions for 32-bit platforms) and the x86 and
  generic C++ backends: `ttmath/ttmathuint_x86_64.h` is the one backend modelled.
- The assembly of the word primitives: each is stated by the arithmetic it computes.
- The word width is a parameter `w >= 8` of each object. The library's is fixed at 32 or 64 by
  `TTMATH_BITS_PER_UINT`.
- The 64-bit `SetFromTable` (`ttmath/ttmathuint.h:268-309`): only the 32-bit version is modelled.
- Printing and logging (PrintTable, PrintLog, TTMATH_LOG), streams, the operators that only
  call the methods modelled here, the constructors from strings and built-in integers,
  `ToUInt` and `Size`.
- Characters (`tchar_t`) are Dafny `char`.
- `after_source` is returned as an index into the string, and `value_read` is always returned
  rather than through an optional out-parameter.
- TTMath.UInt.constructor: the default constructor of the library leaves the words
  uninitialised; the model clears them.
- TTMath.UInt.MulInt: the words after a carry hold a partial product, which the contract does
  not state.
- TTMath.UInt.Mul1: the words after a carry are not stated.
- TTMath.UInt.FromString: the value after a carry is not stated.
- TTMath.UInt.Mul1Big: the library widens both factors in one pair of loops; the model widens
  each by its own call of Widen.
- Text.DigitToChar: requires a digit below 16, the range the library documents.
- TTMath.UInt.Div1: admits a divisor that is this object, because the standard test settles
  that case (equal operands) before the loop that the library guards.
- TTMath.UInt.Div2: requires the divisor to be a different object, as the library asserts;
  so do Div3, Div1Calculate and Div with algorithms 2 and 3.
- TTMath.UInt.Div, Div1, Div2, Div3 and DivInt: the library's remainder is an optional
  out-parameter (a null pointer by default, as `operator/` uses it); the model always returns
  the remainder, in a separate object for Div, Div1, Div2 and Div3, and as an out-parameter of
  DivInt. The library's Div2 and Div3 also accept the divisor's own object as the remainder;
  the model does not.

## Findings

| source | as written | input that shows it | evidently intended | confidence | as-written member | corrected member |
|---|---|---|---|---|---|---|
| ttmath/ttmathuint.h:1288-1294 | in the negative mode of Div1_Calculate, `c = rest.Add(divisor)` overwrites the carry of `rest.Add(rest, c)`, and the quotient bit is the carry of the second addition alone; with a divisor above 2^(Width()-1) the second addition can carry while the first does not | one 32-bit word, 4294967295 / 4294967294: at the second pass rest holds 3 (R = 1 less the divisor), 7 + divisor carries, and the loop returns to the positive mode although 2R + 1 = 3 is below the divisor; it ends with quotient 0x55555555 and remainder 0xAAAAAAA9 instead of 1 and 1 | the quotient bit of the negative step is 1 exactly when both additions carry, that is when 2R + bit >= divisor | not executed | LongDiv.Div1AsWrittenWrong | TTMath.UInt.Div1RestStep |
| ttmath/ttmathuint.h:1850-1856 | Pow squares the running base after every pass, also after the last bit of the exponent, and reports a carry when that square does not fit | one 32-bit word, x = 65536, pow = 1: x^1 = 65536 fits, but x * x = 2^32 does not, so Pow returns 1 | the square is taken only while bits of the exponent remain | not executed | Powers.PowAsWrittenSpuriousCarry | TTMath.UInt.PowPass |
| ttmath/ttmathuint.h:772 | `x1 <= value_size - 2` is computed in unsigned words and wraps for `value_size == 1` | UInt<1>::MulInt: at x1 = 0 the guard holds, and AddTwoInts is called at index 0, which needs `index < value_size - 1` and writes word 1 past the end | the two-word branch is taken while x1 + 2 <= value_size | not executed | Mult.MulIntGuardWraps | TTMath.UInt.MulInt |
