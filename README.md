# redscale magnitude engine in Dafny

This project models the unsigned arbitrary-precision engine of redscale, a
JavaScript big-number library. It covers the modules under
`src/js/redscale/`:

- limb utilities and radix conversion (`util.js`);
- bit shifts (`bitwise.js`);
- addition, subtraction, multiplication, squaring, division, gcd and powers
  (`arithmetic.js`);
- signed residues, Montgomery reduction, limb inverses, modular powers and
  modular inverses (`modular.js`);
- the in-place signed accumulator `redscale.arrays.SignArray`
  (`arrays.signarray.js`), which the model's `modInverse` uses for its
  signed coefficients (see "## Left out" for the accumulator the source
  names there).

A magnitude is an `Int16Array` of 16-bit limbs, least significant first.
Every routine reads a limb through `& 0xFFFF`, so the model uses
`seq<Limb>` with `Limb = 0..0xFFFF`. `Limbs.Val` gives a magnitude's value,
and "normalized" means the magnitude is empty or its top limb is nonzero.

JavaScript typed-array behaviour is written out:

- a read past the end gives 0 (`Limbs.Get`);
- a write past the end is dropped;
- shift counts pass through `>>>` and `&`, so they count modulo 2^32;
- a typed array of negative length throws, which the model returns as
  `Err(InvalidArrayLength)`.

Thrown errors are results. "Division by zero." becomes `Err(DivisionByZero)`
and "RedScale: Is not a number." becomes `Err(NotANumber)`.

The form follows the source:

- **Loops are methods.** Routines that fill a fresh buffer with a loop are
  methods over a local `array<Limb>`. Each states the value it computes, for
  example `Val(r) == Val(a) * Val(b)`. Routines that loop over local arrays
  (gcd, pow, modPowStandard, modInverse) are methods with loop invariants.
- **Recursive compositions are recursive methods.** The two Karatsuba
  routines recurse through `Multiply` and `Square`.
- **The signed accumulator is a class.** `SignArrays.SignArray` has `sign`
  and `magnitude` fields, which `SignAdd` and `SignSubtract` overwrite.
- **Specification functions are pure.** Each method is proved against one:
  - `Radix.Digits`, `Radix.ParseGroups` and `Radix.FoldGroups` for the
    radix conversions;
  - `Modular.InverseLoop` and `Modular.Round` for modInverse;
  - `Modular.PowerMod` for modPow;
  - `Numbers.Gcd`, `Numbers.BitLen`, `Numbers.TrailingZeros` and
    `Numbers.Pow` on plain numbers.
- **Partners close each spec.** Each spec function has lemmas tying it to an
  independent meaning: the gcd divides both operands and every common
  divisor divides it, parsing reads back what printing writes, and so on.

Where the code and the library's own description differ, the model follows
the code:

- `fromString` does not reject every malformed string. A first group that
  `parseInt` rejects is stored as NaN into an `Int16Array` and reads as 0.
  A later group fails only when its first character is not a digit;
  otherwise `parseInt` reads its longest digit prefix (`Radix.FirstGroupExamples`).
- `pow` takes its shortcut only for the magnitude `[1]`. The shift it
  performs there, by `aZero * expoNum`, is a shift by 0.
- `modInverse` does not always return `a^-1 mod m` for coprime inputs
  (see Findings).

## Model

| member | source | states |
|---|---|---|
| Util.IsZero | src/js/redscale/util.js:104-106 | an empty array has value 0, and for a normalized array emptiness is exactly value 0 |
| Util.IsOdd | src/js/redscale/util.js:113-115 | true exactly when the value is odd; an empty array is even |
| Util.IsEven | src/js/redscale/util.js:122-124 | true exactly when the value is even |
| Util.Copy | src/js/redscale/util.js:136-144 | target cell tarStart+i holds source cell srcStart+i (0 past the source's end) for i < len; every other cell is unchanged; writes outside the target are dropped |
| Util.IntLeadingZeroes | src/js/redscale/util.js:151-173 | the count is 16 minus the bit length of the low 16 bits: 16 for 0, else the r with 2^(15-r) <= x < 2^(16-r) |
| Util.IntTrailingZeroes | src/js/redscale/util.js:180-202 | 16 when the low 16 bits are 0, else the exponent of the largest power of 2 dividing them |
| Util.NumberLeadingZeroes | src/js/redscale/util.js:209-216 | 16 for an empty array, else 16*len minus the bit length of the value |
| Util.NumberTrailingZeroes | src/js/redscale/util.js:223-230 | for a nonzero value, the exponent of the largest power of 2 dividing it; 16 per limb (16 for empty) when the value is 0 |
| Util.TrimLeadingZeroes | src/js/redscale/util.js:239-252 | the result is normalized, has the same value, is a prefix of the input, and is the input itself when the input is already normalized |
| Util.Compare | src/js/redscale/util.js:260-278 | a longer array compares 1 and a shorter one -1; at equal lengths, and for two normalized arrays, the result is the sign of Val(a) - Val(b) |
| Util.ToInt32 | src/js/redscale/util.js:286-292 | the two low limbs give the value modulo 2^32 |
| Radix.RadixTables | src/js/redscale/util.js:29-78 | for every radix r in 2..36: the 32-bit divisor pair is r^RADIX_INT32_INDEX[r], the largest power of r below 2^31; RADIX_DIVISOR16_INDEX[r] is r^RADIX_INT16_INDEX[r], the largest power below 2^15 |
| Radix.GroupTable | src/js/redscale/util.js:49-78 | fromString's group width lies in 1..15 and its multiplier is r to that width, below 2^15 |
| Radix.OutputRadix | src/js/redscale/util.js:302 | toString's radix lies in 2..36; it is the requested radix when that is in range and 10 otherwise |
| Radix.Digits | src/js/redscale/util.js:307 | Number.prototype.toString(r) of an integer is a nonempty string of radix-r digits that denotes it |
| Radix.DigitOfChar | src/js/redscale/util.js:365 | parseInt reads back the digit that toString writes |
| Radix.DigitsLength | src/js/redscale/util.js:307 | the digits of a number have no leading zero, so a positive v has n digits exactly when r^(n-1) <= v < r^n |
| Radix.DigitsJoin | src/js/redscale/util.js:309-315 | the digits of q*r^k + rem (q > 0, rem < r^k) are the digits of q followed by rem zero-padded to k digits |
| Radix.GroupStep | src/js/redscale/util.js:309-313 | one turn of toString's loop moves the padded group of the remainder from the number into the string without changing the final text |
| Radix.ZeroStringPrefix | src/js/redscale/util.js:97 | the first m characters of ZERO_STRING are m zeros |
| Radix.SmallToInt32 | src/js/redscale/util.js:307 | a remainder below the radix divisor (below 2^31) is its own toInt32 |
| Radix.ToString | src/js/redscale/util.js:301-320 | the result is "-" (exactly when aSigNum < 0) followed by the radix digits of the value, in radix 10 when the radix is out of range; "0" for the empty array |
| Radix.ParseInt | src/js/redscale/util.js:365 | parseInt of a group is NaN exactly when the group is empty or starts with a non-digit; otherwise it is the value of the longest digit prefix, below r^len, and the value of the whole group when every character is a digit |
| Radix.FirstGroupEnd | src/js/redscale/util.js:360 | the first group ends after len mod k characters, or k when that is 0; it is nonempty for a nonempty string and leaves a multiple of k |
| Radix.FoldGroups | src/js/redscale/util.js:368-392 | the fold over the later groups fails only with "Is not a number" |
| Radix.ParseGroups | src/js/redscale/util.js:352-392 | fromString's number before the buffer cut; it fails only with "Is not a number" |
| Radix.FoldDigits | src/js/redscale/util.js:368-392 | on all-digit groups the fold appends their digits to the accumulator: acc*r^len + value(t) |
| Radix.FoldGroupsRejects | src/js/redscale/util.js:369-371 | the fold fails if and only if some group starts with a character that is not a digit |
| Radix.ParseGroupsRejects | src/js/redscale/util.js:365-371 | fromString fails if and only if some group after the first starts with a character that is not a digit |
| Radix.FirstGroupExamples | src/js/redscale/util.js:365-371 | "z" reads as 0, "1z" as 1 and "12z34" as 10002 in radix 10, while "1z234" is "Is not a number" |
| Radix.ParseGroupsDigits | src/js/redscale/util.js:352-395 | a string of radix-r digits reads as the number it denotes, without error |
| Radix.LeadingZeros | src/js/redscale/util.js:365-369 | leading zeros do not change the number a digit string denotes |
| Radix.ParseDigits | src/js/redscale/util.js:352-395 | parsing the digits that toString writes gives back the number |
| Radix.FromString | src/js/redscale/util.js:352-395 | the result is an error (NotANumber) exactly when ParseGroups is; otherwise it is normalized and its value is the parsed number modulo BASE^capacity, the buffer the source allocates |
| Radix.RoundTrip | test/redscale/biginteger.js:39-41 | fromString(toString(1, a, r), r) == a for normalized a, in every radix 2..36, when the allocated buffer holds the value |
| Radix.ReadGroups | src/js/redscale/util.js:368-392 | the loop succeeds exactly when the fold over the later groups does, and then the buffer holds the low limbs of the folded value |
| Radix.ReadGroup | src/js/redscale/util.js:369-391 | a rejected group leaves the buffer unchanged and means the fold fails; an accepted one moves the buffer to the fold's next accumulator |
| Radix.MultiplyAdd | src/js/redscale/util.js:373-391 | the two inner loops turn the buffer's low limbs of acc into those of acc*m + x |
| Radix.MultiplyInto | src/js/redscale/util.js:373-381 | the multiply loop turns the buffer's low limbs of acc into those of acc*mul, dropping the last carry |
| Radix.AddSmallInto | src/js/redscale/util.js:383-391 | the add loop turns the buffer's low limbs of acc into those of acc + x, dropping the last carry |
| Radix.GroupAt | src/js/redscale/util.js:369-371 | the group at character i either makes the fold fail or is folded in, with a value below 2^15 |
| Radix.GroupFits | src/js/redscale/util.js:357-358 | a group of at most k digits reads below 2^15, so it fits an Int16 cell and the add loop's carry |
| Radix.FirstLimb | src/js/redscale/util.js:365-366 | the fresh buffer with the first group in limb 0 holds the low limbs of the first group's value |
| Bitwise.BitShiftLeft | src/js/redscale/bitwise.js:12-41 | an error exactly for an empty source with shift 0 and no pad; otherwise the value times 2^(shift mod 2^32). A nonzero source gives its minimal limbs followed by padZeroes zero limbs. A zero source gives zero limbs, one fewer than (shift+15)/16 + pad when it is the empty array |
| Bitwise.ShiftLeftLength | src/js/redscale/bitwise.js:13-25 | the computed length is negative only for the empty source with shift 0 and pad 0; otherwise it is ceil((bitLength + shift)/16) + pad (one less for the empty source) |
| Bitwise.ShiftLeftInto | src/js/redscale/bitwise.js:27-38 | the fresh target holds the digits of value*2^shift, by copy when the shift is 0 and by the loop otherwise |
| Bitwise.ShiftLeftLimbs | src/js/redscale/bitwise.js:31-38 | the shifting loop fills the target with the digits of value*2^shift, including the final carry written only when the target is longer than the source |
| Bitwise.LeftShiftDigit | src/js/redscale/bitwise.js:32-35 | limb j shifted by q bits plus the carry out of limb j-1 is digit j of value*2^q |
| Bitwise.ShiftLeftResult | src/js/redscale/bitwise.js:17-38 | the filled target has value value*2^shift; for a nonzero source it is the minimal limbs plus pad zeros, for a zero source all zeros |
| Bitwise.BitShiftRight | src/js/redscale/bitwise.js:50-74 | the result is the normalized floor(value / 2^(shift mod 2^32)), also for a source with leading zero limbs, and empty for an empty source or a shift of at least the bit length |
| Bitwise.ShiftRightLength | src/js/redscale/bitwise.js:51-64 | the computed length, clamped at 0, is the limb length of the quotient |
| Bitwise.ShiftRightInto | src/js/redscale/bitwise.js:64-71 | the fresh target holds the digits of floor(value / 2^shift), by copy when the shift is 0 |
| Bitwise.ShiftRightLimbs | src/js/redscale/bitwise.js:68-71 | the loop joins the high bits of limb i with the low bits of limb i+1 (0 past the end) into the digits of the quotient |
| Bitwise.RightShiftDigit | src/js/redscale/bitwise.js:69-70 | digit t of value / 2^sh is built from limbs sh/16 + t and sh/16 + t + 1 |
| Bitwise.CopyLimbs | src/js/redscale/bitwise.js:66 | the shift-free copy into a target possibly shorter than the source holds the low digits of the value |
| Arithmetic.Add | src/js/redscale/arithmetic.js:9-32 | the normalized sum |
| Arithmetic.SumBelow | src/js/redscale/arithmetic.js:12 | an array of max(len a, len b) + 1 limbs always holds the sum |
| Arithmetic.AddInto | src/js/redscale/arithmetic.js:19-29 | adding b limb by limb and rippling the carry leaves v + Val(b) in the buffer |
| Arithmetic.CarryRipple | src/js/redscale/arithmetic.js:25-29 | the carry loop stores the pending carry into the higher limbs |
| Arithmetic.Subtract | src/js/redscale/arithmetic.js:40-63 | for Val(a) >= Val(b), the normalized difference |
| Arithmetic.SubtractInto | src/js/redscale/arithmetic.js:50-60 | the two loops leave v - Val(b) in the buffer |
| Arithmetic.SubtractLimbs | src/js/redscale/arithmetic.js:50-54 | the first loop leaves a borrow of 0 or -1 and the value v - Val(b) once the borrow is counted |
| Arithmetic.BorrowRipple | src/js/redscale/arithmetic.js:56-60 | the borrow loop clears the pending borrow |
| Arithmetic.BorrowClears | src/js/redscale/arithmetic.js:56-60 | a borrow cannot pass the top limb when the difference is nonnegative, so the loop ends inside the array |
| Arithmetic.Multiply | src/js/redscale/arithmetic.js:71-100 | the normalized product on both paths, empty when either operand is empty |
| Arithmetic.MultiplyInto | src/js/redscale/arithmetic.js:81-97 | the schoolbook rows leave Val(a)*Val(b) in the zeroed buffer |
| Arithmetic.MultiplyRow | src/js/redscale/arithmetic.js:84-96 | one row adds 65536^i * x * Val(b), and the cells above the row are untouched |
| Arithmetic.MultiplyAccumulate | src/js/redscale/arithmetic.js:88-94 | the inner loop adds 65536^i * x * Val(b) less the carry left for cell i + len b |
| Arithmetic.HighNum | src/js/redscale/arithmetic.js:120-129 | the limbs of a from kLen up, or empty when a is not longer |
| Arithmetic.LowNum | src/js/redscale/arithmetic.js:131-140 | a itself when it is not longer than kLen, else the normalized value of its low kLen limbs |
| Arithmetic.KaratsubaSplit | src/js/redscale/arithmetic.js:142-145 | a = low + 65536^kLen * high with both halves at most kLen limbs long |
| Arithmetic.KaratsubaMiddle | src/js/redscale/arithmetic.js:149-157 | (lo_a+hi_a)(lo_b+hi_b) - hi_a*hi_b - lo_a*lo_b is the cross sum, and both subtractions are in range |
| Arithmetic.ShiftUpLimbs | src/js/redscale/arithmetic.js:154 | the shift by 16*kLen bits multiplies by 65536^kLen |
| Arithmetic.MultiplyKaratsuba | src/js/redscale/arithmetic.js:110-160 | the normalized product |
| Squaring.SquareSplit | src/js/redscale/arithmetic.js:440-453 | a^2 is the diagonal sum plus twice the cross products |
| Squaring.HalveDiagonal | src/js/redscale/arithmetic.js:440-446 | the first loop stores half of the diagonal; twice it, plus the low bit of a_0^2, is the diagonal |
| Squaring.MultiplyAddAdd | src/js/redscale/arithmetic.js:414-434 | adds a_i times the limbs above it at limb offset 2i+1 |
| Squaring.AddCrossProducts | src/js/redscale/arithmetic.js:448-450 | the second loop adds every cross product once |
| Squaring.SquareFinish | src/js/redscale/arithmetic.js:452-455 | doubling and restoring the low bit gives a^2, normalized for a nonzero a |
| Squaring.Square | src/js/redscale/arithmetic.js:395-456 | the square on both paths; empty for the empty array, the untrimmed [0] for an all-zero array of 1 to 120 limbs, normalized otherwise |
| Squaring.SquareMiddle | src/js/redscale/arithmetic.js:502-504 | (h+l)^2 - (h^2+l^2) is the cross term, and the subtraction is in range |
| Squaring.SquareKaratsuba | src/js/redscale/arithmetic.js:464-506 | the normalized square |
| Division.DivideBy1n | src/js/redscale/arithmetic.js:169-204 | q*d + r = n and r < d, with r normalized and q normalized when n has more than one limb (the untrimmed [n0 / d0] otherwise) |
| Division.LongDivide | src/js/redscale/arithmetic.js:184-199 | the digit loop gives Val(q)*d + rem = Val(n) with rem < d |
| Division.EstimateBracket | src/js/redscale/arithmetic.js:280-287 | with a normalized divisor, the clamped estimate from the three top window limbs and two top divisor limbs is the true digit or one more |
| Division.EstimateExactShortDivisor | src/js/redscale/arithmetic.js:287 | for a two-limb divisor the masked estimate is the exact digit, so toString's radix divisors are unaffected |
| Division.EstimateAsWrittenSkipsDigit | src/js/redscale/arithmetic.js:287-289 | for the window of 2^63 over 2^47 + 1 the masked estimate is 0 while the digit is 0xFFFF |
| Division.DivMulSub | src/js/redscale/arithmetic.js:236-252 | subtracts 65536^qIndex * quot * Val(b), wrapping through 65536^(qIndex+len b+1) when the top cell borrows; other cells are unchanged |
| Division.DivAdd | src/js/redscale/arithmetic.js:262-278 | adds 65536^qIndex * Val(b), the carry out of the top cell dropped; other cells are unchanged |
| Division.KnuthDigit | src/js/redscale/arithmetic.js:281-298 | one quotient digit: the window loses quot * divisor and ends below the divisor |
| Division.CorrectDigit | src/js/redscale/arithmetic.js:289-296 | at most one add-back turns an estimate one too large into the true digit |
| Division.KnuthLoop | src/js/redscale/arithmetic.js:280-299 | rem + q*d keeps the dividend's value and the remainder ends below the divisor |
| Division.DivideKnuth | src/js/redscale/arithmetic.js:214-302 | normalized q and r with q*d + r = n and r < d |
| Division.Divide | src/js/redscale/arithmetic.js:310-322 | an error (DivisionByZero) exactly for an empty divisor; otherwise the normalized quotient and remainder of n by d |
| Euclid.OddStart | src/js/redscale/arithmetic.js:331-337 | after shifting out their factors of 2 both operands are odd and the gcd is 2^min times theirs |
| Euclid.EvenStep | src/js/redscale/arithmetic.js:342-343 | stripping an even b keeps the gcd with an odd a |
| Euclid.GcdSwapSubtract | src/js/redscale/arithmetic.js:347-350 | for a > b, (b, a - b) has the same gcd and a smaller sum |
| Euclid.GcdSubtractRight | src/js/redscale/arithmetic.js:351-352 | for a <= b, (a, b - a) has the same gcd and a smaller sum |
| Euclid.RestoreTwos | src/js/redscale/arithmetic.js:357 | the final shift multiplies by 2^shiftNum and is normalized |
| Euclid.BinaryGcd | src/js/redscale/arithmetic.js:330-358 | for nonzero operands, the normalized gcd |
| Euclid.RemainderStep | src/js/redscale/arithmetic.js:369-373 | the remainder step (a, b) to (b, a mod b) keeps the gcd |
| Euclid.Gcd | src/js/redscale/arithmetic.js:366-378 | the normalized gcd, for every input but a zero a with a one-limb b |
| Numbers.GcdDivides | src/js/redscale/arithmetic.js:366-378 | the gcd divides both operands |
| Numbers.GcdGreatest | src/js/redscale/arithmetic.js:366-378 | every common divisor divides the gcd |
| Numbers.BitLenBounds | src/js/redscale/util.js:209-216 | a positive n has 2^(BitLen-1) <= n < 2^BitLen |
| Numbers.TrailingZerosSpec | src/js/redscale/util.js:223-230 | 2^TrailingZeros(n) divides n and leaves an odd quotient |
| Powers.OddStep | src/js/redscale/arithmetic.js:525 | after the multiply at an odd count the partial power stays at most the final power |
| Powers.SquareStep | src/js/redscale/arithmetic.js:529 | the square before a nonzero count stays at most the final power |
| Powers.Power | src/js/redscale/arithmetic.js:514-533 | the normalized a^(e mod 2^32), with [1] for e = 0 |
| Modular.Mod | src/js/redscale/modular.js:10-19 | an error for an empty modulus; otherwise the normalized least nonnegative residue of the signed number, a zero residue staying zero for either sign |
| Modular.NegatedResidue | src/js/redscale/modular.js:14-16 | the residue of -x is 0 when x's is, and m minus x's residue otherwise |
| Modular.NewtonStep | src/js/redscale/modular.js:146-149 | a Newton step from an inverse modulo p gives one modulo q when q divides p^2 |
| Modular.NewtonChain | src/js/redscale/modular.js:146-149 | the four masked steps from an odd a reach an inverse modulo 2^16 |
| Modular.MaskedInverse | src/js/redscale/modular.js:151 | the final mask keeps the inverse |
| Modular.ModInverseInt16 | src/js/redscale/modular.js:140-152 | a result in 0..65535 that, for an odd low limb x, satisfies x*r = 1 modulo 2^16 |
| Modular.RedcAdd | src/js/redscale/modular.js:57-60 | one REDC pass adds m*u*65536^i with u = a[i]*mInvDigit mod 2^16, and throws exactly when u = 0 at i = 0 |
| Modular.RedcStep | src/js/redscale/modular.js:57-60 | keeps the value congruent to a and clears digit i |
| Modular.ExactShift | src/js/redscale/modular.js:65 | with the low limbs zero, the shift divides by R = 65536^mLen exactly |
| Modular.SubtractWhileAtLeast | src/js/redscale/modular.js:67-69 | the closing loop leaves the residue below m |
| Modular.MontgomeryResult | src/js/redscale/modular.js:65-71 | the result r satisfies r*R = a modulo m |
| Modular.ModMontgomery | src/js/redscale/modular.js:52-72 | an error exactly when the first REDC digit is 0; otherwise r < m, normalized, with r*65536^mLen = a modulo m |
| Modular.Strip | src/js/redscale/modular.js:89-101 | halving while even leaves an odd u no larger than before |
| Modular.StripSpec | src/js/redscale/modular.js:89-115 | stripping keeps u = c*A modulo an odd M and keeps the gcd with the partner |
| Modular.Round | src/js/redscale/modular.js:88-123 | one round of the outer loop keeps v positive and lowers u + v |
| Modular.RoundSpec | src/js/redscale/modular.js:88-123 | one round keeps both congruences and the gcd, and leaves u or v odd |
| Modular.InverseLoopSpec | src/js/redscale/modular.js:88-124 | the loop's final coefficient d satisfies d*A = gcd(u, v) modulo an odd M |
| Modular.InverseLoopStart | src/js/redscale/modular.js:82-124 | from (m, a, 0, 1) the final d satisfies d*a = gcd(m, a) modulo an odd m |
| Modular.HalfOfSigned | src/js/redscale/modular.js:96-100 | the shifted magnitude with the sign cleared when it is empty is a valid signed value, equal to the old one halved toward zero |
| Modular.HalveInPlace | src/js/redscale/modular.js:92-100 | the coefficient becomes the odd-corrected, halved coefficient, and stays valid |
| Modular.StripInPlace | src/js/redscale/modular.js:89-101 | the in-place inner loop computes Strip |
| Modular.InverseRound | src/js/redscale/modular.js:89-123 | one round over the magnitudes and SignArray fields computes Round |
| Modular.InverseResult | src/js/redscale/modular.js:126-132 | reducing the signed coefficient modulo m gives (aSign a)*r = gcd modulo m |
| Modular.FinishAsWritten | src/js/redscale/modular.js:126-132 | the source's finish returns the magnitude of d after one added or subtracted m |
| Modular.FinishAsWrittenAgrees | src/js/redscale/modular.js:126-130 | while 0 < abs(d) < m the one-step finish equals the reduction modulo m |
| Modular.ModInverseFinishAsWrittenFails | src/js/redscale/modular.js:126-132 | for a = 20 and m = 27 the finish returns 4 with 20*4 = 26 modulo 27, while the reduction gives 23 with 20*23 = 1 |
| Modular.ModInverse | src/js/redscale/modular.js:81-133 | r < m, normalized, equal to the signed final coefficient reduced modulo m; for odd m, (aSign a)*r = gcd(m, a) modulo m, the inverse when they are coprime |
| Modular.ExponentStart | src/js/redscale/modular.js:203-206 | eBits is the bit length of the exponent and (eIndex, eShift) addresses its top bit |
| Modular.NextBit | src/js/redscale/modular.js:213-219 | one step down of the bit counter: eBits - 1, and the position of the next lower bit |
| Modular.SquareMultiplyStep | src/js/redscale/modular.js:222-228 | squaring, and multiplying by a on a set bit, turns a^q mod m into a^(2q + bit) mod m |
| Modular.SquareMultiplyMod | src/js/redscale/modular.js:222-228 | the square, and on a set bit the multiply, reduced modulo m |
| Modular.ScanBits | src/js/redscale/modular.js:221-237 | the scan from the top bit down turns a^(top bits) into a^e modulo m |
| Modular.PowOfResidue | src/js/redscale/modular.js:210 | reducing the base first does not change the power modulo m |
| Modular.ModPowStandard | src/js/redscale/modular.js:201-240 | an error exactly for an empty modulus; otherwise the normalized a^e mod m |
| Modular.PowerMod | src/js/redscale/modular.js:176-184 | the reduced power is below the modulus |
| Modular.ModPowReduced | src/js/redscale/modular.js:176-190 | after the reduction of the base, (a mod m)^e mod m; for a negative exponent sign its modInverse |
| Modular.OneIff | src/js/redscale/modular.js:168-169 | a normalized magnitude has value 1 exactly when it is [1] |
| Modular.ShortcutValues | src/js/redscale/modular.js:168-174 | the shortcuts agree with the power: e = 0 and a nonnegative base [1] give 1 mod m, a zero base with e > 0 gives 0 |
| Modular.PowerShortcuts | src/js/redscale/modular.js:168-174 | x^0 and 1^e are 1 modulo M, 0 for M = 1, and 0^e is 0 for e > 0 |
| Modular.ModPow | src/js/redscale/modular.js:163-191 | the shortcuts for e = 0 or magnitude [1] and for a zero base; otherwise the reduced power, or its inverse for a negative exponent sign |
| Modular.ModPowShortcutIgnoresSign | src/js/redscale/modular.js:168-170 | (-1)^1 modulo 5 is 4, while the [1] shortcut of Modular.ModPow returns 1 for either sign |
| Modular.ModPowCorrected | src/js/redscale/modular.js:163-191 | with the shortcut limited to a nonnegative sign, a nonnegative exponent always gives (a mod m)^e mod m |
| SignArrays.SignArray.constructor | src/js/redscale/arrays.signarray.js:9-12 | the object holds the given sign and magnitude |
| SignArrays.SignArray.SignAdd | src/js/redscale/arrays.signarray.js:20-48 | a stays valid and becomes old a + b; a zero a takes b's sign and magnitude and b is returned, otherwise a is returned; a zero b leaves a unchanged |
| SignArrays.SignArray.SignSubtract | src/js/redscale/arrays.signarray.js:56-84 | a stays valid and becomes old a - b and is returned; a zero a takes b's negated sign and magnitude; a zero b leaves a unchanged |
| Limbs.NormalizedUnique | src/js/redscale/util.js:239-252 | two normalized magnitudes with the same value are equal |
| Limbs.FromNatVal | src/js/redscale/util.js:375-391 | a buffer of len limbs holding the low digits of n has value n modulo 65536^len |

## Left out

- Float conversions: toNumber, fromSafeNumber, fromExpoNumber and fromNumber (util.js:330-469) compute with doubles and are not part of this model.
- Radix.FromString: the buffer length `(len * RADIX_BIT_INDEX[r] + 16) >>> 4` is computed with the table entry as its exact decimal in thousandths; the rounding of the double product is not modelled.
- Radix.FromString: its contract gives the parsed number modulo BASE^Capacity, the buffer fromString allocates. That this buffer always holds the number is not proved; Radix.RoundTrip takes it as a hypothesis.
- Radix.FromString: requires a radix in 2..36. For other radixes the source reads undefined table entries.
- Radix.RoundTrip: takes as a hypothesis that the allocated buffer holds the value; that the table's bits per digit always suffice is not proved.
- Radix.ParseInt: models parseInt only on the digit groups fromString passes it. Leading whitespace, a sign or a "0x" prefix, which parseInt would accept, are treated as non-digits.
- Radix.ToString: requires a normalized magnitude, as divide does.
- Arithmetic.Multiply: requires operands shorter than 2^28 limbs, so that every bit count fits the 32-bit shift counts; the same bound appears on Squaring.Square, Euclid.BinaryGcd, Euclid.Gcd, Powers.Power, Modular.ModMontgomery and Modular.ModPow.
- Powers.Power: also requires the power to fit in fewer than 2^28 - 1 limbs.
- Arithmetic.Subtract: requires Val(a) >= Val(b), because for a smaller minuend the borrow loop never ends.
- Euclid.BinaryGcd: requires nonzero operands, and Euclid.Gcd excludes a zero a with a one-limb b, because the source's loop never ends there.
- Division.DivideKnuth: uses the clamped estimate min(q̂, 0xFFFF) in place of the masked one (see Findings), so Division.Divide, Modular.Mod, Euclid.Gcd and Modular.ModPowStandard are proved for the corrected division.
- Modular.ModInverseInt16: computes with exact integers. The source's double products exceed 2^53 in the last Newton steps.
- Modular.ModInverse: requires a nonzero a, where the source loops forever, and a nonzero m. It uses the corrected finish (see Findings), and its congruence is proved for odd m only.
- Modular.ModMontgomery: requires mInvDigit * m[0] = -1 modulo 2^16, the caller's precondition in the source.
- Modular.ModPow: only its own dispatch (modular.js:163-191) is as written. It reaches the residues through the corrected division, and for a negative exponent sign it reaches the corrected Modular.ModInverse (see Findings).
- Modular.ModPow: covers exponents of at most one limb. Longer ones go to modPowMontgomery (modular.js:250-462), which is not part of this model: its window table and bit extraction are inconsistent. For a negative exponent sign it requires a nonzero power, since modInverse of 0 does not end.
- modBinary (modular.js:27-42) masks with the wrong bit count and modPowGarner (modular.js:475-492) depends on the Montgomery path; neither is part of this model.
- lcm (arithmetic.js:386-388) divides the gcd by a and is not part of this model.
- The two's-complement operations and, or, xor and not (bitwise.js:76-90) are empty stubs and are not modelled.
- Aliasing: magnitudes are values, so identity results, such as trimLeadingZeroes returning its own argument, appear as equal values. That the shifts do not modify their source follows from the value semantics.
- Modular.ModInverse: modular.js:84-129 names `redscale.SignArray`, which only src/js/redscale.signarray.js defines. That one is not part of this model and behaves differently: its signAdd and signSubtract return a new object, so the results discarded at modular.js:127 and 129 change nothing, and its signSubtract checks `aArray.array === 0` and object identity, so for two distinct objects it adds the magnitudes. The model uses the in-place `redscale.arrays.SignArray` of arrays.signarray.js instead, since that is the accumulator under which the algorithm computes an inverse.
- SignArrays.SignArray: the accumulator's add, subtract, compare and copy are called from arrays.js, which is not part of this model. The model uses the arithmetic.js and util.js routines, which are the same code.

## Findings

| source | as written | input that shows it | evidently intended | confidence | as-written member | corrected member |
|---|---|---|---|---|---|---|
| src/js/redscale/arithmetic.js:287-289 | the digit estimate `(aVal / bVal) & 0xFFFF` turns an estimate of 65536 into 0, and the digit is then skipped | n = 2^63 ([0, 0, 0, 0x8000]), d = 2^47 + 1 ([1, 0, 0x8000]): the second window gives aVal = 2^47 and bVal = 2^31, where the true digit is 0xFFFF. Only this estimate step is proved; that divide then returns quotient 0 and remainder n is a hand trace | the estimate clamped to 0xFFFF, which the add-back step then corrects | not executed | Division.EstimateAsWrittenSkipsDigit | Division.EstimateBracket |
| src/js/redscale/modular.js:126-132 | modInverse corrects its final coefficient by adding or subtracting m once and returns the magnitude | a = 20, aSign = 1, m = 27: the loop ends with d = -31, and with the in-place accumulator of arrays.signarray.js the source returns 4, and 20 * 4 = 26 modulo 27 | the signed coefficient reduced modulo m, here 23, with 20 * 23 = 1 modulo 27 | not executed | Modular.ModInverseFinishAsWrittenFails | Modular.ModInverse |
| src/js/redscale/modular.js:168-170 | modPow's shortcut compares only the magnitude with [1], so a base of -1 is treated as 1 | a = -1, e = 1, m = 5: modPow returns 1, while (-1)^1 modulo 5 is 4 | the shortcut taken only for a nonnegative sign | not executed | Modular.ModPowShortcutIgnoresSign | Modular.ModPowCorrected |
