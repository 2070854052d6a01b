/**
 * Bit shifts of magnitudes (source file bitwise.js).  Shift counts are
 * JavaScript numbers read through `>>>` and `&`, so only their value modulo
 * 2^32 matters; the result arrays are sized from the leading-zero count.
 */
module Bitwise {
  import opened Numbers
  import opened Limbs
  import opened Results
  import opened Util

  const UINT32: nat := 0x1_0000_0000

  /**
   * Shifts left by leftShift bits into an array of minimal length plus
   * padZeroes extra zero limbs.  An empty source shifted by 0 without padding
   * asks for an array of length -1, which throws.
   */
  method BitShiftLeft(src: seq<Limb>, leftShift: nat, padZeroes: nat) returns (res: Result<seq<Limb>>)
    ensures res.Err? <==> |src| == 0 && leftShift % UINT32 == 0 && padZeroes == 0
    ensures res.Err? ==> res.error == InvalidArrayLength
    ensures res.Ok? ==> Val(res.value) == Val(src) * Pow(2, leftShift % UINT32)
    ensures res.Ok? && Val(src) > 0 ==>
      res.value == ToLimbs(Val(src) * Pow(2, leftShift % UINT32)) + Zeros(padZeroes)
    ensures res.Ok? && Val(src) == 0 ==>
      res.value == Zeros(|res.value|) &&
      |res.value| + (if |src| == 0 then 1 else 0) == (leftShift % UINT32 + 15) / 16 + padZeroes
  {
    var shift := leftShift % UINT32;
    var srcLen := |src|;
    var intShift := shift / 16;
    var leftBitShift := shift % 16;
    var leadingZeroes := NumberLeadingZeroes(src);
    var extraShift := (15 + leftBitShift - leadingZeroes % 16) / 16;
    var tarLen := srcLen + intShift + extraShift - leadingZeroes / 16 + padZeroes;
    ShiftLeftLength(src, shift, padZeroes, leadingZeroes, tarLen);
    if tarLen < 0 {
      return Err(InvalidArrayLength);
    }
    var tar := new Limb[tarLen](_ => 0);
    ShiftLeftInto(src, leftShift, tar);
    ShiftLeftResult(src, shift, padZeroes, tar[..]);
    return Ok(tar[..]);
  }

  /** Fills the fresh target: a plain copy when leftShift is 0, else the shifting loop. */
  method ShiftLeftInto(src: seq<Limb>, leftShift: nat, tar: array<Limb>)
    requires forall k :: 0 <= k < tar.Length ==> tar[k] == 0
    requires |src| > 0 ==> tar.Length >= (BitLen(Val(src)) + leftShift % UINT32 + 15) / 16
    requires tar.Length <= |src| ==> (leftShift % UINT32) / 16 + |src| >= tar.Length
    modifies tar
    ensures tar[..] == FromNat(Val(src) * Pow(2, leftShift % UINT32), tar.Length)
  {
    if leftShift == 0 {
      CopyLimbs(src, tar);
      ScaleByZero(Val(src), leftShift % UINT32);
    } else {
      ShiftLeftLimbs(src, leftShift % UINT32, tar);
    }
  }

  /**
   * The shifting loop of BitShiftLeft: each source limb is moved up by the
   * bit shift with the bits carried out of the previous limb below it, and
   * the last carry fills the next cell when the array is longer than the source.
   */
  method ShiftLeftLimbs(src: seq<Limb>, shift: nat, tar: array<Limb>)
    requires forall k :: 0 <= k < tar.Length ==> tar[k] == 0
    requires |src| > 0 ==> tar.Length >= (BitLen(Val(src)) + shift + 15) / 16
    requires tar.Length <= |src| ==> shift / 16 + |src| >= tar.Length
    modifies tar
    ensures tar[..] == FromNat(Val(src) * Pow(2, shift), tar.Length)
  {
    var srcLen, tarLen := |src|, tar.Length;
    var intShift := shift / 16;
    var leftBitShift := shift % 16;
    var rightBitShift := 16 - leftBitShift;
    var high, low := Pow(2, leftBitShift), Pow(2, rightBitShift);
    PowPositive(2, rightBitShift);
    MulNonNegative(Val(src), high);
    ghost var scaled: nat := Val(src) * high;
    var carry: Limb := 0;
    var srcIndex, tarIndex := 0, intShift;
    while srcIndex < srcLen
      invariant 0 <= srcIndex <= srcLen && tarIndex == intShift + srcIndex
      invariant carry == (if srcIndex == 0 then 0 else src[srcIndex - 1] / low)
      invariant forall k :: 0 <= k < tar.Length && !(intShift <= k < tarIndex) ==> tar[k] == 0
      invariant forall k :: intShift <= k < tarIndex && k < tar.Length ==> tar[k] == Digit(scaled, k - intShift)
    {
      var srcVal := src[srcIndex];
      LeftShiftDigit(src, leftBitShift, srcIndex);
      if tarIndex < tar.Length {
        // the low leftBitShift bits of srcVal << leftBitShift are clear, so `|` adds
        tar[tarIndex] := (srcVal * high + carry) % BASE;
      }
      DivBounds(srcVal, low);
      carry := srcVal / low;
      srcIndex, tarIndex := srcIndex + 1, tarIndex + 1;
    }
    LeftShiftDigit(src, leftBitShift, srcLen);
    assert Get(src, srcLen) == 0;
    assert 0 * high == 0;
    ModUnique(carry, BASE, 0, carry);
    assert carry == Digit(scaled, srcLen);
    if tarLen > srcLen && tarIndex < tar.Length {
      tar[tarIndex] := carry;
    }
    ShiftLeftDigits(src, shift, tarLen, tar[..]);
  }

  lemma {:induction false} ScaleByZero(v: nat, s: nat)
    requires s == 0
    ensures v * Pow(2, s) == v
  {
  }

  /** The array length the source computes, in closed form. */
  lemma {:induction false} ShiftLeftLength(src: seq<Limb>, shift: nat, pad: nat, lz: nat, tarLen: int)
    requires |src| == 0 ==> lz == 16
    requires |src| > 0 ==> BitLen(Val(src)) <= 16 * |src| && lz == 16 * |src| - BitLen(Val(src))
    requires tarLen == |src| + shift / 16 + (15 + shift % 16 - lz % 16) / 16 - lz / 16 + pad
    ensures tarLen < 0 <==> |src| == 0 && shift == 0 && pad == 0
    ensures |src| == 0 ==> tarLen + 1 == (shift + 15) / 16 + pad
    ensures |src| > 0 ==> tarLen == (BitLen(Val(src)) + shift + 15) / 16 + pad
  {
    if |src| > 0 {
      var bl := BitLen(Val(src));
      var a, b := lz / 16, lz % 16;
      assert lz == 16 * a + b;
      assert bl == 16 * (|src| - a) - b;
      var x := 15 + shift % 16 - b;
      assert 0 <= x;
      assert bl + shift + 15 == 16 * (|src| - a + shift / 16) + x;
      assert (bl + shift + 15) / 16 == |src| - a + shift / 16 + x / 16;
    }
  }

  /** After the loop every target cell holds its digit of the shifted value. */
  lemma {:induction false} ShiftLeftDigits(src: seq<Limb>, shift: nat, tarLen: nat, t: seq<Limb>)
    requires |t| == tarLen
    requires |src| > 0 ==> tarLen >= (BitLen(Val(src)) + shift + 15) / 16
    requires tarLen <= |src| ==> shift / 16 + |src| >= tarLen
    requires forall k :: 0 <= k < |t| ==>
      t[k] == (if shift / 16 <= k < shift / 16 + |src| + (if tarLen > |src| then 1 else 0)
               then Digit(Val(src) * Pow(2, shift % 16), k - shift / 16) else 0)
    ensures t == FromNat(Val(src) * Pow(2, shift), tarLen)
  {
    forall k | 0 <= k < |t| ensures t[k] == Digit(Val(src) * Pow(2, shift), k) {
      ShiftedDigit(src, shift, tarLen, k);
    }
    DigitsFromNat(t, Val(src) * Pow(2, shift));
  }

  /** Digit k of the shifted value, as the loop leaves it in the target. */
  lemma {:induction false} ShiftedDigit(src: seq<Limb>, shift: nat, tarLen: nat, k: nat)
    requires k < tarLen
    requires tarLen <= |src| ==> shift / 16 + |src| >= tarLen
    ensures Digit(Val(src) * Pow(2, shift), k)
         == (if shift / 16 <= k < shift / 16 + |src| + (if tarLen > |src| then 1 else 0)
             then Digit(Val(src) * Pow(2, shift % 16), k - shift / 16) else 0)
  {
    var ish, q := shift / 16, shift % 16;
    ScaledByLimbs(Val(src), shift);
    ScaledFits(src, q);
    DigitScaled(Val(src) * Pow(2, q), ish, k);
    if k >= ish + |src| + 1 {
      DigitAbove(Val(src) * Pow(2, q), |src| + 1, k - ish);
    }
  }

  /** A shift by s bits is a shift by s % 16 bits and then by s / 16 limbs. */
  lemma {:induction false} ScaledByLimbs(v: nat, s: nat)
    ensures v * Pow(2, s) == (v * Pow(2, s % 16)) * Pow(BASE, s / 16)
  {
    PowAdd(2, s % 16, 16 * (s / 16));
    BasePow(s / 16);
    MulAssociates(v, Pow(2, s % 16), Pow(2, 16 * (s / 16)));
  }

  /** A value of |src| limbs shifted by fewer than 16 bits fits in one more limb. */
  lemma {:induction false} ScaledFits(src: seq<Limb>, q: nat)
    requires q < 16
    ensures Val(src) * Pow(2, q) < Pow(BASE, |src| + 1)
  {
    ValBound(src);
    Pow2Values();
    PowMonotone(2, q, 16);
    PowAdd(BASE, |src|, 1);
    MulLe(Pow(2, q), BASE, Val(src));
    MulLe(Val(src) + 1, Pow(BASE, |src|), BASE);
  }

  /** From the digits of the shifted value to the stated result. */
  lemma {:induction false} ShiftLeftResult(src: seq<Limb>, shift: nat, pad: nat, t: seq<Limb>)
    requires |src| == 0 ==> |t| + 1 == (shift + 15) / 16 + pad
    requires |src| > 0 ==> |t| == (BitLen(Val(src)) + shift + 15) / 16 + pad
    requires t == FromNat(Val(src) * Pow(2, shift), |t|)
    ensures Val(t) == Val(src) * Pow(2, shift)
    ensures Val(src) > 0 ==> t == ToLimbs(Val(src) * Pow(2, shift)) + Zeros(pad)
    ensures Val(src) == 0 ==> t == Zeros(|t|)
  {
    if Val(src) == 0 {
      FromNatZero(|t|);
      ValZeros(|t|);
    } else {
      BitLenScaled(Val(src), shift);
      NormalizedPadded(Val(src) * Pow(2, shift), (BitLen(Val(src) * Pow(2, shift)) + 15) / 16, pad);
    }
  }

  /** The digits of n at its limb length plus pad are its limbs then pad zeros. */
  lemma {:induction false} NormalizedPadded(n: nat, m: nat, pad: nat)
    requires m == (BitLen(n) + 15) / 16
    ensures FromNat(n, m + pad) == ToLimbs(n) + Zeros(pad)
    ensures Val(FromNat(n, m + pad)) == n
  {
    FitsLimbs(n, m);
    FromNatPadded(n, m, pad);
    FromNatIsToLimbs(n, m);
    ValPadded(ToLimbs(n), pad);
  }

  lemma {:induction false} BitLenScaled(v: nat, shift: nat)
    requires v > 0
    ensures BitLen(v * Pow(2, shift)) == BitLen(v) + shift
  {
    PowPositive(2, shift);
    BitLenShifted(0, v, shift);
    assert 0 + Pow(2, shift) * v == v * Pow(2, shift);
  }

  /** Digits of x * BASE^e are those of x moved up by e places. */
  lemma {:induction false} DigitScaled(x: nat, e: nat, k: nat)
    ensures Digit(x * Pow(BASE, e), k) == if k < e then 0 else Digit(x, k - e)
  {
    PowPositive(BASE, k);
    if k < e {
      PowAdd(BASE, k, e - k);
      assert Pow(BASE, e - k) == BASE * Pow(BASE, e - k - 1);
      DigitLowZero(x, Pow(BASE, k), Pow(BASE, e - k - 1));
    } else {
      PowPositive(BASE, e);
      PowAdd(BASE, e, k - e);
      PowPositive(BASE, k - e);
      DivCancel(x, Pow(BASE, e), Pow(BASE, k - e));
    }
  }

  lemma {:induction false} DigitLowZero(x: nat, a: nat, d: nat)
    requires a > 0
    ensures (x * (a * (BASE * d))) / a % BASE == 0
  {
    assert x * (a * (BASE * d)) == a * (BASE * (x * d));
    DivOfMultiple(x * (a * (BASE * d)), a, BASE * (x * d));
    DivOfMultiple(BASE * (x * d), BASE, x * d);
  }

  /** Digits at or above the length a value fits in are zero. */
  lemma {:induction false} DigitAbove(x: nat, len: nat, k: nat)
    requires x < Pow(BASE, len) && k >= len
    ensures Digit(x, k) == 0
  {
    PowMonotone(BASE, len, k);
    ModUnique(x, Pow(BASE, k), 0, x);
  }

  /**
   * Digit j of Val(src) * 2^q, 0 <= q < 16, from limbs j and j - 1: the step
   * of the left-shift loop with its carry.
   */
  lemma {:induction false} LeftShiftDigit(src: seq<Limb>, q: nat, j: nat)
    requires q < 16
    ensures Pow(2, 16 - q) > 0
    ensures (Get(src, j) * Pow(2, q) + (if j == 0 then 0 else Get(src, j - 1) / Pow(2, 16 - q))) % BASE
            == Digit(Val(src) * Pow(2, q), j)
  {
    PowPositive(2, 16 - q);
    if j == 0 {
      LowDigitScaled(src, Pow(2, q));
    } else if q == 0 {
      UnshiftedDigit(src, j);
    } else {
      HighDigitScaled(src, q, j);
    }
  }

  /** With no bit shift the carry from the limb below is 0 and digit j is limb j. */
  lemma {:induction false} UnshiftedDigit(src: seq<Limb>, j: nat)
    requires j > 0
    ensures Pow(2, 16) == BASE
    ensures (Get(src, j) * Pow(2, 0) + Get(src, j - 1) / Pow(2, 16)) % BASE == Digit(Val(src) * Pow(2, 0), j)
  {
    assert Pow(2, 0) == 1;
    Base16();
    DivSmall(Get(src, j - 1), BASE);
    DivSmall(Get(src, j), BASE);
    DigitOfVal(src, j);
  }

  lemma {:induction false} LowDigitScaled(src: seq<Limb>, p: nat)
    ensures (Get(src, 0) * p + 0) % BASE == Digit(Val(src) * p, 0)
  {
    var v := Val(src);
    assert Pow(BASE, 0) == 1;
    if |src| > 0 {
      var rest := Val(src[1..]);
      assert v * p == src[0] * p + (rest * p) * BASE by {
        MulDistributes(p, src[0], BASE * rest);
        MulAssociates(p, BASE, rest);
      }
      ModDropMultiple(src[0] * p, rest * p);
    }
  }

  lemma {:induction false} HighDigitScaled(src: seq<Limb>, q: nat, j: nat)
    requires 0 < q < 16 && j > 0
    ensures Pow(2, 16 - q) > 0
    ensures (Get(src, j) * Pow(2, q) + Get(src, j - 1) / Pow(2, 16 - q)) % BASE
            == Digit(Val(src) * Pow(2, q), j)
  {
    CarryBelow(Get(src, j - 1), q);
    ghost var c: nat := Get(src, j - 1) / Pow(2, 16 - q);
    SplitLow(Get(src, j), c, q);
    ShiftDigitAt(src, q, j);
    ScaledQuotient(Val(src), q, j);
  }

  lemma {:induction false} ShiftDigitAt(src: seq<Limb>, q: nat, j: nat)
    requires 0 < q < 16 && j > 0
    ensures Pow(2, 16 - q) > 0 && Pow(2, 16 * (j - 1) + (16 - q)) > 0
    ensures Val(src) / Pow(2, 16 * (j - 1) + (16 - q)) >= 0
    ensures Digit(Val(src) / Pow(2, 16 * (j - 1) + (16 - q)), 0)
         == Get(src, j - 1) / Pow(2, 16 - q) + (Get(src, j) * Pow(2, q)) % BASE
  {
    var sh := 16 * (j - 1) + (16 - q);
    PowPositive(2, sh);
    DivBounds(Val(src), Pow(2, sh));
    assert sh / 16 == j - 1 && sh % 16 == 16 - q;
    assert 16 - sh % 16 == q;
    RightShiftDigit(src, sh, 0);
  }

  /** The bits shifted out of the top of a limb fit below 2^q. */
  lemma {:induction false} CarryBelow(y: Limb, q: nat)
    requires q <= 16
    ensures Pow(2, 16 - q) > 0 && 0 <= y / Pow(2, 16 - q) < Pow(2, q)
  {
    PowPositive(2, 16 - q);
    DivBounds(y, Pow(2, 16 - q));
    Base16();
    PowAdd(2, 16 - q, q);
    DivBelow(y, Pow(2, 16 - q), Pow(2, q));
  }

  /** Multiplying by 2^q then dropping j limbs drops 16 j - q bits. */
  lemma {:induction false} ScaledQuotient(v: nat, q: nat, j: nat)
    requires 0 < q < 16 && j > 0
    ensures Pow(2, 16 * (j - 1) + (16 - q)) > 0 && Pow(2, q) > 0
    ensures v * Pow(2, q) >= 0 && v / Pow(2, 16 * (j - 1) + (16 - q)) >= 0
    ensures Digit(v * Pow(2, q), j) == Digit(v / Pow(2, 16 * (j - 1) + (16 - q)), 0)
  {
    var sh := 16 * (j - 1) + (16 - q);
    PowPositive(2, sh);
    PowPositive(2, q);
    DivBounds(v, Pow(2, sh));
    MulNonNegative(v, Pow(2, q));
    assert Pow(BASE, 0) == 1;
    assert q + sh == 16 * j;
    assert Pow(2, q) * Pow(2, sh) == Pow(BASE, j) by {
      PowAdd(2, q, sh);
      BasePow(j);
    }
    assert v * Pow(2, q) == Pow(2, q) * v;
    DivCancel(v, Pow(2, q), Pow(2, sh));
  }

  lemma {:induction false} DivBelow(x: nat, d: nat, bound: nat)
    requires d > 0 && x < d * bound
    ensures x / d < bound
  {
    if x / d >= bound {
      MulLe(bound, x / d, d);
    }
  }

  /**
   * x * 2^q + c with c < 2^q, reduced mod BASE, is the masked shift plus c;
   * the masked shift keeps the low 16 - q bits of x.
   */
  lemma {:induction false} SplitLow(x: nat, c: nat, q: nat)
    requires q <= 16 && c < Pow(2, q)
    ensures (x * Pow(2, q) + c) % BASE == (x * Pow(2, q)) % BASE + c
  {
    PowPositive(2, 16 - q);
    assert Pow(2, q) * Pow(2, 16 - q) == BASE by { PowAdd(2, q, 16 - q); Base16(); }
    SplitLowFactors(x, c, Pow(2, q), Pow(2, 16 - q));
  }

  lemma {:induction false} SplitLowFactors(x: nat, c: nat, p: nat, r: nat)
    requires r > 0 && p * r == BASE && c < p
    ensures (x * p + c) % BASE == (x * p) % BASE + c
  {
    var hi, lo := x / r, x % r;
    assert x * p == hi * BASE + p * lo by {
      assert x == r * hi + lo;
      MulDistributes(p, r * hi, lo);
      MulAssociates(p, r, hi);
    }
    assert p * lo <= BASE - p by { MulLe(lo, r - 1, p); }
    MulNonNegative(p, lo);
    assert (x * p) % BASE == p * lo by { ModUnique(x * p, BASE, hi, p * lo); }
    assert (x * p + c) % BASE == p * lo + c by { ModUnique(x * p + c, BASE, hi, p * lo + c); }
  }

  /**
   * Digit t of Val(src) / 2^sh from limbs is + t and is + t + 1, where
   * is = sh / 16: the step of the right-shift loop.
   */
  lemma {:induction false} RightShiftDigit(src: seq<Limb>, sh: nat, t: nat)
    ensures Pow(2, sh % 16) > 0 && Pow(2, sh) > 0
    ensures Digit(Val(src) / Pow(2, sh), t)
         == Get(src, sh / 16 + t) / Pow(2, sh % 16)
          + (Get(src, sh / 16 + t + 1) * Pow(2, 16 - sh % 16)) % BASE
  {
    var ish, r := sh / 16, sh % 16;
    var v := Val(src);
    PowPositive(2, r);
    PowPositive(2, sh);
    PowPositive(BASE, ish + t);
    var w := v / Pow(BASE, ish + t);
    ShiftQuotient(v, sh, t);
    assert Digit(v / Pow(2, sh), t) == (w / Pow(2, r)) % BASE;
    WindowDigit(w, r);
    assert w % BASE == Get(src, ish + t) by { DigitOfVal(src, ish + t); }
    assert (w / BASE) % BASE == Get(src, ish + t + 1) by {
      DigitOfVal(src, ish + t + 1);
      DivDiv(v, Pow(BASE, ish + t), BASE);
      PowAdd(BASE, ish + t, 1);
    }
  }

  /** Dropping sh bits, then t limbs, is dropping limbs first, then bits. */
  lemma {:induction false} ShiftQuotient(v: nat, sh: nat, t: nat)
    ensures Pow(2, sh) > 0 && Pow(BASE, t) > 0 && Pow(BASE, sh / 16 + t) > 0 && Pow(2, sh % 16) > 0
    ensures (v / Pow(2, sh)) / Pow(BASE, t) == (v / Pow(BASE, sh / 16 + t)) / Pow(2, sh % 16)
  {
    var ish, r := sh / 16, sh % 16;
    PowPositive(2, sh);
    PowPositive(2, r);
    PowPositive(BASE, t);
    PowPositive(BASE, ish + t);
    assert Pow(2, sh) * Pow(BASE, t) == Pow(BASE, ish + t) * Pow(2, r) by {
      BasePow(t);
      BasePow(ish + t);
      PowAdd(2, sh, 16 * t);
      PowAdd(2, 16 * (ish + t), r);
      assert sh + 16 * t == 16 * (ish + t) + r;
    }
    DivDiv(v, Pow(2, sh), Pow(BASE, t));
    DivDiv(v, Pow(BASE, ish + t), Pow(2, r));
  }

  /** Digit 0 of w / 2^r from digits 0 and 1 of w. */
  lemma {:induction false} WindowDigit(w: nat, r: nat)
    requires r < 16
    ensures Pow(2, r) > 0
    ensures (w / Pow(2, r)) % BASE == (w % BASE) / Pow(2, r) + (((w / BASE) % BASE) * Pow(2, 16 - r)) % BASE
  {
    PowPositive(2, r);
    PowPositive(2, 16 - r);
    assert Pow(2, r) * Pow(2, 16 - r) == BASE by { PowAdd(2, r, 16 - r); Base16(); }
    WindowDigitFactors(w, Pow(2, r), Pow(2, 16 - r));
  }

  lemma {:induction false} WindowDigitFactors(w: nat, p: nat, q: nat)
    requires p > 0 && q > 0 && p * q == BASE
    ensures (w / p) % BASE == (w % BASE) / p + (((w / BASE) % BASE) * q) % BASE
  {
    QuotientOfWindow(w, p, q);
    DivBelow(w % BASE, p, q);
    ScaleSplit(w / BASE, q);
    ModDropMultiple(((w / BASE) % BASE) * q + (w % BASE) / p, q * ((w / BASE) / BASE));
    SplitLowFactors((w / BASE) % BASE, (w % BASE) / p, q, p);
  }

  lemma {:induction false} ScaleSplit(y: nat, q: nat)
    ensures q * y == (y % BASE) * q + (q * (y / BASE)) * BASE
  {
    assert y == y % BASE + BASE * (y / BASE);
    MulDistributes(q, y % BASE, BASE * (y / BASE));
    MulAssociates(q, BASE, y / BASE);
  }

  lemma {:induction false} QuotientOfWindow(w: nat, p: nat, q: nat)
    requires p > 0 && q > 0 && p * q == BASE
    ensures w / p == (w % BASE) / p + q * (w / BASE)
  {
    var x0, y := w % BASE, w / BASE;
    var c := x0 / p;
    assert w == x0 + BASE * y;
    assert x0 == p * c + x0 % p;
    assert w == (c + q * y) * p + x0 % p by {
      MulAssociates(p, q, y);
      MulDistributes(p, c, q * y);
    }
    ModUnique(w, p, c + q * y, x0 % p);
  }

  lemma {:induction false} ModDropMultiple(a: nat, k: nat)
    ensures (a + k * BASE) % BASE == a % BASE
  {
    CongruentMultiple(a, k, BASE);
    CongruentModEq(a + k * BASE, a, BASE);
  }

  /**
   * Shifts right by rightShift bits into an array of minimal length: the
   * normalized quotient by 2^rightShift.
   */
  method BitShiftRight(src: seq<Limb>, rightShift: nat) returns (r: seq<Limb>)
    ensures Pow(2, rightShift % UINT32) > 0
    ensures r == ToLimbs(Val(src) / Pow(2, rightShift % UINT32))
  {
    var shift := rightShift % UINT32;
    var srcLen := |src|;
    var leadingZeroes := NumberLeadingZeroes(src);
    var intShift := shift / 16;
    var rightBitShift := shift % 16;
    var leftBitShift := 16 - rightBitShift;
    var tarLen := srcLen - intShift - (rightBitShift + leadingZeroes) / 16;
    PowPositive(2, shift);
    DivBounds(Val(src), Pow(2, shift));
    ghost var q: nat := Val(src) / Pow(2, shift);
    if srcLen == 0 {
      assert q == 0;
      return [];
    }
    ShiftRightLength(src, shift, leadingZeroes, tarLen);
    var tar := new Limb[if tarLen < 0 then 0 else tarLen](_ => 0);
    ShiftRightInto(src, rightShift, tar);
    FromNatIsToLimbs(q, tar.Length);
    return tar[..];
  }

  /** Fills the fresh target: a plain copy when rightShift is 0, else the shifting loop. */
  method ShiftRightInto(src: seq<Limb>, rightShift: nat, tar: array<Limb>)
    requires forall k :: 0 <= k < tar.Length ==> tar[k] == 0
    modifies tar
    ensures Pow(2, rightShift % UINT32) > 0
    ensures tar[..] == FromNat(Val(src) / Pow(2, rightShift % UINT32), tar.Length)
  {
    PowPositive(2, rightShift % UINT32);
    DivBounds(Val(src), Pow(2, rightShift % UINT32));
    if rightShift == 0 {
      CopyLimbs(src, tar);
      ShiftByZero(Val(src), rightShift % UINT32);
    } else {
      ShiftRightLimbs(src, rightShift % UINT32, tar);
    }
  }

  /**
   * The shifting loop of BitShiftRight: each target limb joins the high bits
   * of one source limb with the low bits of the next.
   */
  method ShiftRightLimbs(src: seq<Limb>, shift: nat, tar: array<Limb>)
    requires Pow(2, shift) > 0
    modifies tar
    ensures tar[..] == FromNat(Val(src) / Pow(2, shift), tar.Length)
  {
    ghost var q: nat := Val(src) / Pow(2, shift);
    var rightBitShift := shift % 16;
    var low, high := Pow(2, rightBitShift), Pow(2, 16 - rightBitShift);
    var srcIndex, tarIndex := shift / 16, 0;
    while tarIndex < tar.Length
      invariant 0 <= tarIndex <= tar.Length
      invariant srcIndex == shift / 16 + tarIndex
      invariant forall k :: 0 <= k < tarIndex ==> tar[k] == Digit(q, k)
    {
      RightShiftDigit(src, shift, tarIndex);
      var carry := (Get(src, srcIndex + 1) * high) % BASE;
      // the two parts occupy disjoint bits, so `|` adds
      tar[tarIndex] := Get(src, srcIndex) / low + carry;
      srcIndex, tarIndex := srcIndex + 1, tarIndex + 1;
    }
    DigitsFromNat(tar[..], q);
  }

  /** The shift-free case of BitShiftRight: a plain copy of the source limbs. */
  method CopyLimbs(src: seq<Limb>, tar: array<Limb>)
    requires forall k :: 0 <= k < tar.Length ==> tar[k] == 0
    modifies tar
    ensures tar[..] == FromNat(Val(src), tar.Length)
  {
    Copy(src, 0, tar, 0, |src|);
    forall k | 0 <= k < tar.Length ensures tar[k] == Digit(Val(src), k) {
      DigitOfVal(src, k);
    }
    DigitsFromNat(tar[..], Val(src));
  }

  lemma {:induction false} ShiftByZero(v: nat, s: nat)
    requires s == 0
    ensures v / Pow(2, s) == v
  {
  }

  /** The array length the source computes is the limb length of the quotient. */
  lemma {:induction false} ShiftRightLength(src: seq<Limb>, shift: nat, lz: nat, tarLen: int)
    requires |src| > 0 && BitLen(Val(src)) <= 16 * |src| && lz == 16 * |src| - BitLen(Val(src))
    requires tarLen == |src| - shift / 16 - (shift % 16 + lz) / 16
    ensures Pow(2, shift) > 0 && Val(src) / Pow(2, shift) >= 0
    ensures (if tarLen < 0 then 0 else tarLen) == (BitLen(Val(src) / Pow(2, shift)) + 15) / 16
  {
    BitLenQuotient(Val(src), shift);
    DivBounds(Val(src), Pow(2, shift));
    RightLengthArith(|src|, BitLen(Val(src)), shift, lz, tarLen);
  }

  lemma {:induction false} RightLengthArith(n: nat, bl: nat, shift: nat, lz: nat, tarLen: int)
    requires bl <= 16 * n && lz == 16 * n - bl
    requires tarLen == n - shift / 16 - (shift % 16 + lz) / 16
    ensures (if tarLen < 0 then 0 else tarLen) == ((if bl <= shift then 0 else bl - shift) + 15) / 16
  {
    var x := shift % 16 - bl;
    var qd, rd := x / 16, x % 16;
    assert x == 16 * qd + rd;
    assert shift % 16 + lz == 16 * (n + qd) + rd;
    assert (shift % 16 + lz) / 16 == n + qd;
    assert tarLen == -(shift / 16) - qd;
    assert bl - shift + 15 == 16 * tarLen + (15 - rd);
    assert (bl - shift + 15) / 16 == tarLen;
  }

  /** Dividing by 2^sh removes sh bits (down to zero). */
  lemma {:induction false} BitLenQuotient(v: nat, sh: nat)
    ensures Pow(2, sh) > 0
    ensures BitLen(v / Pow(2, sh)) == if BitLen(v) <= sh then 0 else BitLen(v) - sh
  {
    PowPositive(2, sh);
    DivBounds(v, Pow(2, sh));
    BitLenSplit(v, Pow(2, sh), v / Pow(2, sh), v % Pow(2, sh), sh);
  }

  lemma {:induction false} BitLenSplit(v: nat, p: nat, q: nat, r: int, sh: nat)
    requires p == Pow(2, sh) && v == q * p + r && 0 <= r < p
    ensures BitLen(q) == if BitLen(v) <= sh then 0 else BitLen(v) - sh
  {
    assert v == r + p * q;
    if q > 0 {
      BitLenShifted(r, q, sh);
    } else {
      BitLenBelowIff(v, sh);
    }
  }

}
