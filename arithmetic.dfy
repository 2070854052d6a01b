/**
 * Magnitude arithmetic (source file arithmetic.js): ripple-carry addition and
 * subtraction, schoolbook and Karatsuba multiplication and squaring, and
 * square-and-multiply powers.  Every routine fills a fresh typed array and
 * returns it trimmed of most significant zero limbs.
 */
module Arithmetic {
  import opened Numbers
  import opened Limbs
  import opened Results
  import opened Util
  import opened Bitwise

  function Max(x: int, y: int): (m: int)
    ensures m >= x && m >= y && (m == x || m == y)
  {
    if x >= y then x else y
  }

  /** A fresh typed array of len cells holding a copy of a. */
  method NewCopy(a: seq<Limb>, len: nat) returns (s: array<Limb>)
    requires |a| <= len
    ensures fresh(s) && s.Length == len
    ensures s[..] == a + Zeros(len - |a|) && Val(s[..]) == Val(a)
  {
    s := new Limb[len](_ => 0);
    Copy(a, 0, s, 0, |a|);
    ValOfCopy(a, s[..]);
  }

  /** The sum, in an array one limb longer than the longer operand. */
  method Add(a: seq<Limb>, b: seq<Limb>) returns (r: seq<Limb>)
    ensures Normalized(r) && Val(r) == Val(a) + Val(b)
  {
    var s := NewCopy(a, Max(|a|, |b|) + 1);
    SumBelow(a, b, s.Length);
    AddInto(s, b, Val(a));
    r := TrimLeadingZeroes(s[..]);
  }

  /** Adds b into s limb by limb, then ripples the carry upwards. */
  method AddInto(s: array<Limb>, b: seq<Limb>, ghost v: nat)
    requires |b| < s.Length && Val(s[..]) == v && v + Val(b) < Pow(BASE, s.Length)
    modifies s
    ensures Val(s[..]) == v + Val(b)
  {
    var i := 0;
    var carry := 0;
    while i < |b|
      invariant 0 <= i <= |b| && 0 <= carry <= 1
      invariant Val(s[..]) + carry * Pow(BASE, i) == v + Val(b[..i])
    {
      var sum := s[i] + b[i] + carry;
      ValPrefixStep(b, i);
      CarryStep(s[..], i, sum % BASE, b[i], carry, sum / BASE);
      s[i] := sum % BASE;
      carry := sum / BASE;
      i := i + 1;
    }
    assert b[..|b|] == b;
    CarryRipple(s, i, carry, v + Val(b));
  }

  /** Ripples a carry into the limbs of s from start up; the total fits in s. */
  method CarryRipple(s: array<Limb>, start: nat, carry0: nat, ghost target: nat)
    requires carry0 < BASE && Val(s[..]) + carry0 * Pow(BASE, start) == target && target < Pow(BASE, s.Length)
    modifies s
    ensures Val(s[..]) == target
  {
    var i := start;
    var carry := carry0;
    while carry != 0
      invariant 0 <= carry < BASE
      invariant Val(s[..]) + carry * Pow(BASE, i) == target
      decreases s.Length - i
    {
      CarryInRange(Val(s[..]), carry, i, s.Length);
      var sum := s[i] + carry;
      CarryStep(s[..], i, sum % BASE, 0, carry, sum / BASE);
      s[i] := sum % BASE;
      carry := sum / BASE;
      i := i + 1;
    }
  }

  /**
   * The difference, for Val(a) >= Val(b).  With a smaller minuend the borrow
   * loop never ends, so that is the caller's obligation.
   */
  method Subtract(a: seq<Limb>, b: seq<Limb>) returns (r: seq<Limb>)
    requires Val(a) >= Val(b)
    ensures Normalized(r) && Val(r) == Val(a) - Val(b)
  {
    var d := NewCopy(a, |a|);
    HighLimbsZero(a, b);
    SubtractInto(d, b, Val(a));
    r := TrimLeadingZeroes(d[..]);
  }

  /**
   * Subtracts b from d limb by limb, then ripples the borrow upwards; limbs of
   * b beyond d are zero and their writes fall off the end of the array.
   */
  method SubtractInto(d: array<Limb>, b: seq<Limb>, ghost v: nat)
    requires Val(d[..]) == v && Val(b) <= v && forall k :: d.Length <= k < |b| ==> b[k] == 0
    modifies d
    ensures Val(d[..]) == v - Val(b)
  {
    var carry := SubtractLimbs(d, b, v);
    BorrowRipple(d, |b|, carry, v - Val(b));
  }

  /** The first loop of subtract: the limbs of b, leaving a borrow of 0 or -1. */
  method SubtractLimbs(d: array<Limb>, b: seq<Limb>, ghost v: nat) returns (carry: int)
    requires Val(d[..]) == v && Val(b) <= v && forall k :: d.Length <= k < |b| ==> b[k] == 0
    modifies d
    ensures -1 <= carry <= 0 && (|b| >= d.Length ==> carry == 0)
    ensures Val(d[..]) + carry * Pow(BASE, |b|) == v - Val(b)
  {
    var i := 0;
    carry := 0;
    while i < |b|
      invariant 0 <= i <= |b| && -1 <= carry <= 0 && (i >= d.Length ==> carry == 0)
      invariant Val(d[..]) + carry * Pow(BASE, i) == v - Val(b[..i])
    {
      var diff := Get(d[..], i) - b[i] + carry;
      BorrowSplit(diff);
      SubtractStep(d[..], b, i, carry, v, diff, diff % BASE);
      if i < d.Length {
        d[i] := diff % BASE;
      }
      carry := diff / BASE;
      i := i + 1;
    }
    assert b[..|b|] == b;
  }

  /** One iteration of the first subtract loop, in or past the end of d. */
  lemma {:induction false} SubtractStep(dv: seq<Limb>, b: seq<Limb>, i: nat, carry: int, v: nat, diff: int, x: Limb)
    requires i < |b| && -1 <= carry <= 0 && (i >= |dv| ==> carry == 0) && Val(b) <= v
    requires forall k :: |dv| <= k < |b| ==> b[k] == 0
    requires Val(dv) + carry * Pow(BASE, i) == v - Val(b[..i])
    requires diff == Get(dv, i) - b[i] + carry && x == diff % BASE
    requires -1 <= diff / BASE <= 0 && diff == x + BASE * (diff / BASE)
    ensures i + 1 >= |dv| ==> diff / BASE == 0
    ensures i < |dv| ==> Val(dv[i := x]) + (diff / BASE) * Pow(BASE, i + 1) == v - Val(b[..i + 1])
    ensures i >= |dv| ==> Val(dv) + (diff / BASE) * Pow(BASE, i + 1) == v - Val(b[..i + 1])
  {
    ValPrefixStep(b, i);
    ValPrefixLe(b, i + 1);
    if i < |dv| {
      BorrowStep(dv, i, x, b[i], carry, diff / BASE);
      ValBound(dv[i := x]);
      BorrowClears(Val(dv[i := x]), diff / BASE, i + 1, |dv|, v - Val(b[..i + 1]));
    }
  }

  /** The second loop of subtract: propagates a borrow into the higher limbs of d. */
  method BorrowRipple(d: array<Limb>, start: nat, carry0: int, ghost target: nat)
    requires -1 <= carry0 <= 0 && (start >= d.Length ==> carry0 == 0)
    requires Val(d[..]) + carry0 * Pow(BASE, start) == target
    modifies d
    ensures Val(d[..]) == target
  {
    var i := start;
    var carry := carry0;
    while carry != 0
      invariant -1 <= carry <= 0 && (i >= d.Length ==> carry == 0)
      invariant Val(d[..]) + carry * Pow(BASE, i) == target
      decreases d.Length - i
    {
      var diff := d[i] + carry;
      BorrowSplit(diff);
      CarryStep(d[..], i, diff % BASE, 0, carry, diff / BASE);
      d[i] := diff % BASE;
      ValBound(d[..]);
      BorrowClears(Val(d[..]), diff / BASE, i + 1, d.Length, target);
      carry := diff / BASE;
      i := i + 1;
    }
  }

  /** The low limb and the arithmetic-shift borrow of a difference of limbs. */
  lemma {:induction false} BorrowSplit(diff: int)
    requires -0x1_0000 <= diff < BASE
    ensures 0 <= diff % BASE < BASE && -1 <= diff / BASE <= 0
    ensures diff == diff % BASE + BASE * (diff / BASE)
  {
    if diff < 0 {
      ModUnique(diff, BASE, -1, diff + BASE);
    } else {
      ModUnique(diff, BASE, 0, diff);
    }
  }

  /** A borrow out of the top limb would make the difference negative. */
  lemma {:induction false} BorrowClears(vd: nat, carry: int, i: nat, n: nat, rhs: int)
    requires -1 <= carry <= 0 && rhs >= 0 && vd < Pow(BASE, n)
    requires vd + carry * Pow(BASE, i) == rhs
    ensures i >= n ==> carry == 0
  {
    if i >= n && carry == -1 {
      PowMonotone(BASE, n, i);
    }
  }

  lemma {:induction false} SumBelow(a: seq<Limb>, b: seq<Limb>, n: nat)
    requires n == Max(|a|, |b|) + 1
    ensures Val(a) + Val(b) < Pow(BASE, n)
  {
    ValBound(a);
    ValBound(b);
    PowMonotone(BASE, |a|, n - 1);
    PowMonotone(BASE, |b|, n - 1);
  }

  /**
   * Operands shorter than 2^28 limbs: every bit count of a magnitude then
   * fits the 32-bit shift counts the shift routines read.
   */
  const MAX_LIMBS: nat := 0x1000_0000

  /** The product; Karatsuba when both operands exceed 120 limbs. */
  method Multiply(a: seq<Limb>, b: seq<Limb>) returns (r: seq<Limb>)
    requires |a| < MAX_LIMBS && |b| < MAX_LIMBS
    ensures Normalized(r) && Val(r) == Val(a) * Val(b)
    decreases |a| + |b|, 1
  {
    if |a| == 0 || |b| == 0 {
      ZeroProduct(a, b);
      return [];
    }
    if |a| > 120 && |b| > 120 {
      r := MultiplyKaratsuba(a, |a|, b, |b|);
      return;
    }
    var p := new Limb[|a| + |b|](_ => 0);
    MultiplyInto(p, a, b);
    r := TrimLeadingZeroes(p[..]);
  }

  lemma {:induction false} ZeroProduct(a: seq<Limb>, b: seq<Limb>)
    requires |a| == 0 || |b| == 0
    ensures Val(a) * Val(b) == 0
  {
    assert Val(a) * Val(b) == 0;
  }

  /** Schoolbook multiplication into a zeroed array of |a| + |b| limbs, one row per limb of a. */
  method MultiplyInto(p: array<Limb>, a: seq<Limb>, b: seq<Limb>)
    requires p.Length == |a| + |b| && forall k :: 0 <= k < p.Length ==> p[k] == 0
    modifies p
    ensures Val(p[..]) == Val(a) * Val(b)
  {
    ValZero(p[..]);
    var i := 0;
    while i < |a|
      invariant 0 <= i <= |a|
      invariant Val(p[..]) == Val(a[..i]) * Val(b)
      invariant forall k :: i + |b| <= k < p.Length ==> p[k] == 0
    {
      MultiplyRow(p, a[i], b, i);
      ValPrefixStep(a, i);
      RowSum(Val(a[..i]), Pow(BASE, i), a[i], Val(b), Val(a[..i + 1]));
      i := i + 1;
    }
    assert a[..|a|] == a;
  }

  lemma {:induction false} RowSum(va: int, p: int, x: int, vb: int, va': int)
    requires va' == va + p * x
    ensures va * vb + p * (x * vb) == va' * vb
  {
    MulAssociates(p, x, vb);
  }

  /**
   * Adds x * b at limb offset i, then stores the final carry at i + |b|; the
   * cells above i + |b| are untouched.
   */
  method MultiplyRow(p: array<Limb>, x: Limb, b: seq<Limb>, i: nat)
    requires i + |b| < p.Length && p[i + |b|] == 0
    modifies p
    ensures Val(p[..]) == old(Val(p[..])) + Pow(BASE, i) * (x * Val(b))
    ensures forall k :: i + |b| < k < p.Length ==> p[k] == old(p[k])
  {
    var carry := MultiplyAccumulate(p, x, b, i);
    ValWriteZero(p[..], i + |b|, carry);
    p[i + |b|] := carry;
  }

  /**
   * Adds x * b into p at limb offset i, one limb product at a time, and returns
   * the carry out of limb i + |b| - 1; the cells from i + |b| up are untouched.
   */
  method MultiplyAccumulate(p: array<Limb>, x: Limb, b: seq<Limb>, i: nat) returns (carry: Limb)
    requires i + |b| <= p.Length
    modifies p
    ensures Val(p[..]) + carry * Pow(BASE, i + |b|) == old(Val(p[..])) + Pow(BASE, i) * (x * Val(b))
    ensures forall k :: i + |b| <= k < p.Length ==> p[k] == old(p[k])
  {
    ghost var v := Val(p[..]);
    carry := 0;
    var j := 0;
    while j < |b|
      invariant 0 <= j <= |b|
      invariant Val(p[..]) + carry * Pow(BASE, i + j) == v + Pow(BASE, i) * (x * Val(b[..j]))
      invariant forall k :: i + |b| <= k < p.Length ==> p[k] == old(p[k])
    {
      var product := x * b[j] + p[i + j] + carry;
      ProductSplit(x, b[j], p[i + j], carry);
      RowStep(p[..], i, j, x, b, carry, v, product);
      p[i + j] := product % BASE;
      carry := product / BASE;
      j := j + 1;
    }
    assert b[..|b|] == b;
  }

  /** A limb product plus two limbs splits into a low limb and a carry limb. */
  lemma {:induction false} ProductSplit(x: Limb, y: Limb, z: Limb, c: Limb)
    ensures 0 <= x * y + z + c
    ensures 0 <= (x * y + z + c) % BASE < BASE && 0 <= (x * y + z + c) / BASE < BASE
    ensures x * y + z + c == (x * y + z + c) % BASE + BASE * ((x * y + z + c) / BASE)
  {
    var n := x * y + z + c;
    MulLe(x, MASK, y);
    MulLe(y, MASK, MASK);
    MulNonNegative(x, y);
    assert n < BASE * BASE;
    DivMod(n, BASE);
    DivBelow(n, BASE, BASE);
  }

  /** One step of the row loop: the written limb and the carry keep the row's value. */
  lemma {:induction false} RowStep(pv: seq<Limb>, i: nat, j: nat, x: Limb, b: seq<Limb>, carry: int, v: int, product: int)
    requires j < |b| && i + j < |pv| && product == x * b[j] + pv[i + j] + carry
    requires 0 <= product % BASE < BASE && product == product % BASE + BASE * (product / BASE)
    requires Val(pv) + carry * Pow(BASE, i + j) == v + Pow(BASE, i) * (x * Val(b[..j]))
    ensures Val(pv[i + j := product % BASE]) + (product / BASE) * Pow(BASE, i + j + 1)
         == v + Pow(BASE, i) * (x * Val(b[..j + 1]))
  {
    CarryStep(pv, i + j, product % BASE, x * b[j], carry, product / BASE);
    ValPrefixStep(b, j);
    PowAdd(BASE, i, j);
    RowArith(Pow(BASE, i), Pow(BASE, j), Pow(BASE, i + j), x, b[j], Val(b[..j]), Val(b[..j + 1]));
  }

  lemma {:induction false} RowArith(pi: int, pj: int, pij: int, x: int, bj: int, vb: int, vb': int)
    requires pij == pi * pj && vb' == vb + pj * bj
    ensures pi * (x * vb') == pi * (x * vb) + pij * (x * bj)
  {
    calc {
      pi * (x * vb');
      { MulDistributes(x, vb, pj * bj); }
      pi * (x * vb + x * (pj * bj));
      { MulDistributes(pi, x * vb, x * (pj * bj)); }
      pi * (x * vb) + pi * (x * (pj * bj));
      { MulRearrange(pi, x, pj, bj); MulAssociates(pi, pj, x * bj); MulAssociates(x, pj, bj); }
      pi * (x * vb) + pij * (x * bj);
    }
  }

  /** The limbs of a from kLen up, as a fresh untrimmed array (empty when a is no longer). */
  method HighNum(a: seq<Limb>, aLen: nat, kLen: nat) returns (h: seq<Limb>)
    requires aLen == |a|
    ensures aLen <= kLen ==> h == []
    ensures aLen > kLen ==> h == a[kLen..]
  {
    if aLen <= kLen {
      return [];
    }
    var t := new Limb[aLen - kLen](_ => 0);
    Copy(a, kLen, t, 0, aLen - kLen);
    h := t[..];
  }

  /** The limbs of a below kLen, trimmed; a itself when it is no longer. */
  method LowNum(a: seq<Limb>, aLen: nat, kLen: nat) returns (l: seq<Limb>)
    requires aLen == |a|
    ensures aLen <= kLen ==> l == a
    ensures aLen > kLen ==> Normalized(l) && Val(l) == Val(a[..kLen])
  {
    if aLen <= kLen {
      return a;
    }
    var t := new Limb[kLen](_ => 0);
    Copy(a, 0, t, 0, kLen);
    assert t[..] == a[..kLen];
    l := TrimLeadingZeroes(t[..]);
  }

  /**
   * The split a = low + BASE^kLen * high used by both Karatsuba routines, with
   * the pieces no longer than kLen limbs.
   */
  lemma {:induction false} KaratsubaSplit(a: seq<Limb>, kLen: nat, low: seq<Limb>, high: seq<Limb>)
    requires |a| > kLen
    requires high == a[kLen..] && Normalized(low) && Val(low) == Val(a[..kLen])
    ensures Val(a) == Val(low) + Pow(BASE, kLen) * Val(high)
    ensures |low| <= kLen && |high| == |a| - kLen
  {
    ValSplit(a, kLen);
    ValBound(a[..kLen]);
    NormalizedShort(low, kLen);
  }

  /** A normalized magnitude below BASE^n has at most n limbs. */
  lemma {:induction false} NormalizedShort(s: seq<Limb>, n: nat)
    requires Normalized(s) && Val(s) < Pow(BASE, n)
    ensures |s| <= n
  {
    IsToLimbs(s, Val(s));
    ToLimbsLength(Val(s));
    FitsLimbs(Val(s), n);
  }

  /**
   * Karatsuba multiplication on halves of kLen = ceil(max / 2) limbs:
   * ((hi_a hi_b BASE^k + (lo_a + hi_a)(lo_b + hi_b) - hi_a hi_b - lo_a lo_b) BASE^k) + lo_a lo_b.
   * Only entered from Multiply, with both operands over 120 limbs.
   */
  method MultiplyKaratsuba(a: seq<Limb>, aLen: nat, b: seq<Limb>, bLen: nat) returns (r: seq<Limb>)
    requires aLen == |a| && bLen == |b| && 120 < aLen < MAX_LIMBS && 120 < bLen < MAX_LIMBS
    ensures Normalized(r) && Val(r) == Val(a) * Val(b)
    decreases aLen + bLen, 0
  {
    var kLen := (Max(aLen, bLen) + 1) / 2;
    var aHigh := HighNum(a, aLen, kLen);
    var aLow := LowNum(a, aLen, kLen);
    var bHigh := HighNum(b, bLen, kLen);
    var bLow := LowNum(b, bLen, kLen);
    KaratsubaPieces(a, kLen, aLow, aHigh);
    KaratsubaPieces(b, kLen, bLow, bHigh);
    var prodHigh := Multiply(aHigh, bHigh);
    var prodLow := Multiply(aLow, bLow);
    var aSum := Add(aHigh, aLow);
    var bSum := Add(bHigh, bLow);
    SumShort(aSum, aHigh, aLow, kLen);
    SumShort(bSum, bHigh, bLow, kLen);
    var prodHighLow := Multiply(aSum, bSum);
    KaratsubaMiddle(prodHighLow, prodHigh, prodLow, aSum, bSum, Val(aHigh), Val(aLow), Val(bHigh), Val(bLow));
    var middle := Subtract(prodHighLow, prodHigh);
    middle := Subtract(middle, prodLow);
    var shiftedHigh := ShiftUpLimbs(prodHigh, kLen);
    var upper := Add(shiftedHigh, middle);
    var shiftedUpper := ShiftUpLimbs(upper, kLen);
    r := Add(shiftedUpper, prodLow);
    KaratsubaSum(Val(a), Val(b), Pow(BASE, kLen), Val(aHigh), Val(aLow), Val(bHigh), Val(bLow),
                 Val(prodHigh), Val(middle), Val(prodLow), Val(shiftedHigh), Val(upper), Val(shiftedUpper), Val(r));
  }

  /** The middle term (lo_a + hi_a)(lo_b + hi_b) - hi_a hi_b - lo_a lo_b is hi_a lo_b + lo_a hi_b. */
  lemma {:induction false} KaratsubaMiddle(pHL: seq<Limb>, pH: seq<Limb>, pL: seq<Limb>, aSum: seq<Limb>, bSum: seq<Limb>,
                                           ah: nat, al: nat, bh: nat, bl: nat)
    requires Val(aSum) == ah + al && Val(bSum) == bh + bl
    requires Val(pHL) == Val(aSum) * Val(bSum) && Val(pH) == ah * bh && Val(pL) == al * bl
    ensures Val(pHL) >= Val(pH) && Val(pHL) - Val(pH) >= Val(pL)
    ensures Val(pHL) - Val(pH) - Val(pL) == ah * bl + al * bh
  {
    CrossTerms(ah, al, bh, bl);
  }

  /** The halves of one Karatsuba operand and their sizes. */
  lemma {:induction false} KaratsubaPieces(a: seq<Limb>, kLen: nat, low: seq<Limb>, high: seq<Limb>)
    requires 0 < kLen && |a| <= 2 * kLen
    requires |a| <= kLen ==> high == [] && low == a
    requires |a| > kLen ==> high == a[kLen..] && Normalized(low) && Val(low) == Val(a[..kLen])
    ensures Val(a) == Val(low) + Pow(BASE, kLen) * Val(high)
    ensures |low| <= kLen && |high| <= kLen
    ensures Val(low) < Pow(BASE, kLen) && Val(high) < Pow(BASE, kLen)
  {
    if |a| > kLen {
      KaratsubaSplit(a, kLen, low, high);
    }
    ValBound(low);
    ValBound(high);
    PowMonotone(BASE, |low|, kLen);
    PowMonotone(BASE, |high|, kLen);
  }

  lemma {:induction false} SumShort(sum: seq<Limb>, high: seq<Limb>, low: seq<Limb>, kLen: nat)
    requires Val(low) < Pow(BASE, kLen) && Val(high) < Pow(BASE, kLen)
    requires Normalized(sum) && Val(sum) == Val(high) + Val(low)
    ensures |sum| <= kLen + 1
  {
    assert Pow(BASE, kLen + 1) == BASE * Pow(BASE, kLen);
    NormalizedShort(sum, kLen + 1);
  }

  /** (ah + al)(bh + bl) - ah bh - al bl = ah bl + al bh, with both subtractions in range. */
  lemma {:induction false} CrossTerms(ah: nat, al: nat, bh: nat, bl: nat)
    ensures (ah + al) * (bh + bl) >= ah * bh
    ensures (ah + al) * (bh + bl) - ah * bh >= al * bl
    ensures (ah + al) * (bh + bl) - ah * bh - al * bl == ah * bl + al * bh
  {
    MulNonNegative(ah, bl);
    MulNonNegative(al, bh);
  }

  /** The Karatsuba shift bitShiftLeft(x, 16 kLen, 0): x moved up by kLen limbs. */
  method ShiftUpLimbs(x: seq<Limb>, kLen: nat) returns (r: seq<Limb>)
    requires 0 < kLen < MAX_LIMBS
    ensures Val(r) == Val(x) * Pow(BASE, kLen)
  {
    ShiftCount(kLen);
    var shifted := BitShiftLeft(x, 16 * kLen, 0);
    r := shifted.value;
  }

  /** A shift by 16 kLen bits is a shift by kLen limbs and does not wrap. */
  lemma {:induction false} ShiftCount(kLen: nat)
    requires 0 < kLen < MAX_LIMBS
    ensures (16 * kLen) % UINT32 == 16 * kLen != 0
    ensures Pow(2, 16 * kLen) == Pow(BASE, kLen)
  {
    BasePow(kLen);
  }

  /** The two shifts and three additions that reassemble the product from the three partial products. */
  lemma {:induction false} KaratsubaSum(va: nat, vb: nat, p: nat, ah: nat, al: nat, bh: nat, bl: nat,
                                        ph: nat, mid: nat, pl: nat, sh: nat, up: nat, su: nat, vr: nat)
    requires va == al + p * ah && vb == bl + p * bh
    requires ph == ah * bh && pl == al * bl && mid == ah * bl + al * bh
    requires sh == ph * p && up == sh + mid && su == up * p && vr == su + pl
    ensures vr == va * vb
  {
    calc {
      vr;
      (ph * p + mid) * p + pl;
      { MulDistributes(p, ph * p, mid); }
      p * (ph * p) + p * mid + pl;
      { SplitProduct(al, ah, bl, bh, p); }
      va * vb;
    }
  }

  /** (al + p ah)(bl + p bh) expanded by powers of p. */
  lemma {:induction false} SplitProduct(al: int, ah: int, bl: int, bh: int, p: int)
    ensures (al + p * ah) * (bl + p * bh) == p * ((ah * bh) * p) + p * (ah * bl + al * bh) + al * bl
  {
    calc {
      (al + p * ah) * (bl + p * bh);
      { MulDistributes(al + p * ah, bl, p * bh); }
      (al + p * ah) * bl + (al + p * ah) * (p * bh);
      { MulRearrange(p, ah, p, bh); MulAssociates(p, ah, bl); MulAssociates(al, p, bh); }
      al * bl + p * (ah * bl) + p * (al * bh) + p * ((ah * bh) * p);
      { MulDistributes(p, ah * bl, al * bh); }
      p * ((ah * bh) * p) + p * (ah * bl + al * bh) + al * bl;
    }
  }
}
