/**
 * Squaring (source file arithmetic.js, square and squareKaratsuba): the
 * schoolbook square halves the diagonal terms a_k^2, adds each cross product
 * a_i a_j (i < j) once, doubles the sum with a one-bit left shift and puts
 * back the low bit of a_0^2; above 120 limbs it splits into Karatsuba halves.
 */
module Squaring {
  import opened Numbers
  import opened Limbs
  import opened Results
  import opened Util
  import opened Bitwise
  import opened Arithmetic

  /** The diagonal of the schoolbook square: the sum of s[k]^2 BASE^(2k). */
  ghost function Diagonal(s: seq<Limb>): nat
  {
    if |s| == 0 then 0 else s[0] * s[0] + BASE * BASE * Diagonal(s[1..])
  }

  /** The cross products, each once: the sum of s[i] s[j] BASE^(i+j) over i < j. */
  ghost function Cross(s: seq<Limb>): nat
  {
    if |s| == 0 then 0 else BASE * (s[0] * Val(s[1..])) + BASE * BASE * Cross(s[1..])
  }

  /** The rows i' < i of cross products, s[i'] times the limbs above it at offset 2 i' + 1. */
  ghost function CrossRows(s: seq<Limb>, i: nat): nat
    requires i <= |s|
  {
    if i == 0 then 0 else CrossRows(s, i - 1) + Pow(BASE, 2 * (i - 1) + 1) * (s[i - 1] * Val(s[i..]))
  }

  /** The identity squaring rests on: a^2 is the diagonal plus twice the cross products. */
  lemma {:induction false} SquareSplit(s: seq<Limb>)
    ensures Val(s) * Val(s) == Diagonal(s) + 2 * Cross(s)
  {
    if |s| > 0 {
      SquareSplit(s[1..]);
      SquareExpand(s[0], Val(s[1..]), Diagonal(s[1..]), Cross(s[1..]));
    }
  }

  lemma {:induction false} SquareExpand(x: int, v: int, d: int, c: int)
    requires v * v == d + 2 * c
    ensures (x + BASE * v) * (x + BASE * v) == x * x + BASE * BASE * d + 2 * (BASE * (x * v) + BASE * BASE * c)
  {
    calc {
      (x + BASE * v) * (x + BASE * v);
      x * x + 2 * (BASE * (x * v)) + (BASE * BASE) * (v * v);
      { MulDistributes(BASE * BASE, d, 2 * c); }
      x * x + BASE * BASE * d + 2 * (BASE * (x * v) + BASE * BASE * c);
    }
  }

  /** The rows before i plus the cross products of the limbs from i up make all cross products. */
  lemma {:induction false} CrossRowsRest(s: seq<Limb>, i: nat)
    requires i <= |s|
    ensures CrossRows(s, i) + Pow(BASE, 2 * i) * Cross(s[i..]) == Cross(s)
  {
    if i > 0 {
      CrossRowsRest(s, i - 1);
      var p := Pow(BASE, 2 * (i - 1));
      assert s[i - 1..][1..] == s[i..];
      assert Pow(BASE, 2 * (i - 1) + 1) == BASE * p;
      assert Pow(BASE, 2 * i) == BASE * Pow(BASE, 2 * (i - 1) + 1);
      RowsArith(p, Pow(BASE, 2 * (i - 1) + 1), Pow(BASE, 2 * i), s[i - 1] * Val(s[i..]), Cross(s[i..]));
    } else {
      assert s[0..] == s;
    }
  }

  lemma {:induction false} RowsArith(p: int, p1: int, p2: int, row: int, c: int)
    requires p1 == BASE * p && p2 == BASE * p1
    ensures p * (BASE * row + BASE * BASE * c) == p1 * row + p2 * c
  {
    MulDistributes(p, BASE * row, BASE * BASE * c);
    MulAssociates(p, BASE, row);
    MulAssociates(p, BASE * BASE, c);
    MulAssociates(BASE, p, BASE);
  }

  /** Every prefix of rows is at most the complete cross sum. */
  lemma {:induction false} CrossRowsBelow(s: seq<Limb>, i: nat)
    requires i <= |s|
    ensures CrossRows(s, i) <= Cross(s)
  {
    CrossRowsRest(s, i);
    MulNonNegative(Pow(BASE, 2 * i), Cross(s[i..]));
  }

  /**
   * The square of a magnitude shorter than 2^28 limbs.  Zero-valued input of
   * 1 to 120 limbs gives the untrimmed [0]; every other result is normalized.
   */
  method Square(a: seq<Limb>) returns (r: seq<Limb>)
    requires |a| < MAX_LIMBS
    ensures Val(r) == Val(a) * Val(a)
    ensures 0 < |a| <= 120 && Val(a) == 0 ==> r == [0]
    ensures |a| == 0 || |a| > 120 || Val(a) > 0 ==> Normalized(r)
    decreases |a|, 1
  {
    if IsZero(a) {
      return [];
    }
    if |a| > 120 {
      r := SquareKaratsuba(a, |a|);
      return;
    }
    var p := new Limb[2 * |a|](_ => 0);
    HalveDiagonal(p, a);
    ghost var half := Val(p[..]);
    AddCrossProducts(p, a, half);
    SquareSplit(a);
    var shifted := BitShiftLeft(p[..], 1, 0);
    if Val(p[..]) > 0 {
      ToLimbsVal(shifted.value, Val(p[..]) * Pow(2, 1));
    }
    r := SquareFinish(a, p[..], shifted.value);
  }

  /**
   * The last line of square: the doubled array gets the low bit of a_0 (the
   * low bit of a_0^2) in its free lowest bit.
   */
  method SquareFinish(a: seq<Limb>, p: seq<Limb>, q: seq<Limb>) returns (r: seq<Limb>)
    requires 0 < |a| && 0 < |p| && 2 * Val(p) + ((a[0] as int) * a[0]) % 2 == Val(a) * Val(a)
    requires Val(q) == Val(p) * Pow(2, 1)
    requires Val(p) > 0 ==> Normalized(q)
    requires Val(p) == 0 ==> q == Zeros(|q|) && |q| == (1 + 15) / 16
    ensures Val(r) == Val(a) * Val(a)
    ensures Val(a) == 0 ==> r == [0]
    ensures Val(a) > 0 ==> Normalized(r)
  {
    assert 0 < |q| by {
      if Val(p) > 0 {
        assert Val(q) > 0;
      }
    }
    OddSquare(a[0]);
    LowLimbParity(q);
    assert Val(q) % 2 == 0 by { ModUnique(Val(q), 2, Val(p), 0); }
    var bit := a[0] % 2;
    r := q[0 := q[0] + bit];
    ValWriteLow(q, q[0] + bit);
    if Val(p) == 0 {
      assert |q| == 1 && q[0] == 0 by { assert q[0] == Zeros(|q|)[0]; }
      SquarePositive(Val(a));
    }
  }

  /** The low bit of a limb is the low bit of its square. */
  lemma {:induction false} OddSquare(x: nat)
    ensures (x * x) % 2 == x % 2
  {
    var h := x / 2;
    assert x == 2 * h + x % 2;
    calc {
      x * x;
      (2 * h + x % 2) * (2 * h + x % 2);
      2 * (2 * h * h + 2 * h * (x % 2)) + (x % 2) * (x % 2);
    }
    ModUnique(x * x, 2, 2 * h * h + 2 * h * (x % 2), x % 2);
  }

  lemma {:induction false} SquarePositive(v: nat)
    ensures v > 0 <==> v * v > 0
  {
    if v > 0 {
      MulAtLeast(v, v);
    }
  }

  /** The lowest limb of a magnitude has the parity of its value. */
  lemma {:induction false} LowLimbParity(q: seq<Limb>)
    requires 0 < |q|
    ensures q[0] % 2 == Val(q) % 2
  {
    ModUnique(Val(q), 2, q[0] / 2 + 0x8000 * Val(q[1..]), q[0] % 2);
  }

  /** Replacing the lowest limb changes the value by the difference. */
  lemma {:induction false} ValWriteLow(q: seq<Limb>, x: Limb)
    requires 0 < |q|
    ensures Val(q[0 := x]) == Val(q) - q[0] + x
  {
    assert q[0 := x][1..] == q[1..];
  }

  /**
   * The first loop of square, from the top limb down: the bits of a_k^2 / 2
   * go to limbs 2k and 2k+1, and the bit shifted out of a_k^2 becomes the top
   * bit of limb 2k-1; the bit shifted out of a_0^2 is dropped.
   */
  method HalveDiagonal(p: array<Limb>, a: seq<Limb>)
    requires 0 < |a| && p.Length == 2 * |a| && forall k :: 0 <= k < p.Length ==> p[k] == 0
    modifies p
    ensures 2 * Val(p[..]) + ((a[0] as int) * a[0]) % 2 == Diagonal(a)
  {
    var aIndex: int := |a| - 1;
    var pIndex: int := p.Length - 1;
    var carry := 0;
    ghost var low: nat := 0;
    assert a[|a|..] == [];
    ValZero(p[..]);
    while aIndex >= 0
      invariant -1 <= aIndex < |a| && pIndex == 2 * aIndex + 1
      invariant low <= 1 && carry == low * 0x8000
      invariant aIndex + 1 < |a| ==> low == ((a[aIndex + 1] as int) * a[aIndex + 1]) % 2
      invariant forall k :: 0 <= k <= pIndex ==> p[k] == 0
      invariant 2 * Val(p[..]) + low * Pow(BASE, 2 * (aIndex + 1)) == Pow(BASE, 2 * (aIndex + 1)) * Diagonal(a[aIndex + 1..])
    {
      var aVal: nat := a[aIndex];
      MulNonNegative(aVal, aVal);
      var prod: nat := aVal * aVal;
      HalfSplit(aVal, low);
      DiagonalStep(p[..], a, aIndex + 1, low, prod, (prod / 2) % BASE, prod / 0x2_0000 + carry);
      p[pIndex] := prod / 0x2_0000 + carry;
      pIndex := pIndex - 1;
      p[pIndex] := (prod / 2) % BASE;
      pIndex := pIndex - 1;
      carry := (prod % 2) * 0x8000;
      low := prod % 2;
      aIndex := aIndex - 1;
    }
    assert a[0..] == a;
  }

  /** The two limbs one iteration of the first loop writes, for x^2 and the incoming top bit. */
  lemma {:induction false} HalfSplit(x: nat, low: nat)
    requires x < BASE && low <= 1
    ensures 0 <= x * x / 0x2_0000 + low * 0x8000 < BASE
    ensures (x * x / 2) % BASE + BASE * (x * x / 0x2_0000 + low * 0x8000) == x * x / 2 + 0x8000 * BASE * low
  {
    var prod: nat := x * x;
    MulLe(x, MASK, x);
    MulLe(x, MASK, MASK);
    assert prod < 0x1_0000_0000;
    DivDiv(prod, 2, BASE);
    DivMod(prod / 2, BASE);
  }

  /** One iteration of the first loop keeps its invariant. */
  lemma {:induction false} DiagonalStep(pv: seq<Limb>, a: seq<Limb>, m: nat, low: nat, prod: nat, lo: Limb, hi: Limb)
    requires 0 < m <= |a| && |pv| == 2 * |a|
    requires pv[2 * m - 1] == 0 && pv[2 * m - 2] == 0
    requires 2 * Val(pv) + low * Pow(BASE, 2 * m) == Pow(BASE, 2 * m) * Diagonal(a[m..])
    requires prod == (a[m - 1] as int) * a[m - 1]
    requires lo + BASE * hi == prod / 2 + 0x8000 * BASE * low
    ensures 2 * Val(pv[2 * m - 1 := hi][2 * m - 2 := lo]) + (prod % 2) * Pow(BASE, 2 * (m - 1))
         == Pow(BASE, 2 * (m - 1)) * Diagonal(a[m - 1..])
  {
    var p := Pow(BASE, 2 * (m - 1));
    ValWriteZero(pv, 2 * m - 1, hi);
    ValWriteZero(pv[2 * m - 1 := hi], 2 * m - 2, lo);
    assert Pow(BASE, 2 * m - 1) == BASE * p;
    assert Pow(BASE, 2 * m) == BASE * (BASE * p);
    assert a[m - 1..][1..] == a[m..];
    DiagonalArith(Val(pv), Val(pv[2 * m - 1 := hi][2 * m - 2 := lo]), p, Diagonal(a[m..]), Diagonal(a[m - 1..]),
                  prod, prod / 2, low, prod % 2, lo, hi);
  }

  lemma {:induction false} DiagonalArith(v: int, v': int, p: int, d: int, d': int, prod: int, half: int,
                                         low: int, low': int, lo: int, hi: int)
    requires v' == v + hi * (BASE * p) + lo * p
    requires 2 * v + low * (BASE * (BASE * p)) == (BASE * (BASE * p)) * d
    requires d' == prod + BASE * BASE * d
    requires lo + BASE * hi == half + 0x8000 * BASE * low
    requires prod == 2 * half + low'
    ensures 2 * v' + low' * p == p * d'
  {
    calc {
      2 * v' + low' * p;
      2 * v + 2 * (p * (lo + BASE * hi)) + low' * p;
      2 * v + 2 * (p * (half + 0x8000 * BASE * low)) + low' * p;
      { MulDistributes(p, half, 0x8000 * BASE * low); }
      2 * v + p * (2 * half + low') + (BASE * (BASE * p)) * low;
      p * prod + (BASE * (BASE * p)) * d;
      { MulDistributes(p, prod, BASE * BASE * d); }
      p * d';
    }
  }

  /** The second loop of square: one multiplyAddAdd row per limb, at limb offset 2i + 1. */
  method AddCrossProducts(p: array<Limb>, a: seq<Limb>, ghost half: nat)
    requires p.Length == 2 * |a| && Val(p[..]) == half
    requires 0 < |a| && 2 * half + ((a[0] as int) * a[0]) % 2 == Diagonal(a)
    modifies p
    ensures Val(p[..]) == half + Cross(a)
  {
    CrossFits(a, half);
    var aIndex := 0;
    var pIndex := 1;
    while aIndex < |a|
      invariant 0 <= aIndex <= |a| && pIndex == 2 * aIndex + 1
      invariant Val(p[..]) == half + CrossRows(a, aIndex)
    {
      CrossRowsBelow(a, aIndex + 1);
      MultiplyAddAdd(p, pIndex, a, aIndex, |a|);
      aIndex := aIndex + 1;
      pIndex := pIndex + 2;
    }
    CrossRowsRest(a, |a|);
  }

  /** Half the square plus the cross products fits in 2 |a| limbs. */
  lemma {:induction false} CrossFits(a: seq<Limb>, half: nat)
    requires 0 < |a| && 2 * half + ((a[0] as int) * a[0]) % 2 == Diagonal(a)
    ensures half + Cross(a) < Pow(BASE, 2 * |a|)
  {
    SquareSplit(a);
    ValBound(a);
    PowAdd(BASE, |a|, |a|);
    SquareBelow(Val(a), Pow(BASE, |a|));
  }

  lemma {:induction false} SquareBelow(v: nat, p: nat)
    requires v < p
    ensures v * v < p * p
  {
    MulLe(v, p, v);
    MulLe(v, p - 1, p);
    MulDistributes(p, p, -1);
  }

  /**
   * Adds a[aIndex] times the limbs above it into p at limb offset pIndex, then
   * ripples the carry; the total fits in p, so no carry is lost.
   */
  method MultiplyAddAdd(p: array<Limb>, pIndex: nat, a: seq<Limb>, aIndex: nat, aLen: nat)
    requires aLen == |a| && aIndex < aLen && pIndex == 2 * aIndex + 1 && p.Length == 2 * aLen
    requires Val(p[..]) + Pow(BASE, pIndex) * (a[aIndex] * Val(a[aIndex + 1..])) < Pow(BASE, p.Length)
    modifies p
    ensures Val(p[..]) == old(Val(p[..])) + Pow(BASE, pIndex) * (a[aIndex] * Val(a[aIndex + 1..]))
  {
    var row := a[aIndex + 1..];
    var top: nat := pIndex + |row|;
    MulNonNegative(a[aIndex], Val(row));
    ghost var target: nat := Val(p[..]) + Pow(BASE, pIndex) * (a[aIndex] * Val(row));
    var carry := MultiplyAccumulate(p, a[aIndex], row, pIndex);
    CarryRipple(p, top, carry, target);
  }

  /**
   * Karatsuba squaring on halves of kLen = ceil(|a| / 2) limbs:
   * ((hi^2 BASE^k + (hi + lo)^2 - (hi^2 + lo^2)) BASE^k) + lo^2.
   */
  method SquareKaratsuba(a: seq<Limb>, aLen: nat) returns (r: seq<Limb>)
    requires aLen == |a| && 120 < aLen < MAX_LIMBS
    ensures Normalized(r) && Val(r) == Val(a) * Val(a)
    decreases aLen, 0
  {
    var kLen := (aLen + 1) / 2;
    var aHigh := HighNum(a, aLen, kLen);
    var aLow := LowNum(a, aLen, kLen);
    KaratsubaPieces(a, kLen, aLow, aHigh);
    var aHighSqr := Square(aHigh);
    var aLowSqr := Square(aLow);
    var aSum := Add(aHigh, aLow);
    SumShort(aSum, aHigh, aLow, kLen);
    var sumSqr := Square(aSum);
    var both := Add(aHighSqr, aLowSqr);
    SquareMiddle(Val(aSum), Val(aHigh), Val(aLow));
    var middle := Subtract(sumSqr, both);
    assert Val(middle) == Val(aHigh) * Val(aLow) + Val(aLow) * Val(aHigh);
    var shiftedHigh := ShiftUpLimbs(aHighSqr, kLen);
    var upper := Add(shiftedHigh, middle);
    var shiftedUpper := ShiftUpLimbs(upper, kLen);
    r := Add(shiftedUpper, aLowSqr);
    KaratsubaSum(Val(a), Val(a), Pow(BASE, kLen), Val(aHigh), Val(aLow), Val(aHigh), Val(aLow),
                 Val(aHighSqr), Val(middle), Val(aLowSqr), Val(shiftedHigh), Val(upper), Val(shiftedUpper), Val(r));
  }

  /** With s = h + l, s^2 - (h^2 + l^2) is the cross term h l + l h, and not negative. */
  lemma {:induction false} SquareMiddle(s: nat, h: nat, l: nat)
    requires s == h + l
    ensures s * s >= h * h + l * l
    ensures s * s - (h * h + l * l) == h * l + l * h
  {
    MulNonNegative(h, l);
  }
}
