/**
 * Powers (source file arithmetic.js, pow): right-to-left square-and-multiply
 * over the bits of the exponent.  The exponent is read through the 32-bit
 * integer operators `&` and `>>>`, so only its value modulo 2^32 counts.
 */
module Powers {
  import opened Numbers
  import opened Limbs
  import opened Util
  import opened Bitwise
  import opened Arithmetic
  import opened Squaring

  /**
   * a raised to the power expoNum mod 2^32.  The magnitude 1 takes the
   * shortcut through bitShiftRight; every other base runs the loop, whose
   * partial results are never larger than the final power, so the bound on
   * the power keeps every operand of multiply and square short enough.
   */
  method Power(a: seq<Limb>, expoNum: int) returns (r: seq<Limb>)
    requires |a| < MAX_LIMBS && Pow(Val(a), expoNum % UINT32) < Pow(BASE, MAX_LIMBS - 1)
    ensures Normalized(r) && Val(r) == Pow(Val(a), expoNum % UINT32)
  {
    var aZero := NumberTrailingZeroes(a);
    var aNorm := a;
    if |aNorm| == 1 && aNorm[0] == 1 {
      assert Val(a) == 1;
      assert aZero == 0;
      r := BitShiftRight(aNorm, aZero * expoNum);
      PowOfOne(expoNum % UINT32);
      ToLimbsVal(r, 1);
      return;
    }
    r := [1];
    var expoCount: nat := expoNum % UINT32;
    ghost var e: nat := expoCount;
    ghost var k: nat := 0;
    ghost var b: nat := 1;
    while expoCount != 0
      invariant k + b * expoCount == e && b >= 1
      invariant Normalized(r) && Val(r) == Pow(Val(a), k)
      invariant Val(aNorm) == Pow(Val(a), b)
      invariant |r| < MAX_LIMBS && |aNorm| < MAX_LIMBS
      decreases expoCount
    {
      ghost var c := expoCount;
      if expoCount % 2 == 1 {
        OddStep(Val(a), k, b, c, e);
        r := Multiply(r, aNorm);
        PowAdd(Val(a), k, b);
        NormalizedShort(r, MAX_LIMBS - 1);
        k := k + b;
      } else {
        EvenStep(k, b, c, e);
      }
      expoCount := expoCount / 2;
      if expoCount != 0 {
        SquareStep(Val(a), k, b, expoCount, e);
        aNorm := Square(aNorm);
        PowAdd(Val(a), b, b);
        if Normalized(aNorm) {
          NormalizedShort(aNorm, MAX_LIMBS - 1);
        }
        b := 2 * b;
      }
    }
  }

  /** Raising to a larger exponent does not decrease the power, except when 0^0 = 1 is compared. */
  lemma {:induction false} PowExponentMonotone(v: nat, m: nat, n: nat)
    requires m <= n && (v >= 1 || m >= 1)
    ensures Pow(v, m) <= Pow(v, n)
  {
    if v >= 1 {
      PowMonotone(v, m, n);
    } else {
      PowZeroBase(m);
      PowZeroBase(n);
    }
  }

  lemma {:induction false} PowZeroBase(n: nat)
    ensures Pow(0, n) == if n == 0 then 1 else 0
  {
  }

  /** The multiply at an odd count: a^(k+b) is no larger than a^e, and the count halves evenly after it. */
  lemma {:induction false} OddStep(v: nat, k: nat, b: nat, c: nat, e: nat)
    requires k + b * c == e && b >= 1 && c % 2 == 1
    ensures Pow(v, k + b) <= Pow(v, e)
    ensures (k + b) + b * (2 * (c / 2)) == e
  {
    MulAtLeast(c, b);
    assert c == 2 * (c / 2) + 1;
    MulDistributes(b, 2 * (c / 2), 1);
    PowExponentMonotone(v, k + b, e);
  }

  /** At an even count nothing is multiplied in. */
  lemma {:induction false} EvenStep(k: nat, b: nat, c: nat, e: nat)
    requires k + b * c == e && c % 2 == 0
    ensures k + b * (2 * (c / 2)) == e
  {
    assert c == 2 * (c / 2);
  }

  /** The square before a nonzero halved count c: a^(2b) is no larger than a^e. */
  lemma {:induction false} SquareStep(v: nat, k: nat, b: nat, c: nat, e: nat)
    requires k + b * (2 * c) == e && b >= 1 && c >= 1
    ensures Pow(v, 2 * b) <= Pow(v, e)
    ensures k + (2 * b) * c == e
  {
    MulAssociates(b, 2, c);
    MulAtLeast(c, 2 * b);
    PowExponentMonotone(v, 2 * b, e);
  }
}
