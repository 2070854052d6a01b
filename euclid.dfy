/**
 * Greatest common divisors of magnitudes (source file arithmetic.js,
 * binaryGCD and gcd): Euclid's remainder steps while the operands differ
 * in length by more than one limb, then Stein's binary algorithm.
 */
module Euclid {
  import opened Numbers
  import opened Limbs
  import opened Results
  import opened Util
  import opened Bitwise
  import opened Arithmetic
  import opened Division

  /**
   * binaryGCD: both operands lose their factors of 2 (the smaller count is
   * restored at the end); then, with an odd a, an even b is stripped of its
   * factors of 2 and an odd b is replaced by the difference of the two,
   * the smaller operand moving to a.  The source loops forever when a is
   * zero and b is not, so both operands must be nonzero.
   */
  method BinaryGcd(a: seq<Limb>, b: seq<Limb>) returns (r: seq<Limb>)
    requires Normalized(a) && Normalized(b) && Val(a) > 0 && Val(b) > 0
    requires |a| < MAX_LIMBS && |b| < MAX_LIMBS
    ensures Normalized(r) && Val(r) == Numbers.Gcd(Val(a), Val(b))
  {
    var aZero := NumberTrailingZeroes(a);
    var bZero := NumberTrailingZeroes(b);
    var shiftNum := if aZero < bZero then aZero else bZero;
    var aArray := BitShiftRight(a, aZero);
    var bArray := BitShiftRight(b, bZero);
    OddStart(a, b, aZero, bZero, shiftNum, aArray, bArray);
    ghost var g := Numbers.Gcd(Val(aArray), Val(bArray));
    while !IsZero(bArray)
      invariant Normalized(aArray) && Normalized(bArray)
      invariant Val(aArray) > 0 && Val(aArray) % 2 == 1
      invariant |aArray| < MAX_LIMBS && |bArray| < MAX_LIMBS
      invariant Numbers.Gcd(Val(aArray), Val(bArray)) == g
      decreases Val(aArray) + Val(bArray)
    {
      if !IsOdd(bArray) {
        var z := NumberTrailingZeroes(bArray);
        ghost var b0 := bArray;
        bArray := BitShiftRight(bArray, z);
        EvenStep(aArray, b0, z, bArray);
      } else {
        var abComp := Compare(aArray, bArray);
        if abComp == 1 {
          var temp := Subtract(aArray, bArray);
          GcdSwapSubtract(aArray, bArray, temp);
          aArray := bArray;
          bArray := temp;
        } else {
          ghost var b0 := bArray;
          bArray := Subtract(bArray, aArray);
          GcdSubtractRight(aArray, b0, bArray);
        }
      }
    }
    GcdZero(Val(aArray));
    var res := BitShiftLeft(aArray, shiftNum, 0);
    r := res.value;
    RestoreTwos(aArray, shiftNum, r);
  }

  /**
   * gcd: while the operand lengths differ by more than one limb and b is
   * nonzero, (a, b) becomes (b, a mod b); a zero b answers a, and the rest
   * goes to binaryGCD.  A zero a with a one-limb b reaches binaryGCD with a
   * zero operand, whose loop never ends; this is the only input excluded.
   */
  method Gcd(a: seq<Limb>, b: seq<Limb>) returns (r: seq<Limb>)
    requires Normalized(a) && Normalized(b) && |a| < MAX_LIMBS && |b| < MAX_LIMBS
    requires Val(a) > 0 || Val(b) == 0 || |b| >= 2
    ensures Normalized(r) && Val(r) == Numbers.Gcd(Val(a), Val(b))
  {
    var aArray, bArray := a, b;
    while (if |aArray| > |bArray| then |aArray| - |bArray| else |bArray| - |aArray|) > 1 && !IsZero(bArray)
      invariant Normalized(aArray) && Normalized(bArray)
      invariant |aArray| < MAX_LIMBS && |bArray| < MAX_LIMBS
      invariant Val(aArray) > 0 || Val(bArray) == 0 || |bArray| >= 2
      invariant Numbers.Gcd(Val(aArray), Val(bArray)) == Numbers.Gcd(Val(a), Val(b))
      decreases Val(bArray)
    {
      var temp := Divide(aArray, bArray);
      NoLonger(temp.value.1, bArray);
      RemainderStep(Val(aArray), Val(bArray));
      aArray := bArray;
      bArray := temp.value.1;
    }
    if IsZero(bArray) {
      GcdZero(Val(aArray));
      return aArray;
    }
    if |aArray| > 0 {
      ValPositive(aArray);
    }
    r := BinaryGcd(aArray, bArray);
  }

  /** The operands of binaryGCD after their factors of 2 are shifted out. */
  lemma {:induction false} OddStart(a: seq<Limb>, b: seq<Limb>, aZero: nat, bZero: nat, shiftNum: nat,
                                    a1: seq<Limb>, b1: seq<Limb>)
    requires Normalized(a) && Normalized(b) && Val(a) > 0 && Val(b) > 0
    requires |a| < MAX_LIMBS && |b| < MAX_LIMBS
    requires aZero == TrailingZeros(Val(a)) && bZero == TrailingZeros(Val(b))
    requires shiftNum == if aZero < bZero then aZero else bZero
    requires Pow(2, aZero % UINT32) > 0 && Normalized(a1) && Val(a1) == Val(a) / Pow(2, aZero % UINT32)
    requires Pow(2, bZero % UINT32) > 0 && Normalized(b1) && Val(b1) == Val(b) / Pow(2, bZero % UINT32)
    ensures shiftNum < UINT32 && Normalized(a1) && Normalized(b1)
    ensures Val(a1) > 0 && Val(a1) % 2 == 1 && Val(b1) > 0
    ensures |a1| <= |a| && |b1| <= |b|
    ensures Numbers.Gcd(Val(a), Val(b)) == Pow(2, shiftNum) * Numbers.Gcd(Val(a1), Val(b1))
  {
    ShiftFits(a, aZero);
    ShiftFits(b, bZero);
    OddPart(Val(a), aZero);
    OddPart(Val(b), bZero);
    NoLonger(a1, a);
    NoLonger(b1, b);
    GcdOfOddParts(Val(a1), Val(b1), aZero, bZero, shiftNum);
  }

  /** Shifting the factors of 2 out of an even b keeps the gcd with an odd a and makes b smaller. */
  lemma {:induction false} EvenStep(a: seq<Limb>, b: seq<Limb>, z: nat, b1: seq<Limb>)
    requires Val(a) % 2 == 1 && Normalized(b) && |b| < MAX_LIMBS && Val(b) > 0 && !IsOdd(b)
    requires z == TrailingZeros(Val(b))
    requires Pow(2, z % UINT32) > 0 && Normalized(b1) && Val(b1) == Val(b) / Pow(2, z % UINT32)
    ensures Normalized(b1) && Val(b1) < Val(b) && |b1| <= |b|
    ensures Numbers.Gcd(Val(a), Val(b1)) == Numbers.Gcd(Val(a), Val(b))
  {
    ShiftFits(b, z);
    OddPart(Val(b), z);
    NoLonger(b1, b);
    GcdStripRight(Val(a), Val(b1), z);
  }

  /** Shifting the common factors of 2 back in. */
  lemma {:induction false} RestoreTwos(a: seq<Limb>, shiftNum: nat, r: seq<Limb>)
    requires Val(a) > 0 && shiftNum < UINT32
    requires r == ToLimbs(Val(a) * Pow(2, shiftNum % UINT32)) + Zeros(0)
    ensures Normalized(r) && Val(r) == Pow(2, shiftNum) * Val(a)
  {
    DivSmall(shiftNum, UINT32);
    var v := Val(a) * Pow(2, shiftNum);
    assert r == ToLimbs(v);
    ToLimbsVal(r, v);
    MulCommutes(Val(a), Pow(2, shiftNum));
  }

  /** The trailing-zero count of a nonzero magnitude shorter than MAX_LIMBS is a valid 32-bit shift. */
  lemma {:induction false} ShiftFits(s: seq<Limb>, z: nat)
    requires |s| < MAX_LIMBS && Val(s) > 0 && z == TrailingZeros(Val(s))
    ensures z < UINT32 && z % UINT32 == z
  {
    var n := Val(s);
    TrailingZerosSpec(n);
    DividesLe(Pow(2, z), n);
    ValBound(s);
    BasePow(|s|);
    if z >= 16 * |s| {
      PowMonotone(2, 16 * |s|, z);
      assert false;
    }
    DivSmall(z, UINT32);
  }

  /** n is 2^z times its odd part, which is positive, no larger than n, and smaller when n is even. */
  lemma {:induction false} OddPart(n: nat, z: nat)
    requires n > 0 && z == TrailingZeros(n)
    ensures Pow(2, z) > 0 && n == Pow(2, z) * (n / Pow(2, z))
    ensures (n / Pow(2, z)) % 2 == 1 && 0 < n / Pow(2, z) <= n
    ensures n % 2 == 0 ==> n / Pow(2, z) < n
  {
    TrailingZerosSpec(n);
    var p := Pow(2, z);
    DivMod(n, p);
    MulCommutes(n / p, p);
    MulAtLeast(p, n / p);
    if n % 2 == 0 {
      assert z >= 1;
      PowMonotone(2, 1, z);
      MulLe(2, p, n / p);
      MulCommutes(n / p, 2);
    }
  }

  /** Factors of 2 on one side do not change the gcd with an odd number. */
  lemma {:induction false} StripTwos(x: nat, y: nat, j: nat)
    requires y % 2 == 1
    ensures Numbers.Gcd(Pow(2, j) * x, y) == Numbers.Gcd(x, y)
  {
    if j > 0 {
      var w := Pow(2, j - 1) * x;
      MulAssociates(2, Pow(2, j - 1), x);
      assert (2 * w) / 2 == w;
      GcdHalveOdd(2 * w, y);
      StripTwos(x, y, j - 1);
    }
  }

  /** The gcd of 2^zx ox and 2^zy oy for odd ox, oy is 2^min(zx, zy) gcd(ox, oy). */
  lemma {:induction false} GcdOfOddParts(ox: nat, oy: nat, zx: nat, zy: nat, k: nat)
    requires ox % 2 == 1 && oy % 2 == 1 && k == (if zx < zy then zx else zy)
    ensures Numbers.Gcd(Pow(2, zx) * ox, Pow(2, zy) * oy) == Pow(2, k) * Numbers.Gcd(ox, oy)
  {
    PowPositive(2, k);
    if zx <= zy {
      var j := zy - k;
      PowAdd(2, k, j);
      MulAssociates(Pow(2, k), Pow(2, j), oy);
      GcdScale(Pow(2, k), ox, Pow(2, j) * oy);
      GcdSymmetric(ox, Pow(2, j) * oy);
      StripTwos(oy, ox, j);
      GcdSymmetric(oy, ox);
    } else {
      var j := zx - k;
      PowAdd(2, k, j);
      MulAssociates(Pow(2, k), Pow(2, j), ox);
      GcdScale(Pow(2, k), Pow(2, j) * ox, oy);
      StripTwos(ox, oy, j);
    }
  }

  /** Replacing b by its odd part keeps the gcd with an odd a. */
  lemma {:induction false} GcdStripRight(a: nat, ob: nat, z: nat)
    requires a % 2 == 1
    ensures Numbers.Gcd(a, Pow(2, z) * ob) == Numbers.Gcd(a, ob)
  {
    GcdSymmetric(a, Pow(2, z) * ob);
    StripTwos(ob, a, z);
    GcdSymmetric(ob, a);
  }

  /** When a > b: (b, a - b) has the gcd of (a, b) and a smaller sum. */
  lemma {:induction false} GcdSwapSubtract(a: seq<Limb>, b: seq<Limb>, d: seq<Limb>)
    requires Normalized(a) && Normalized(d) && Val(a) >= Val(b) > 0 && Val(d) == Val(a) - Val(b)
    ensures Numbers.Gcd(Val(b), Val(d)) == Numbers.Gcd(Val(a), Val(b))
    ensures Val(b) + Val(d) < Val(a) + Val(b) && |d| <= |a|
  {
    NoLonger(d, a);
    GcdSubtract(Val(a), Val(b));
    GcdSymmetric(Val(a) - Val(b), Val(b));
  }

  /** When a <= b: (a, b - a) has the gcd of (a, b) and a smaller sum. */
  lemma {:induction false} GcdSubtractRight(a: seq<Limb>, b: seq<Limb>, d: seq<Limb>)
    requires Normalized(b) && Normalized(d) && 0 < Val(a) <= Val(b) && Val(d) == Val(b) - Val(a)
    ensures Numbers.Gcd(Val(a), Val(d)) == Numbers.Gcd(Val(a), Val(b))
    ensures Val(a) + Val(d) < Val(a) + Val(b) && |d| <= |b|
  {
    NoLonger(d, b);
    GcdSymmetric(Val(a), Val(b));
    GcdSubtract(Val(b), Val(a));
    GcdSymmetric(Val(b) - Val(a), Val(a));
  }

  /** One Euclid step: (b, a mod b) has the gcd of (a, b). */
  lemma {:induction false} RemainderStep(a: nat, b: nat)
    requires b > 0
    ensures Numbers.Gcd(b, a % b) == Numbers.Gcd(a, b)
  {
  }

  /** Of two normalized magnitudes the one with the smaller value is no longer. */
  lemma {:induction false} NoLonger(r: seq<Limb>, b: seq<Limb>)
    requires Normalized(r) && Val(r) <= Val(b)
    ensures |r| <= |b|
  {
    if |r| > |b| {
      NormalizedLonger(r, b);
    }
  }
}
