/**
 * Limb utilities of the magnitude engine (source file util.js): emptiness and
 * parity tests, copying between typed arrays, leading and trailing zero
 * counts, trimming, comparison and the low 32 bits of a magnitude.
 */
module Util {
  import opened Numbers
  import opened Limbs

  /** Zero is the empty array; for a normalized magnitude nothing else is. */
  function IsZero(a: seq<Limb>): (z: bool)
    ensures z ==> Val(a) == 0
    ensures Normalized(a) ==> (z <==> Val(a) == 0)
  {
    if |a| == 0 then true
    else
      assert Normalized(a) ==> Val(a) > 0 by {
        if Normalized(a) { ValPositive(a); }
      }
      false
  }

  /** The lowest bit of the lowest limb; an empty array is even. */
  function IsOdd(a: seq<Limb>): (odd: bool)
    ensures odd <==> Val(a) % 2 == 1
  {
    ValParity(a);
    Get(a, 0) % 2 == 1
  }

  function IsEven(a: seq<Limb>): (even: bool)
    ensures even <==> Val(a) % 2 == 0
  {
    ValParity(a);
    Get(a, 0) % 2 == 0
  }

  /**
   * Copies len cells from src (read as 0 past its end) into tar starting at
   * tarStart; writes outside tar are dropped, as a typed array drops them.
   */
  method Copy(src: seq<Limb>, srcStart: int, tar: array<Limb>, tarStart: int, len: int)
    modifies tar
    ensures forall k :: 0 <= k < tar.Length ==>
      tar[k] == (if tarStart <= k < tarStart + len then Get(src, srcStart + (k - tarStart)) else old(tar[k]))
  {
    var j := 0;
    while srcStart + j < srcStart + len
      invariant 0 <= j && (j <= len || j == 0)
      invariant forall k :: 0 <= k < tar.Length ==>
        tar[k] == (if tarStart <= k < tarStart + j then Get(src, srcStart + (k - tarStart)) else old(tar[k]))
      decreases len - j
    {
      if 0 <= tarStart + j < tar.Length {
        tar[tarStart + j] := Get(src, srcStart + j);
      }
      j := j + 1;
    }
  }

  /** Leading zeros of the low 16 bits of num, found by bisection. */
  method IntLeadingZeroes(num: int) returns (count: nat)
    ensures count == 16 - BitLen(num % BASE)
  {
    var a: nat := num % BASE;
    if a == 0 {
      return 16;
    }
    LimbBitLen(a);
    count := 0;
    a, count := LeadingStepInto(a, count, 8, 0xFF, 0x100);
    a, count := LeadingStepInto(a, count, 4, 0x0FFF, 0x10);
    a, count := LeadingStepInto(a, count, 2, 0x3FFF, 4);
    LeadingStep(a, 1, 0x7FFF, 2);
    if a <= 0x7FFF {
      count := count + 1;
    }
  }

  /** One bisection step of IntLeadingZeroes: shift a up by s bits when it fits in 16 - s. */
  method LeadingStepInto(a: nat, count: nat, s: nat, limit: nat, factor: nat) returns (a': nat, count': nat)
    requires (s == 8 && limit == 0xFF && factor == 0x100) || (s == 4 && limit == 0x0FFF && factor == 0x10)
          || (s == 2 && limit == 0x3FFF && factor == 4)
    requires a > 0 && 17 - 2 * s <= BitLen(a) <= 16
    ensures a' > 0 && 17 - s <= BitLen(a') <= 16
    ensures count' - count == BitLen(a') - BitLen(a) && count' >= count
  {
    LeadingStep(a, s, limit, factor);
    a', count' := a, count;
    if a <= limit {
      a' := a * factor;
      count' := count + s;
    }
  }

  lemma {:induction false} LimbBitLen(a: nat)
    requires 0 < a < BASE
    ensures 1 <= BitLen(a) <= 16
  {
    Pow2Values();
    BitLenBelowIff(a, 16);
    BitLenBounds(a);
  }

  /**
   * One bisection step: a value of at least 17 - 2s bits that fits in the
   * limit (16 - s bits) is shifted up by s bits, and either way ends with
   * at least 17 - s bits.
   */
  lemma {:induction false} LeadingStep(a: nat, s: nat, limit: nat, factor: nat)
    requires (s == 8 && limit == 0xFF && factor == 0x100) || (s == 4 && limit == 0x0FFF && factor == 0x10)
          || (s == 2 && limit == 0x3FFF && factor == 4) || (s == 1 && limit == 0x7FFF && factor == 2)
    requires a > 0 && 17 - 2 * s <= BitLen(a) <= 16
    ensures a <= limit ==> BitLen(a * factor) == BitLen(a) + s && 17 - s <= BitLen(a * factor) <= 16
    ensures a > limit ==> 17 - s <= BitLen(a)
  {
    StepConstants(s, limit, factor);
    BitLenBelowIff(a, 16 - s);
    if a <= limit {
      ShiftedStep(a, s, factor);
    }
  }

  lemma {:induction false} StepConstants(s: nat, limit: nat, factor: nat)
    requires (s == 8 && limit == 0xFF && factor == 0x100) || (s == 4 && limit == 0x0FFF && factor == 0x10)
          || (s == 2 && limit == 0x3FFF && factor == 4) || (s == 1 && limit == 0x7FFF && factor == 2)
    ensures s <= 16 && limit + 1 == Pow(2, 16 - s) && factor == Pow(2, s)
  {
    Pow2Values();
  }

  lemma {:induction false} ShiftedStep(a: nat, s: nat, factor: nat)
    requires a > 0 && factor == Pow(2, s)
    ensures BitLen(a * factor) == BitLen(a) + s
  {
    PowPositive(2, s);
    BitLenShifted(0, a, s);
    assert 0 + Pow(2, s) * a == a * factor;
  }

  /** Trailing zeros of the low 16 bits of num (16 for zero), by bisection. */
  method IntTrailingZeroes(num: int) returns (count: nat)
    ensures num % BASE == 0 ==> count == 16
    ensures num % BASE != 0 ==> count == TrailingZeros(num % BASE)
  {
    var a: nat := num % BASE;
    if a == 0 {
      return 16;
    }
    LimbTrailingZeros(a);
    count := 0;
    a, count := TrailingStepInto(a, count, 8, 0x100);
    a, count := TrailingStepInto(a, count, 4, 0x10);
    a, count := TrailingStepInto(a, count, 2, 4);
    TrailingStep(a, 1, 2);
    if a % 2 == 0 {
      count := count + 1;
    }
  }

  lemma {:induction false} LimbTrailingZeros(a: nat)
    requires 0 < a < BASE
    ensures TrailingZeros(a) < 16
  {
    Pow2Values();
    TrailingZerosBelow(a, 16);
  }

  /** One bisection step of IntTrailingZeroes: divide out 2^s when it divides a. */
  method TrailingStepInto(a: nat, count: nat, s: nat, divisor: nat) returns (a': nat, count': nat)
    requires (s == 8 && divisor == 0x100) || (s == 4 && divisor == 0x10) || (s == 2 && divisor == 4)
    requires a > 0 && TrailingZeros(a) < 2 * s
    ensures a' > 0 && TrailingZeros(a') < s
    ensures count' - count == TrailingZeros(a) - TrailingZeros(a') && count' >= count
  {
    TrailingStep(a, s, divisor);
    a', count' := a, count;
    if a % divisor == 0 {
      a' := a / divisor;
      count' := count + s;
    }
  }

  /**
   * One bisection step on trailing zeros: dividing out 2^s when it divides a
   * lowers the count by s, and otherwise the count is below s.
   */
  lemma {:induction false} TrailingStep(a: nat, s: nat, divisor: nat)
    requires (s == 8 && divisor == 0x100) || (s == 4 && divisor == 0x10)
          || (s == 2 && divisor == 4) || (s == 1 && divisor == 2)
    requires a > 0 && TrailingZeros(a) < 2 * s
    ensures divisor > 0
    ensures a % divisor == 0 ==> a / divisor > 0
    ensures a % divisor == 0 ==> TrailingZeros(a / divisor) + s == TrailingZeros(a)
    ensures a % divisor == 0 ==> TrailingZeros(a / divisor) < s
    ensures a % divisor != 0 ==> TrailingZeros(a) < s
  {
    TrailingConstant(s, divisor);
    if a % divisor == 0 {
      LowZeroBits(a, s);
    } else {
      TrailingZerosBelow(a, s);
    }
  }

  lemma {:induction false} TrailingConstant(s: nat, divisor: nat)
    requires (s == 8 && divisor == 0x100) || (s == 4 && divisor == 0x10)
          || (s == 2 && divisor == 4) || (s == 1 && divisor == 2)
    ensures divisor == Pow(2, s) && divisor > 0
  {
    Pow2Values();
  }

  lemma {:induction false} LowZeroBits(a: nat, s: nat)
    requires a > 0 && Pow(2, s) > 0 && a % Pow(2, s) == 0
    ensures a / Pow(2, s) > 0 && TrailingZeros(a / Pow(2, s)) + s == TrailingZeros(a)
  {
    var q := a / Pow(2, s);
    assert a == Pow(2, s) * q;
    TrailingZerosShifted(q, s);
  }

  /**
   * Leading zero bits of a magnitude within its 16|a| bits, counted from the
   * highest limb; an empty array reports 16.
   */
  method NumberLeadingZeroes(a: seq<Limb>) returns (count: nat)
    ensures |a| == 0 ==> count == 16
    ensures |a| > 0 ==> BitLen(Val(a)) <= 16 * |a| && count == 16 * |a| - BitLen(Val(a))
  {
    var i := |a| - 1;
    while i > 0 && a[i] == 0
      invariant -1 <= i < |a| && (|a| > 0 ==> i >= 0)
      invariant forall k :: i < k < |a| ==> a[k] == 0
      decreases i
    {
      i := i - 1;
    }
    var lz := IntLeadingZeroes(Get(a, i));
    count := (|a| - 1 - i) * 16 + lz;
    if |a| > 0 {
      LeadingZeroesOf(a, i, lz);
    }
  }

  /** The count from the highest nonzero limb i (or limb 0) is the zero bits above the value. */
  lemma {:induction false} LeadingZeroesOf(a: seq<Limb>, i: nat, lz: int)
    requires i < |a| && (a[i] == 0 ==> i == 0)
    requires forall k :: i < k < |a| ==> a[k] == 0
    requires lz == 16 - BitLen(a[i] % BASE)
    ensures BitLen(Val(a)) <= 16 * |a| && (|a| - 1 - i) * 16 + lz == 16 * |a| - BitLen(Val(a))
  {
    DivSmall(a[i], BASE);
    ValZeroTail(a, i + 1);
    if a[i] != 0 {
      assert a[..i + 1][i] == a[i];
      BitLenTop(a[..i + 1]);
      Base16();
      BitLenBelowIff(a[i], 16);
    } else {
      ValZero(a[..1]);
    }
  }

  /**
   * Trailing zero bits of a magnitude; an array of n zero limbs reports 16n
   * (16 when n is 0).
   */
  method NumberTrailingZeroes(a: seq<Limb>) returns (count: nat)
    ensures Val(a) == 0 ==> count == 16 * (if |a| == 0 then 1 else |a|)
    ensures Val(a) > 0 ==> count == TrailingZeros(Val(a))
  {
    var i := 0;
    while i < |a| - 1 && a[i] == 0
      invariant 0 <= i && (i < |a| || i == 0)
      invariant forall k :: 0 <= k < i ==> a[k] == 0
    {
      i := i + 1;
    }
    var tz := IntTrailingZeroes(Get(a, i));
    count := i * 16 + tz;
    TrailingZeroesOf(a, i, tz);
  }

  /** The count from the lowest nonzero limb i (or the top limb) is the zero bits below the value. */
  lemma {:induction false} TrailingZeroesOf(a: seq<Limb>, i: nat, tz: nat)
    requires (i < |a| || i == 0) && (i + 1 >= |a| || a[i] != 0)
    requires forall k :: 0 <= k < i ==> a[k] == 0
    requires Get(a, i) % BASE == 0 ==> tz == 16
    requires Get(a, i) % BASE != 0 ==> tz == TrailingZeros(Get(a, i) % BASE)
    ensures Val(a) == 0 ==> i * 16 + tz == 16 * (if |a| == 0 then 1 else |a|)
    ensures Val(a) > 0 ==> i * 16 + tz == TrailingZeros(Val(a))
  {
    DivSmall(Get(a, i), BASE);
    if Get(a, i) != 0 {
      TrailingZerosVal(a, i);
    } else {
      assert forall k :: 0 <= k < |a| ==> a[k] == 0;
      ValZero(a);
    }
  }

  /** The array without its most significant zero limbs. */
  method TrimLeadingZeroes(a: seq<Limb>) returns (r: seq<Limb>)
    ensures Normalized(r) && Val(r) == Val(a)
    ensures |r| <= |a| && r == a[..|r|]
    ensures Normalized(a) ==> r == a
  {
    if |a| == 0 || a[|a| - 1] != 0 {
      return a;
    }
    var i := |a| - 1;
    while i >= 0 && a[i] == 0
      invariant -1 <= i < |a|
      invariant forall k :: i < k < |a| ==> a[k] == 0
      decreases i
    {
      i := i - 1;
    }
    var t := new Limb[i + 1](_ => 0);
    Copy(a, 0, t, 0, i + 1);
    r := t[..];
    assert r == a[..i + 1];
    ValZeroTail(a, i + 1);
  }

  /** Trimming yields the canonical limbs of the value. */
  method TrimToLimbs(a: seq<Limb>) returns (r: seq<Limb>)
    ensures r == ToLimbs(Val(a))
  {
    r := TrimLeadingZeroes(a);
    IsToLimbs(r, Val(a));
  }

  /**
   * 1, 0 or -1 as a is larger, equal or smaller: by length first, then limb
   * by limb from the top.
   */
  method Compare(a: seq<Limb>, b: seq<Limb>) returns (c: int)
    ensures |a| > |b| ==> c == 1
    ensures |a| < |b| ==> c == -1
    ensures |a| == |b| ==> c == Sign(Val(a) - Val(b))
    ensures Normalized(a) && Normalized(b) ==> c == Sign(Val(a) - Val(b))
  {
    if |a| > |b| {
      if Normalized(a) { NormalizedLonger(a, b); }
      return 1;
    }
    if |a| < |b| {
      if Normalized(b) { NormalizedLonger(b, a); }
      return -1;
    }
    var i := |a| - 1;
    while i >= 0
      invariant -1 <= i < |a|
      invariant forall k :: i < k < |a| ==> a[k] == b[k]
      decreases i
    {
      if a[i] != b[i] {
        if a[i] > b[i] {
          ValCompareAt(a, b, i);
          return 1;
        } else {
          ValCompareAt(b, a, i);
          return -1;
        }
      }
      i := i - 1;
    }
    assert a == b;
    return 0;
  }

  /** The magnitude modulo 2^32, from its two low limbs. */
  function ToInt32(a: seq<Limb>): (r: nat)
    ensures r == Val(a) % 0x1_0000_0000
  {
    assert Pow(BASE, 2) == 0x1_0000_0000;
    if |a| >= 2 then
      ValDivMod(a, 2);
      assert a[..2][1..] == [a[1]];
      ValSingle(a[1]);
      Get(a, 1) * 0x1_0000 + Get(a, 0)
    else
      ValBound(a);
      PowMonotone(BASE, |a|, 2);
      if |a| == 1 then ValSingle(a[0]); Get(a, 1) * 0x1_0000 + Get(a, 0)
      else Get(a, 1) * 0x1_0000 + Get(a, 0)
  }
}
