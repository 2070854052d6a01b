/**
 * The modular routines of the magnitude engine (source file modular.js):
 * the signed remainder, the Montgomery reduction step, the Newton-Hensel
 * inverse of one limb modulo 2^16, the binary extended-Euclid inverse and the
 * left-to-right binary modular power with its dispatch.
 */
module Modular {
  import opened Numbers
  import opened Limbs
  import opened Results
  import opened Util
  import opened Bitwise
  import opened Arithmetic
  import opened Squaring
  import opened Division
  import opened SignArrays

  /** The number a magnitude stands for under mod's sign convention: only the sign -1 negates. */
  function Signed(mag: seq<Limb>, sign: int): (v: int)
    ensures sign == -1 ==> v == -(Val(mag) as int)
    ensures sign != -1 ==> v == Val(mag)
  {
    if sign == -1 then -(Val(mag) as int) else Val(mag)
  }

  // ---------------------------------------------------------------------
  // mod
  // ---------------------------------------------------------------------

  /**
   * mod: the least nonnegative residue of the signed number (aSign, a)
   * modulo b.  The remainder of divide is kept unless the sign is -1 and the
   * remainder is nonzero; then it is taken from b.
   */
  method Mod(a: seq<Limb>, aSign: int, b: seq<Limb>) returns (res: Result<seq<Limb>>)
    requires Normalized(a) && Normalized(b)
    ensures res.Err? <==> |b| == 0
    ensures res.Err? ==> res.error == DivisionByZero
    ensures res.Ok? ==> Val(b) > 0 && Normalized(res.value) && Val(res.value) == Signed(a, aSign) % Val(b)
  {
    var qr := Divide(a, b);
    if qr.Err? {
      return Err(qr.error);
    }
    var rArray := qr.value.1;
    var rSign := if IsZero(rArray) then 0 else aSign;
    NegatedResidue(Val(a), Val(b));
    if rSign == -1 {
      rArray := Subtract(b, rArray);
    }
    return Ok(rArray);
  }

  /** The residue of -x is 0 when x's residue is, and m minus x's residue otherwise. */
  lemma {:induction false} NegatedResidue(x: int, m: nat)
    requires x >= 0 && m > 0
    ensures x % m == 0 ==> (-x) % m == 0
    ensures x % m != 0 ==> (-x) % m == m - x % m
  {
    var q, r := x / m, x % m;
    assert x == q * m + r;
    if r == 0 {
      ModUnique(-x, m, -q, 0);
    } else {
      ModUnique(-x, m, -q - 1, m - r);
    }
  }

  // ---------------------------------------------------------------------
  // modInverseInt16
  // ---------------------------------------------------------------------

  /**
   * modInverseInt16: the inverse of an odd limb modulo 2^16.  The limb is its
   * own inverse modulo 8, and each Newton step r := r (2 - r a) squares the
   * modulus the inverse is right for, cut down to 2^4, 2^8, 2^12 and 2^16.
   */
  method ModInverseInt16(aVal: int) returns (r: int)
    ensures 0 <= r < BASE
    ensures (aVal % BASE) % 2 == 1 ==> ((aVal % BASE) * r) % BASE == 1
  {
    var a := aVal % BASE;
    var rVal := a;
    rVal := Newton(rVal, a, 0x10);
    rVal := Newton(rVal, a, 0x100);
    rVal := Newton(rVal, a, 0x1000);
    rVal := Newton(rVal, a, 0x10000);
    r := rVal % BASE;
    if a % 2 == 1 {
      NewtonChain(a);
    }
  }

  /** The four steps from a, which is right modulo 8, reach an inverse modulo 2^16. */
  lemma {:induction false} NewtonChain(a: int)
    requires a % 2 == 1
    ensures (a * (Newton(Newton(Newton(Newton(a, a, 0x10), a, 0x100), a, 0x1000), a, 0x10000) % BASE)) % BASE == 1
  {
    OddSquare(a);
    NewtonStep(a, a, 8, 0x10);
    NewtonFrom16(a, Newton(a, a, 0x10));
  }

  lemma {:induction false} NewtonFrom16(a: int, r: int)
    requires (r * a) % 0x10 == 1
    ensures (a * (Newton(Newton(Newton(r, a, 0x100), a, 0x1000), a, 0x10000) % BASE)) % BASE == 1
  {
    NewtonStep(a, r, 0x10, 0x100);
    NewtonFrom256(a, Newton(r, a, 0x100));
  }

  lemma {:induction false} NewtonFrom256(a: int, r: int)
    requires (r * a) % 0x100 == 1
    ensures (a * (Newton(Newton(r, a, 0x1000), a, 0x10000) % BASE)) % BASE == 1
  {
    NewtonStep(a, r, 0x100, 0x1000);
    NewtonFrom4096(a, Newton(r, a, 0x1000));
  }

  lemma {:induction false} NewtonFrom4096(a: int, r: int)
    requires (r * a) % 0x1000 == 1
    ensures (a * (Newton(r, a, 0x10000) % BASE)) % BASE == 1
  {
    NewtonStep(a, r, 0x1000, 0x10000);
    MaskedInverse(a, Newton(r, a, 0x10000));
  }

  /** One step r (2 - r a) of the iteration, the multiplier masked to q. */
  function Newton(r: int, a: int, q: int): int
    requires q > 0
  {
    r * ((2 - r * a) % q)
  }

  /** An odd number is its own inverse modulo 8. */
  lemma {:induction false} OddSquare(a: int)
    requires a % 2 == 1
    ensures (a * a) % 8 == 1
  {
    var k := a / 2;
    assert a == 2 * k + 1;
    assert a * a == 4 * (k * (k + 1)) + 1;
    assert (k * (k + 1)) % 2 == 0 by {
      ParityOfProduct(k, k + 1);
      if k % 2 == 0 {
        assert (k + 1) % 2 == 1;
      } else {
        assert (k + 1) % 2 == 0;
      }
    }
    var j := (k * (k + 1)) / 2;
    assert k * (k + 1) == 2 * j;
    ModUnique(a * a, 8, j, 1);
  }

  /**
   * One Newton step: when r a = 1 modulo p and q divides p^2, the new
   * r (2 - r a) taken modulo q is right modulo q.
   */
  lemma {:induction false} NewtonStep(a: int, r: int, p: int, q: int)
    requires p > 1 && q > 1 && (r * a) % p == 1 && (p * p) % q == 0
    ensures (Newton(r, a, q) * a) % q == 1
  {
    var x := r * a;
    var t := (2 - x) % q;
    var k := x / p;
    var j := (2 - x) / q;
    var w := (p * p) / q;
    assert x == p * k + 1;
    assert t == 2 - x - q * j;
    assert p * p == q * w;
    assert (r * t) * a == t * x by {
      MulAssociates(r, t, a);
      MulCommutes(t, a);
      MulAssociates(t, r, a);
      MulCommutes(r, t);
    }
    assert t * x == 1 - (p * p) * (k * k) - q * (j * x) by {
      assert t * x == (2 - x) * x - q * j * x;
      assert (2 - x) * x == 1 - (x - 1) * (x - 1);
      assert (x - 1) * (x - 1) == (p * k) * (p * k);
      MulRearrange(p, k, p, k);
    }
    assert t * x == -(w * (k * k) + j * x) * q + 1 by {
      MulAssociates(q, w, k * k);
    }
    ModUnique(t * x, q, -(w * (k * k) + j * x), 1);
  }

  /** The final mask keeps an inverse that is right modulo 2^16. */
  lemma {:induction false} MaskedInverse(a: int, r: int)
    requires (r * a) % BASE == 1
    ensures (a * (r % BASE)) % BASE == 1
  {
    CongruentOfMod(r, BASE);
    CongruentMul(r % BASE, a, r, a, BASE);
    CongruentModEq((r % BASE) * a, r * a, BASE);
    MulCommutes(r % BASE, a);
  }

  // ---------------------------------------------------------------------
  // modMontgomery
  // ---------------------------------------------------------------------

  /**
   * modMontgomery: REDC.  Step i adds the multiple u m 65536^i that clears
   * limb i, with u = a[i] mInvDigit mod 2^16; after mLen steps the low mLen
   * limbs are zero, the shift divides by R = 65536^mLen exactly, and
   * repeated subtraction brings the result below m.  A zero first digit
   * makes the first step shift an empty product by 0 bits, which throws.
   */
  method ModMontgomery(a: seq<Limb>, m: seq<Limb>, mInvDigit: int, mLen: nat) returns (res: Result<seq<Limb>>)
    requires Normalized(a) && Normalized(m) && mLen == |m| && 0 < mLen < MAX_LIMBS
    requires (m[0] * mInvDigit) % BASE == MASK
    ensures res.Err? <==> (Get(a, 0) * mInvDigit) % BASE == 0
    ensures res.Err? ==> res.error == InvalidArrayLength
    ensures res.Ok? ==> Normalized(res.value) && Val(res.value) < Val(m)
    ensures res.Ok? ==> (Val(res.value) * Pow(BASE, mLen)) % Val(m) == Val(a) % Val(m)
  {
    ValPositive(m);
    CongruentByMod(Val(a), Val(a), Val(m));
    var aArray := a;
    var aIndex := 0;
    while aIndex < mLen
      invariant 0 <= aIndex <= mLen
      invariant Normalized(aArray)
      invariant aIndex == 0 ==> aArray == a
      invariant aIndex > 0 ==> (Get(a, 0) * mInvDigit) % BASE != 0
      invariant Congruent(Val(aArray), Val(a), Val(m))
      invariant Pow(BASE, aIndex) > 0 && Val(aArray) % Pow(BASE, aIndex) == 0
    {
      var step := RedcAdd(aArray, m, mInvDigit, aIndex);
      if step.Err? {
        return Err(step.error);
      }
      RedcStep(aArray, m, mInvDigit, aIndex, Val(step.value), Val(a));
      aArray := step.value;
      aIndex := aIndex + 1;
    }
    var shiftedDown := BitShiftRight(aArray, mLen * 16);
    ExactShift(Val(aArray), mLen);
    ToLimbsVal(shiftedDown, Val(aArray) / Pow(2, (mLen * 16) % UINT32));
    var r := SubtractWhileAtLeast(shiftedDown, m);
    MontgomeryResult(Val(r), Val(shiftedDown), Val(aArray), Val(a), Val(m), Pow(BASE, mLen));
    return Ok(r);
  }

  /**
   * One pass of modMontgomery's first loop: the digit u = a[i] mInvDigit mod
   * 2^16, the product m u (empty for u = 0), shifted up by i limbs and added.
   * The shift of an empty product by 0 bits throws.
   */
  method RedcAdd(a: seq<Limb>, m: seq<Limb>, mInvDigit: int, i: nat) returns (res: Result<seq<Limb>>)
    requires Normalized(m) && 0 < |m| < MAX_LIMBS && i < |m|
    ensures res.Err? <==> i == 0 && (Get(a, i) * mInvDigit) % BASE == 0
    ensures res.Err? ==> res.error == InvalidArrayLength
    ensures res.Ok? ==> Normalized(res.value)
    ensures res.Ok? ==> Val(res.value) == Val(a) + (Val(m) * ((Get(a, i) * mInvDigit) % BASE)) * Pow(BASE, i)
  {
    var digit := (Get(a, i) * mInvDigit) % BASE;
    var prod := Multiply(m, if digit == 0 then [] else [digit]);
    ProductShape(m, digit, prod);
    var shifted := BitShiftLeft(prod, 16 * i, 0);
    ShiftAmountBelow(i, |m|);
    if shifted.Err? {
      return Err(shifted.error);
    }
    var sum := Add(a, shifted.value);
    return Ok(sum);
  }

  /** The closing loop of modMontgomery: m is taken off while the value is at least m. */
  method SubtractWhileAtLeast(a: seq<Limb>, m: seq<Limb>) returns (r: seq<Limb>)
    requires Normalized(a) && Normalized(m) && |m| > 0
    ensures Normalized(r) && Val(r) < Val(m) && Congruent(Val(r), Val(a), Val(m))
    ensures Val(r) == Val(a) % Val(m)
  {
    ValPositive(m);
    r := a;
    var c := Compare(r, m);
    CongruentByMod(Val(r), Val(r), Val(m));
    while c != -1
      invariant Normalized(r) && c == Sign(Val(r) - Val(m))
      invariant Congruent(Val(r), Val(a), Val(m))
      decreases Val(r)
    {
      ghost var r0 := r;
      r := Subtract(r, m);
      SubtractModulus(Val(r0), Val(r), Val(a), Val(m));
      c := Compare(r, m);
    }
    CongruentModEq(Val(r), Val(a), Val(m));
    DivSmall(Val(r), Val(m));
  }

  /** The product m u is empty exactly when the digit u is 0. */
  lemma {:induction false} ProductShape(m: seq<Limb>, digit: int, prod: seq<Limb>)
    requires Normalized(m) && |m| > 0 && 0 <= digit < BASE
    requires Normalized(prod) && Val(prod) == Val(m) * Val(if digit == 0 then [] else [digit])
    ensures Val(prod) == Val(m) * digit
    ensures |prod| == 0 <==> digit == 0
  {
    ValPositive(m);
    if digit != 0 {
      ValSingle(digit);
      MulAtLeast(digit, Val(m));
      assert Val(prod) > 0;
    } else {
      assert Val([]) == 0;
      if |prod| > 0 {
        ValPositive(prod);
      }
    }
  }

  /** Shifting by 16 i bits for i below a limb count stays below 2^32, and is 0 only for i = 0. */
  lemma {:induction false} ShiftAmountBelow(i: nat, n: nat)
    requires i < n < MAX_LIMBS
    ensures (16 * i) % UINT32 == 16 * i
    ensures Pow(2, 16 * i) == Pow(BASE, i)
  {
    ModUnique(16 * i, UINT32, 0, 16 * i);
    BasePow(i);
  }

  /**
   * One REDC step: adding u m 65536^i keeps the value congruent to a and,
   * because m[0] mInvDigit = -1 modulo 2^16, clears digit i.
   */
  lemma {:induction false} RedcStep(s: seq<Limb>, m: seq<Limb>, mInvDigit: int, i: nat, s': nat, va: nat)
    requires Normalized(m) && |m| > 0 && (m[0] * mInvDigit) % BASE == MASK
    requires s' == Val(s) + (Val(m) * ((Get(s, i) * mInvDigit) % BASE)) * Pow(BASE, i)
    requires Congruent(Val(s), va, Val(m)) && Pow(BASE, i) > 0 && Val(s) % Pow(BASE, i) == 0
    ensures Congruent(s', va, Val(m))
    ensures Pow(BASE, i + 1) > 0 && s' % Pow(BASE, i + 1) == 0
  {
    DigitOfVal(s, i);
    ValModBase(m);
    ValPositive(m);
    var digit := (Get(s, i) * mInvDigit) % BASE;
    RedcValues(Val(s), Get(s, i), Val(m), m[0], mInvDigit, digit, Pow(BASE, i), s' - Val(s), s', va);
  }

  /** REDC step on plain numbers: vs is a multiple of P = 65536^i whose digit i is t. */
  lemma {:induction false} RedcValues(vs: nat, t: int, vm: nat, m0: int, mInv: int, digit: int,
                                      P: nat, sh: int, s': int, va: int)
    requires P > 0 && vs % P == 0 && (vs / P) % BASE == t
    requires vm > 0 && vm % BASE == m0 && (m0 * mInv) % BASE == MASK && digit == (t * mInv) % BASE
    requires sh == (vm * digit) * P && s' == vs + sh && Congruent(vs, va, vm)
    ensures Congruent(s', va, vm)
    ensures BASE * P > 0 && s' % (BASE * P) == 0
  {
    assert Congruent(s', va, vm) by {
      assert sh == (digit * P) * vm by {
        MulAssociates(vm, digit, P);
        MulCommutes(vm, digit * P);
      }
      CongruentMultiple(vs, digit * P, vm);
      CongruentTrans(s', vs, va, vm);
    }
    var q := vs / P;
    assert vs == P * q by {
      DivMod(vs, P);
    }
    assert (q + vm * digit) % BASE == 0 by {
      RedcDigit(q, t, vm, m0, mInv, digit);
    }
    var k := (q + vm * digit) / BASE;
    assert q + vm * digit == BASE * k by {
      DivMod(q + vm * digit, BASE);
    }
    assert s' == (BASE * P) * k by {
      MulDistributes(P, q, vm * digit);
      MulCommutes(P, vm * digit);
      MulAssociates(P, BASE, k);
      MulCommutes(P, BASE);
    }
    PowPositive(BASE, 0);
    MulAtLeast(P, BASE);
    DivOfMultiple(s', BASE * P, k);
  }

  /** The digit arithmetic of REDC: q + vm u is a multiple of 2^16. */
  lemma {:induction false} RedcDigit(q: nat, t: int, vm: nat, m0: int, mInv: int, digit: int)
    requires q % BASE == t && vm % BASE == m0 && (m0 * mInv) % BASE == MASK && digit == (t * mInv) % BASE
    ensures (q + vm * digit) % BASE == 0
  {
    assert Congruent(vm * digit, m0 * (t * mInv), BASE) by {
      CongruentOfMod(vm, BASE);
      CongruentSym(vm % BASE, vm, BASE);
      CongruentOfMod(t * mInv, BASE);
      CongruentMul(vm, digit, m0, t * mInv, BASE);
    }
    assert m0 * (t * mInv) == t * (m0 * mInv) by {
      MulAssociates(m0, t, mInv);
      MulCommutes(m0, t);
      MulAssociates(t, m0, mInv);
    }
    assert Congruent(t * (m0 * mInv), t * MASK, BASE) by {
      CongruentOfMod(m0 * mInv, BASE);
      CongruentSym((m0 * mInv) % BASE, m0 * mInv, BASE);
      CongruentByMod(t, t, BASE);
      CongruentMul(t, m0 * mInv, t, MASK, BASE);
    }
    assert Congruent(q + vm * digit, t + t * MASK, BASE) by {
      CongruentTrans(vm * digit, t * (m0 * mInv), t * MASK, BASE);
      CongruentOfMod(q, BASE);
      CongruentSym(q % BASE, q, BASE);
      CongruentAdd(q, vm * digit, t, t * MASK, BASE);
    }
    assert t + t * MASK == t * BASE by {
      MulDistributes(t, MASK, 1);
    }
    DivOfMultiple(t * BASE, BASE, t);
    CongruentModEq(q + vm * digit, t * BASE, BASE);
  }

  /** With the low n limbs zero, the shift by 16 n bits divides by R = 65536^n exactly. */
  lemma {:induction false} ExactShift(v: nat, n: nat)
    requires 0 < n < MAX_LIMBS && Pow(BASE, n) > 0 && v % Pow(BASE, n) == 0
    ensures Pow(2, (n * 16) % UINT32) == Pow(BASE, n)
    ensures (v / Pow(2, (n * 16) % UINT32)) * Pow(BASE, n) == v
  {
    ModUnique(n * 16, UINT32, 0, n * 16);
    BasePow(n);
    assert v == (v / Pow(BASE, n)) * Pow(BASE, n) + v % Pow(BASE, n);
  }

  /** Taking m off keeps the residue class. */
  lemma {:induction false} SubtractModulus(x: nat, y: int, z: int, m: nat)
    requires m > 0 && y == x - m && Congruent(x, z, m)
    ensures Congruent(y, z, m)
  {
    CongruentMultiple(y, 1, m);
    CongruentSym(y + 1 * m, y, m);
    assert y + 1 * m == x;
    CongruentTrans(y, x, z, m);
  }

  /** r, congruent to the exact quotient t / R, satisfies r R = a modulo m. */
  lemma {:induction false} MontgomeryResult(r: nat, t: nat, s: nat, va: nat, m: nat, R: nat)
    requires m > 0 && Congruent(r, t, m) && t * R == s && Congruent(s, va, m)
    ensures (r * R) % m == va % m
  {
    CongruentByMod(R, R, m);
    CongruentMul(r, R, t, R, m);
    CongruentTrans(r * R, s, va, m);
    CongruentModEq(r * R, va, m);
  }

  // ---------------------------------------------------------------------
  // modInverse
  // ---------------------------------------------------------------------

  /** x, negated when the sign is -1. */
  function ApplySign(sign: int, x: int): (y: int)
    ensures sign == -1 ==> y == -x
    ensures sign != -1 ==> y == x
  {
    if sign == -1 then -x else x
  }

  /** A right shift by one bit of a magnitude beside its sign: halving toward zero. */
  function TruncHalf(x: int): int
  {
    if x >= 0 then x / 2 else -((-x) / 2)
  }

  /** Lines 92-100 on numbers: an odd coefficient first loses one modulus M, then halves toward zero. */
  function HalveCoefficient(c: int, M: nat): int
  {
    TruncHalf(if c % 2 != 0 then c - M else c)
  }

  /** An inner loop of modInverse on numbers: u is halved while even, its coefficient c alongside. */
  function Strip(u: nat, c: int, M: nat): (r: (nat, int))
    requires u > 0
    ensures 0 < r.0 <= u && r.0 % 2 == 1
    decreases u
  {
    if u % 2 == 1 then (u, c) else Strip(u / 2, HalveCoefficient(c, M), M)
  }

  /**
   * The outer loop of modInverse on numbers, from the state (u, v, b, d) of
   * mNorm, aNorm, bVal and dVal: both are stripped of their factors 2, the
   * smaller is taken from the larger (u from the comparison's side when
   * equal) and its coefficient likewise; the result is d when u reaches 0.
   */
  function InverseLoop(u: nat, v: nat, b: int, d: int, M: nat): int
    requires v > 0
    decreases u + v
  {
    if u == 0 then d
    else
      var n := Round(u, v, b, d, M);
      InverseLoop(n.u, n.v, n.b, n.d, M)
  }

  /** The state of modInverse's outer loop: mNorm, aNorm and the values of bVal and dVal. */
  datatype State = State(u: nat, v: nat, b: int, d: int)

  /** One round of the outer loop on numbers; v stays positive and u + v goes down. */
  function Round(u: nat, v: nat, b: int, d: int, M: nat): (n: State)
    requires u > 0 && v > 0
    ensures n.v > 0 && n.u + n.v < u + v
  {
    var su := Strip(u, b, M);
    var sv := Strip(v, d, M);
    if su.0 >= sv.0 then State(su.0 - sv.0, sv.0, su.1 - sv.1, sv.1)
    else State(su.0, sv.0 - su.0, su.1, sv.1 - su.1)
  }

  /**
   * For an odd modulus M, u = c A and u even make the halved u equal to the
   * halved coefficient times A: an odd c is made even by taking M off.
   */
  lemma {:induction false} HalveStep(u: nat, c: int, M: nat, A: int)
    requires u % 2 == 0 && M % 2 == 1 && Congruent(u, c * A, M)
    ensures Congruent(u / 2, HalveCoefficient(c, M) * A, M)
  {
    var c' := if c % 2 != 0 then c - M else c;
    if c % 2 != 0 {
      OddDifference(c, M);
      MulDistributes(A, c', M);
      assert c' * A + A * M == c * A;
      CongruentMultiple(c' * A, A, M);
      CongruentSym(c * A, c' * A, M);
      CongruentTrans(u, c * A, c' * A, M);
    }
    HalveEven(u, c', M, A);
  }

  /** The difference of two odd numbers is even. */
  lemma {:induction false} OddDifference(x: int, y: int)
    requires x % 2 == 1 && y % 2 == 1
    ensures (x - y) % 2 == 0
  {
    assert x == 2 * (x / 2) + 1;
    assert y == 2 * (y / 2) + 1;
    DivOfMultiple(x - y, 2, x / 2 - y / 2);
  }

  /** Both sides even: halving u and an even coefficient keeps the congruence modulo an odd M. */
  lemma {:induction false} HalveEven(u: nat, c: int, M: nat, A: int)
    requires u % 2 == 0 && c % 2 == 0 && M % 2 == 1 && Congruent(u, c * A, M)
    ensures Congruent(u / 2, TruncHalf(c) * A, M)
  {
    var h := c / 2;
    assert c == 2 * h;
    assert TruncHalf(c) == h;
    var k := (u - c * A) / M;
    assert u - c * A == k * M;
    assert c * A == 2 * (h * A) by {
      MulAssociates(2, h, A);
    }
    assert k % 2 == 0 by {
      assert (k * M) % 2 == 0;
      ParityOfProduct(k, M);
    }
    assert u / 2 - h * A == (k / 2) * M;
    DivOfMultiple(u / 2 - h * A, M, k / 2);
  }

  /**
   * Stripping u keeps u = c A modulo an odd M and, against a partner w with
   * u or w odd, keeps the gcd.
   */
  lemma {:induction false} StripSpec(u: nat, c: int, M: nat, A: int, w: nat)
    requires u > 0 && M % 2 == 1 && Congruent(u, c * A, M) && (u % 2 == 1 || w % 2 == 1)
    ensures Congruent(Strip(u, c, M).0, Strip(u, c, M).1 * A, M)
    ensures Gcd(Strip(u, c, M).0, w) == Gcd(u, w)
    decreases u
  {
    if u % 2 == 0 {
      HalveStep(u, c, M, A);
      GcdHalveOdd(u, w);
      StripSpec(u / 2, HalveCoefficient(c, M), M, A, w);
    }
  }

  /** Congruences subtract. */
  lemma {:induction false} CongruentSub(x: int, y: int, x': int, y': int, m: nat)
    requires Congruent(x, x', m) && Congruent(y, y', m)
    ensures Congruent(x - y, x' - y', m)
  {
    var i := (x - x') / m;
    var j := (y - y') / m;
    assert x - x' == i * m;
    assert y - y' == j * m;
    assert (x - y) - (x' - y') == (i - j) * m;
    DivOfMultiple((x - y) - (x' - y'), m, i - j);
  }

  /**
   * The loop invariant of modInverse: while u = b A and v = d A modulo an odd
   * M, with u or v odd, the final coefficient d satisfies d A = gcd(u, v).
   */
  lemma {:induction false} InverseLoopSpec(u: nat, v: nat, b: int, d: int, M: nat, A: int)
    requires v > 0 && M % 2 == 1 && (u % 2 == 1 || v % 2 == 1)
    requires Congruent(u, b * A, M) && Congruent(v, d * A, M)
    ensures Congruent(InverseLoop(u, v, b, d, M) * A, Gcd(u, v), M)
    decreases u + v
  {
    if u == 0 {
      GcdZero(v);
      CongruentSym(v, d * A, M);
    } else {
      var n := Round(u, v, b, d, M);
      RoundSpec(u, v, b, d, M, A);
      InverseLoopSpec(n.u, n.v, n.b, n.d, M, A);
    }
  }

  /** One round of the outer loop keeps both congruences and the gcd, and leaves one of u and v odd. */
  lemma {:induction false} RoundSpec(u: nat, v: nat, b: int, d: int, M: nat, A: int)
    requires u > 0 && v > 0 && M % 2 == 1 && (u % 2 == 1 || v % 2 == 1)
    requires Congruent(u, b * A, M) && Congruent(v, d * A, M)
    ensures var n := Round(u, v, b, d, M);
      Congruent(n.u, n.b * A, M) && Congruent(n.v, n.d * A, M) &&
      Gcd(n.u, n.v) == Gcd(u, v) && (n.u % 2 == 1 || n.v % 2 == 1)
  {
    var su := Strip(u, b, M);
    var sv := Strip(v, d, M);
    assert Congruent(su.0, su.1 * A, M) && Congruent(sv.0, sv.1 * A, M) && Gcd(su.0, sv.0) == Gcd(u, v) by {
      StripSpec(u, b, M, A, v);
      StripSpec(v, d, M, A, su.0);
      GcdSymmetric(su.0, sv.0);
      GcdSymmetric(v, su.0);
    }
    if su.0 >= sv.0 {
      SubtractStep(su.0, sv.0, su.1, sv.1, M, A);
    } else {
      SubtractStep(sv.0, su.0, sv.1, su.1, M, A);
      GcdSymmetric(sv.0, su.0);
      GcdSymmetric(sv.0 - su.0, su.0);
    }
  }

  /** Taking y = cy A from x = cx A: x - y = (cx - cy) A, and the gcd with y is kept. */
  lemma {:induction false} SubtractStep(x: nat, y: nat, cx: int, cy: int, M: nat, A: int)
    requires x >= y && Congruent(x, cx * A, M) && Congruent(y, cy * A, M)
    ensures Congruent(x - y, (cx - cy) * A, M) && Gcd(x - y, y) == Gcd(x, y)
  {
    GcdSubtract(x, y);
    CongruentSub(x, y, cx * A, cy * A, M);
    assert cx * A - cy * A == (cx - cy) * A;
  }

  /** From the start (M, A, 0, 1): the final coefficient d satisfies d A = gcd(M, A) modulo an odd M. */
  lemma {:induction false} InverseLoopStart(M: nat, A: nat)
    requires A > 0 && M % 2 == 1
    ensures Congruent(InverseLoop(M, A, 0, 1, M) * A, Gcd(M, A), M)
  {
    DivOfMultiple(M - 0 * A, M, 1);
    DivOfMultiple(A - 1 * A, M, 0);
    InverseLoopSpec(M, A, 0, 1, M, A);
  }

  /**
   * Lines 92-100 (and 106-114 for dVal): an odd coefficient first has the
   * modulus subtracted, then its magnitude is shifted right by one bit and an
   * empty magnitude takes the sign 0.
   */
  method HalveInPlace(c: SignArray, mSigned: SignArray)
    requires c.Valid() && mSigned.Valid() && mSigned.sign == 1 && c != mSigned
    modifies c
    ensures c.Valid() && c.Value() == HalveCoefficient(old(c.Value()), Val(mSigned.magnitude))
  {
    SignedParity(c.sign, Val(c.magnitude));
    if IsOdd(c.magnitude) {
      var c1 := SignArray.SignSubtract(c, mSigned);
    }
    ghost var s, mag := c.sign, c.magnitude;
    c.magnitude := BitShiftRight(c.magnitude, 1);
    if |c.magnitude| == 0 {
      c.sign := 0;
    }
    HalfOfSigned(s, mag, c.sign, c.magnitude);
  }

  /** The parity of a signed value is the parity of its magnitude. */
  lemma {:induction false} SignedParity(s: int, v: nat)
    requires s == -1 || s == 0 || s == 1
    requires s == 0 ==> v == 0
    ensures (s * v) % 2 != 0 <==> v % 2 == 1
  {
    if s == -1 {
      NegatedResidue(v, 2);
    }
  }

  /** Halving the magnitude beside its sign, and zeroing the sign of an empty result, halves toward zero. */
  lemma {:induction false} HalfOfSigned(s: int, mag: seq<Limb>, s': int, h: seq<Limb>)
    requires (s == -1 || s == 0 || s == 1) && Normalized(mag) && (s == 0 <==> |mag| == 0)
    requires Pow(2, 1 % UINT32) > 0 && h == ToLimbs(Val(mag) / Pow(2, 1 % UINT32))
    requires s' == if |h| == 0 then 0 else s
    ensures (s' == -1 || s' == 0 || s' == 1) && Normalized(h) && (s' == 0 <==> |h| == 0)
    ensures s' * Val(h) == TruncHalf(s * Val(mag))
  {
    assert Pow(2, 1 % UINT32) == 2 by {
      assert 1 % UINT32 == 1;
      assert Pow(2, 1) == 2 * Pow(2, 0);
    }
    ToLimbsVal(h, Val(mag) / 2);
    if |h| > 0 {
      ValPositive(h);
    }
  }

  /**
   * modInverse: the binary extended Euclid algorithm.  mNorm = u and
   * aNorm = v start at m and a; bVal and dVal, signed accumulators, keep
   * u = b a and v = d a modulo m.  Each round strips the factors 2 of u and
   * of v, halving their coefficients beside them, then takes the smaller
   * from the larger.  When u reaches 0, v is gcd(m, a) and d a = v.
   *
   * The source finishes by adding or subtracting m once, comparing the sign
   * of d with aSign (lines 126-132), which is right only while |d| < m; here
   * d, negated for aSign = -1, is reduced with mod instead.
   *
   * The coefficients live in the in-place accumulator of arrays.signarray.js;
   * modular.js names redscale.SignArray, whose operations return new objects.
   */
  method ModInverse(a: seq<Limb>, aSign: int, m: seq<Limb>) returns (r: seq<Limb>)
    requires Normalized(a) && Normalized(m) && Val(a) > 0 && Val(m) > 0
    ensures Normalized(r) && Val(r) < Val(m)
    ensures Val(r) == ApplySign(aSign, InverseLoop(Val(m), Val(a), 0, 1, Val(m))) % Val(m)
    ensures Val(m) % 2 == 1 ==> Congruent(Signed(a, aSign) * Val(r), Gcd(Val(m), Val(a)), Val(m))
  {
    var mNorm := m;
    var aNorm := a;
    var mSigned := new SignArray(1, m);
    var bVal := new SignArray(0, []);
    var dVal := new SignArray(1, [1]);
    ghost var M := Val(m);
    ghost var target := InverseLoop(M, Val(a), 0, 1, M);
    assert Val([1]) == 1 && dVal.Value() == 1 && bVal.Value() == 0 by {
      ValSingle(1);
    }
    while !IsZero(mNorm)
      invariant mSigned.sign == 1 && mSigned.magnitude == m && mSigned.Valid()
      invariant bVal != mSigned && dVal != mSigned && bVal != dVal
      invariant bVal.Valid() && dVal.Valid()
      invariant Normalized(mNorm) && Normalized(aNorm) && Val(aNorm) > 0
      invariant InverseLoop(Val(mNorm), Val(aNorm), bVal.Value(), dVal.Value(), M) == target
      decreases Val(mNorm) + Val(aNorm)
    {
      mNorm, aNorm := InverseRound(mNorm, aNorm, bVal, dVal, mSigned);
    }
    var res := Mod(dVal.magnitude, if aSign == -1 then -dVal.sign else dVal.sign, m);
    r := res.value;
    FinishSign(dVal.sign, dVal.magnitude, aSign);
    if M % 2 == 1 {
      InverseLoopStart(M, Val(a));
      InverseResult(M, Val(a), aSign, target, Gcd(M, Val(a)), Val(r));
    }
  }

  /**
   * One round of the outer loop of modInverse (lines 88-124): both values
   * are stripped of their factors 2 beside their coefficients, then the
   * smaller is taken from the larger, aNorm from mNorm when they are equal,
   * and the coefficient beside the smaller from the one beside the larger.
   * signSubtract returns its first operand, so the source's reassignment of
   * bVal and dVal keeps the same objects.
   */
  method InverseRound(mNorm: seq<Limb>, aNorm: seq<Limb>, bVal: SignArray, dVal: SignArray, mSigned: SignArray)
    returns (u: seq<Limb>, v: seq<Limb>)
    requires Normalized(mNorm) && Normalized(aNorm) && Val(mNorm) > 0 && Val(aNorm) > 0
    requires mSigned.Valid() && mSigned.sign == 1 && bVal.Valid() && dVal.Valid()
    requires bVal != mSigned && dVal != mSigned && bVal != dVal
    modifies bVal, dVal
    ensures bVal.Valid() && dVal.Valid() && Normalized(u) && Normalized(v) && Val(v) > 0
    ensures State(Val(u), Val(v), bVal.Value(), dVal.Value()) ==
            Round(Val(mNorm), Val(aNorm), old(bVal.Value()), old(dVal.Value()), Val(mSigned.magnitude))
  {
    ghost var M := Val(mSigned.magnitude);
    ghost var u0, v0, b0, d0 := Val(mNorm), Val(aNorm), bVal.Value(), dVal.Value();
    u := StripInPlace(mNorm, bVal, mSigned);
    v := StripInPlace(aNorm, dVal, mSigned);
    ghost var su, sv := (Val(u), bVal.Value()), (Val(v), dVal.Value());
    var c := Compare(u, v);
    if c >= 0 {
      u := Subtract(u, v);
      var same := SignArray.SignSubtract(bVal, dVal);
    } else {
      v := Subtract(v, u);
      var same := SignArray.SignSubtract(dVal, bVal);
    }
    RoundOf(u0, v0, b0, d0, M, su, sv, Val(u), Val(v), bVal.Value(), dVal.Value());
  }

  /** The state after the strips su and sv and the subtraction is the next state of the outer loop. */
  lemma {:induction false} RoundOf(u0: nat, v0: nat, b0: int, d0: int, M: nat, su: (nat, int), sv: (nat, int),
                                   u: nat, v: nat, b: int, d: int)
    requires u0 > 0 && v0 > 0 && su == Strip(u0, b0, M) && sv == Strip(v0, d0, M)
    requires if su.0 >= sv.0 then u == su.0 - sv.0 && v == sv.0 && b == su.1 - sv.1 && d == sv.1
             else u == su.0 && v == sv.0 - su.0 && b == su.1 && d == sv.1 - su.1
    ensures State(u, v, b, d) == Round(u0, v0, b0, d0, M)
  {
  }

  /**
   * One inner loop of modInverse (lines 89-101, and 103-115 for aNorm):
   * while u is even it is shifted right by one bit and its coefficient c is
   * halved beside it.
   */
  method StripInPlace(u: seq<Limb>, c: SignArray, mSigned: SignArray) returns (w: seq<Limb>)
    requires Normalized(u) && Val(u) > 0 && c.Valid()
    requires mSigned.Valid() && mSigned.sign == 1 && c != mSigned
    modifies c
    ensures c.Valid() && Normalized(w)
    ensures (Val(w), c.Value()) == Strip(Val(u), old(c.Value()), Val(mSigned.magnitude))
  {
    ghost var M := Val(mSigned.magnitude);
    ghost var target := Strip(Val(u), c.Value(), M);
    w := u;
    while IsEven(w)
      invariant c.Valid() && Normalized(w) && Val(w) > 0
      invariant Strip(Val(w), c.Value(), M) == target
      decreases Val(w)
    {
      ghost var prev := w;
      w := BitShiftRight(w, 1);
      HalfShift(prev, w);
      HalveInPlace(c, mSigned);
    }
  }

  /** The one-bit right shift of bitShiftRight halves the value. */
  lemma {:induction false} HalfShift(src: seq<Limb>, r: seq<Limb>)
    requires Pow(2, 1 % UINT32) > 0 && r == ToLimbs(Val(src) / Pow(2, 1 % UINT32))
    ensures Normalized(r) && Val(r) == Val(src) / 2
  {
    assert Pow(2, 1 % UINT32) == 2 by {
      assert 1 % UINT32 == 1;
      assert Pow(2, 1) == 2 * Pow(2, 0);
    }
    ToLimbsVal(r, Val(src) / 2);
  }

  /** Mod's sign argument -s for aSign = -1 and s otherwise makes it reduce d, negated for aSign = -1. */
  lemma {:induction false} FinishSign(s: int, mag: seq<Limb>, aSign: int)
    requires (s == -1 || s == 0 || s == 1) && (s == 0 ==> Val(mag) == 0)
    ensures Signed(mag, if aSign == -1 then -s else s) == ApplySign(aSign, s * Val(mag))
  {
  }

  /** The reduced, signed coefficient is an inverse of the signed a up to the gcd. */
  lemma {:induction false} InverseResult(M: nat, A: int, aSign: int, D: int, G: int, rv: int)
    requires M > 0 && Congruent(D * A, G, M) && rv == ApplySign(aSign, D) % M
    ensures Congruent(ApplySign(aSign, A) * rv, G, M)
  {
    var sa, sd := ApplySign(aSign, A), ApplySign(aSign, D);
    assert sa * sd == D * A by {
      if aSign == -1 {
        assert sa * sd == (-A) * (-D);
      }
    }
    CongruentOfMod(sd, M);
    CongruentByMod(sa, sa, M);
    CongruentMul(sa, rv, sa, sd, M);
    CongruentTrans(sa * rv, D * A, G, M);
  }

  /**
   * Lines 126-132 as written: for a d whose sign is below aSign one m is
   * added, for a sign above aSign one m is subtracted, and the magnitude is
   * returned.
   */
  function FinishAsWritten(d: int, aSign: int, M: nat): (r: nat)
    ensures r == (if Sign(d) < aSign then d + M else if Sign(d) > aSign then d - M else d) ||
            r == -(if Sign(d) < aSign then d + M else if Sign(d) > aSign then d - M else d)
  {
    var e := if Sign(d) < aSign then d + M else if Sign(d) > aSign then d - M else d;
    if e >= 0 then e else -e
  }

  /** While |d| < m and d is nonzero, the one-step correction does reduce (aSign d) modulo m. */
  lemma {:induction false} FinishAsWrittenAgrees(d: int, aSign: int, M: nat)
    requires -(M as int) < d < M && d != 0 && (aSign == 1 || aSign == -1)
    ensures FinishAsWritten(d, aSign, M) == ApplySign(aSign, d) % M
  {
    if aSign == 1 {
      if d > 0 {
        DivSmall(d, M);
      } else {
        ModUnique(d, M, -1, d + M);
      }
    } else {
      if d > 0 {
        ModUnique(-d, M, -1, M - d);
      } else {
        DivSmall(-d, M);
      }
    }
  }

  /**
   * The correction falls short once |d| >= m: for a = 20 and m = 27 the loop
   * ends with d = -31, the source returns 4, and 20 * 4 is -1, not 1, modulo 27.
   */
  lemma ModInverseFinishAsWrittenFails()
    ensures InverseLoop(27, 20, 0, 1, 27) == -31
    ensures FinishAsWritten(-31, 1, 27) == 4 && (20 * 4) % 27 == 26
    ensures ApplySign(1, -31) % 27 == 23 && (20 * 23) % 27 == 1
  {
    InverseLoopTrace();
    assert FinishAsWritten(-31, 1, 27) == 4;
    ModUnique(20 * 4, 27, 2, 26);
    ModUnique(-31, 27, -2, 23);
    ModUnique(20 * 23, 27, 17, 1);
  }

  /** The run of the outer loop on m = 27 and a = 20, round by round. */
  lemma InverseLoopTrace()
    ensures InverseLoop(27, 20, 0, 1, 27) == -31
  {
    assert HalveCoefficient(1, 27) == -13 && HalveCoefficient(-13, 27) == -20;
    assert Strip(5, -20, 27) == (5, -20);
    assert Strip(10, -13, 27) == (5, -20);
    assert Strip(20, 1, 27) == (5, -20);
    assert Strip(27, 0, 27) == (27, 0);
    assert InverseLoop(27, 20, 0, 1, 27) == InverseLoop(22, 5, 20, -20, 27);
    assert HalveCoefficient(20, 27) == 10 && Strip(11, 10, 27) == (11, 10);
    assert Strip(22, 20, 27) == (11, 10) && Strip(5, -20, 27) == (5, -20);
    assert InverseLoop(22, 5, 20, -20, 27) == InverseLoop(6, 5, 30, -20, 27);
    assert HalveCoefficient(30, 27) == 15 && Strip(3, 15, 27) == (3, 15);
    assert Strip(6, 30, 27) == (3, 15);
    assert InverseLoop(6, 5, 30, -20, 27) == InverseLoop(3, 2, 15, -35, 27);
    assert HalveCoefficient(-35, 27) == -31 && Strip(1, -31, 27) == (1, -31);
    assert Strip(2, -35, 27) == (1, -31) && Strip(3, 15, 27) == (3, 15);
    assert InverseLoop(3, 2, 15, -35, 27) == InverseLoop(2, 1, 46, -31, 27);
    assert HalveCoefficient(46, 27) == 23 && Strip(1, 23, 27) == (1, 23);
    assert Strip(2, 46, 27) == (1, 23);
    assert InverseLoop(2, 1, 46, -31, 27) == InverseLoop(0, 1, 54, -31, 27);
  }

  /**
   * modPowStandard: left-to-right square-and-multiply modulo m.  The
   * result starts at a mod m for the top bit of e; every lower bit, read
   * from the limbs of e by a counter eShift within the limb eIndex, squares
   * it and, for a 1 bit, multiplies by a mod m, reducing after each step.
   * The sign argument is ignored: a is reduced as a magnitude.
   */
  method ModPowStandard(a: seq<Limb>, aSign: int, e: seq<Limb>, m: seq<Limb>) returns (res: Result<seq<Limb>>)
    requires Normalized(a) && Normalized(e) && |e| > 0 && Normalized(m) && |m| < MAX_LIMBS
    ensures res.Err? <==> |m| == 0
    ensures res.Err? ==> res.error == DivisionByZero
    ensures res.Ok? ==> Normalized(res.value) && Val(res.value) < Val(m)
    ensures res.Ok? ==> Val(res.value) == Pow(Val(a), Val(e)) % Val(m)
  {
    var eLen := |e|;
    var eLeadingZeroes := IntLeadingZeroes(e[eLen - 1]);
    var eBits: int := eLen * 16 - eLeadingZeroes;
    var eShift: int := 16 - eLeadingZeroes - 1;
    var eIndex: int := eLen - 1;
    var reduced := Mod(a, 1, m);
    if reduced.Err? {
      return Err(reduced.error);
    }
    var aArray := reduced.value;
    var copy := NewCopy(aArray, |aArray|);
    var rArray := copy[..];
    ExponentStart(e, eLeadingZeroes);
    TopQuotient(Val(e), Val(aArray), Val(m));
    eBits, eShift, eIndex := NextBit(eBits, eShift, eIndex);
    rArray := ScanBits(rArray, aArray, e, m, eBits, eShift, eIndex);
    assert HighBits(Val(e), 0) == Val(e);
    PowOfResidue(Val(a), Val(e), Val(m));
    return Ok(rArray);
  }

  /**
   * The loop of modPowStandard (lines 221-238), entered with r = a^k mod m
   * for the bits k of e from place eBits up; eBits counts the bits still to
   * read and bit eBits - 1 sits at place eShift of limb eIndex.
   */
  method ScanBits(r: seq<Limb>, a: seq<Limb>, e: seq<Limb>, m: seq<Limb>, eBits: int, eShift: int, eIndex: int)
    returns (rArray: seq<Limb>)
    requires Normalized(r) && Normalized(a) && Normalized(m) && |m| < MAX_LIMBS
    requires Val(r) < Val(m) && Val(a) < Val(m)
    requires 0 <= eBits && eIndex < |e| && 0 <= eShift < 16 && 16 * eIndex + eShift == eBits - 1
    requires Val(r) == Pow(Val(a), HighBits(Val(e), eBits)) % Val(m)
    ensures Normalized(rArray) && Val(rArray) < Val(m)
    ensures Val(rArray) == Pow(Val(a), Val(e)) % Val(m)
  {
    ghost var E, M, A := Val(e), Val(m), Val(a);
    var bits, shift, index := eBits, eShift, eIndex;
    rArray := r;
    ghost var k: nat := HighBits(E, bits);
    while bits != 0
      invariant 0 <= bits && index < |e| && 0 <= shift < 16 && 16 * index + shift == bits - 1
      invariant Normalized(rArray) && Val(rArray) < M
      invariant k == HighBits(E, bits) && Val(rArray) == Pow(A, k) % M
      decreases bits
    {
      ReadBit(e, index, shift, bits - 1);
      var eVal := (e[index] / Pow(2, shift)) % 2;
      ghost var r0 := Val(rArray);
      ghost var next := HighBits(E, bits - 1);
      rArray := SquareMultiplyMod(rArray, a, m, eVal);
      SquareMultiplyStep(A, M, k, eVal, next, r0, Val(rArray));
      bits, shift, index := NextBit(bits, shift, index);
      k := next;
    }
    assert HighBits(E, 0) == E;
  }

  /**
   * The counter step of modPowStandard (lines 214-219 and 232-237): one bit
   * fewer to go, and the bit place moves down, into the limb below when it
   * falls under 0.
   */
  method NextBit(eBits: int, eShift: int, eIndex: int) returns (bits: int, shift: int, index: int)
    requires 0 <= eShift < 16
    ensures bits == eBits - 1 && 0 <= shift < 16 && index <= eIndex
    ensures 16 * index + shift == 16 * eIndex + eShift - 1
  {
    bits := eBits - 1;
    shift := eShift - 1;
    index := eIndex;
    if shift < 0 {
      shift := shift + 16;
      index := index - 1;
    }
  }

  /**
   * The body of modPowStandard's loop (lines 225-229): r is squared and
   * reduced, then for a 1 bit multiplied by a and reduced again.
   */
  method SquareMultiplyMod(r: seq<Limb>, a: seq<Limb>, m: seq<Limb>, bit: int) returns (t: seq<Limb>)
    requires Normalized(r) && Normalized(a) && Normalized(m) && |m| < MAX_LIMBS
    requires Val(r) < Val(m) && Val(a) < Val(m)
    ensures Normalized(t) && Val(t) < Val(m)
    ensures bit == 1 ==> Val(t) == (((Val(r) * Val(r)) % Val(m)) * Val(a)) % Val(m)
    ensures bit != 1 ==> Val(t) == (Val(r) * Val(r)) % Val(m)
  {
    ValBound(m);
    NormalizedShort(r, |m|);
    if |r| > 0 {
      ValPositive(r);
    }
    var square := Square(r);
    var sq := Mod(square, 1, m);
    t := sq.value;
    if bit == 1 {
      NormalizedShort(t, |m|);
      NormalizedShort(a, |m|);
      var product := Multiply(t, a);
      var pr := Mod(product, 1, m);
      t := pr.value;
    }
  }

  /** The counters start at the top bit of e: eBits is the bit length of e and eShift the top bit's place in the top limb. */
  lemma {:induction false} ExponentStart(e: seq<Limb>, lz: int)
    requires Normalized(e) && |e| > 0 && lz == 16 - BitLen(e[|e| - 1] % BASE)
    ensures Val(e) > 0 && BitLen(Val(e)) == |e| * 16 - lz
    ensures 0 <= 16 - lz - 1 < 16 && 16 * (|e| - 1) + (16 - lz - 1) == BitLen(Val(e)) - 1
  {
    DivSmall(e[|e| - 1], BASE);
    ValPositive(e);
    BitLenTop(e);
    LimbBitLen(e[|e| - 1]);
  }

  /** The bits of E from place k up, E shifted right by k. */
  function HighBits(E: nat, k: nat): nat
  {
    PowPositive(2, k);
    DivBounds(E, Pow(2, k));
    E / Pow(2, k)
  }

  /** The top bit alone: e divided by 2^(bitLen(e) - 1) is 1, and a < m is its own residue. */
  lemma {:induction false} TopQuotient(E: nat, A: nat, M: nat)
    requires E > 0 && A < M
    ensures BitLen(E) >= 1 && HighBits(E, BitLen(E) - 1) == 1 && A == Pow(A, 1) % M
  {
    BitLenBounds(E);
    var p := Pow(2, BitLen(E) - 1);
    assert Pow(2, BitLen(E)) == 2 * p;
    ModUnique(E, p, 1, E - p);
    assert Pow(A, 1) == A * Pow(A, 0);
    DivSmall(A, M);
  }

  /**
   * The bit of limb i at place s is bit 16 i + s of the value, read as
   * (e[i] >>> s) & 1; and the prefix above bit j - 1 doubles and takes the bit.
   */
  lemma {:induction false} ReadBit(e: seq<Limb>, i: int, s: int, j: int)
    requires 0 <= i < |e| && 0 <= s < 16 && j == 16 * i + s
    ensures Pow(2, s) > 0 && (e[i] / Pow(2, s)) % 2 == HighBits(Val(e), j) % 2
    ensures HighBits(Val(e), j) == 2 * HighBits(Val(e), j + 1) + HighBits(Val(e), j) % 2
  {
    PowPositive(2, s);
    PowPositive(2, j);
    PowPositive(2, j + 1);
    DigitOfVal(e, i);
    BitOfDigit(Val(e), i, s);
    PowAdd(2, j, 1);
    assert Pow(2, 1) == 2 * Pow(2, 0);
    DivDiv(Val(e), Pow(2, j), 2);
  }

  /** Bit s of digit i of n is bit 16 i + s of n. */
  lemma {:induction false} BitOfDigit(n: nat, i: nat, s: nat)
    requires s < 16
    ensures Pow(2, s) > 0 && Pow(2, 16 * i + s) > 0
    ensures (Digit(n, i) / Pow(2, s)) % 2 == (n / Pow(2, 16 * i + s)) % 2
  {
    PowPositive(BASE, i);
    var d := n / Pow(BASE, i);
    assert Digit(n, i) == d % BASE;
    LowLimbBit(d, s);
    ShiftedDigit(n, i, s);
  }

  /** Below bit 16, cutting d to its low limb does not change bit s. */
  lemma {:induction false} LowLimbBit(d: nat, s: nat)
    requires s < 16
    ensures Pow(2, s) > 0 && ((d % BASE) / Pow(2, s)) % 2 == (d / Pow(2, s)) % 2
  {
    PowPositive(2, s);
    var limb := d % BASE;
    var p, q := Pow(2, s), Pow(2, 15 - s);
    assert BASE == p * (2 * q) by {
      Base16();
      PowAdd(2, s, 16 - s);
      assert Pow(2, 16 - s) == 2 * q;
    }
    var h := d / BASE;
    DivMod(d, BASE);
    assert d == h * (p * (2 * q)) + limb;
    QuotientParity(h, p, q, limb);
  }

  /** Adding a multiple of 2 p to x does not change the parity of x / p. */
  lemma {:induction false} QuotientParity(h: int, p: int, q: int, x: int)
    requires p > 0 && 0 <= x
    ensures ((h * (p * (2 * q)) + x) / p) % 2 == (x / p) % 2
  {
    var y := h * (p * (2 * q)) + x;
    assert h * (p * (2 * q)) == (2 * (h * q)) * p by {
      MulAssociates(h, p, 2 * q);
      MulCommutes(h * p, 2 * q);
      MulAssociates(2 * q, h, p);
      MulAssociates(2, q, h);
      MulCommutes(q, h);
    }
    ModUnique(y, p, 2 * (h * q) + x / p, x % p);
    ModUnique(y / p, 2, h * q + (x / p) / 2, (x / p) % 2);
  }

  /** Shifting right by i limbs and then s bits is shifting by 16 i + s bits. */
  lemma {:induction false} ShiftedDigit(n: nat, i: nat, s: nat)
    ensures Pow(BASE, i) > 0 && Pow(2, s) > 0 && Pow(2, 16 * i + s) > 0
    ensures (n / Pow(BASE, i)) / Pow(2, s) == n / Pow(2, 16 * i + s)
  {
    PowPositive(BASE, i);
    PowPositive(2, s);
    PowPositive(2, 16 * i);
    BasePow(i);
    DivDiv(n, Pow(2, 16 * i), Pow(2, s));
    PowAdd(2, 16 * i, s);
  }

  /** One round of the loop: from r = a^q mod m, squaring and, for a 1 bit, multiplying gives a^(2q + bit) mod m. */
  lemma {:induction false} SquareMultiplyStep(A: nat, M: nat, q: nat, bit: int, next: nat, r: nat, t: nat)
    requires M > 0 && r == Pow(A, q) % M && (bit == 0 || bit == 1) && next == 2 * q + bit
    requires t == if bit == 1 then (((r * r) % M) * A) % M else (r * r) % M
    ensures t == Pow(A, next) % M
  {
    var pq := Pow(A, q);
    var s := (r * r) % M;
    PowAdd(A, q, q);
    assert Congruent(s, pq * pq, M) by {
      CongruentOfMod(pq, M);
      CongruentMul(r, r, pq, pq, M);
      CongruentOfMod(r * r, M);
      CongruentTrans(s, r * r, pq * pq, M);
    }
    if bit == 0 {
      CongruentModEq(s, pq * pq, M);
      DivSmall(s, M);
    } else {
      PowAdd(A, 2 * q, 1);
      assert Pow(A, 1) == A * Pow(A, 0);
      CongruentByMod(A, A, M);
      CongruentMul(s, A, pq * pq, A, M);
      CongruentOfMod(s * A, M);
      CongruentTrans(t, s * A, pq * pq * A, M);
      CongruentModEq(t, pq * pq * A, M);
      DivSmall(t, M);
    }
  }

  /** Reducing the base first does not change a power modulo m. */
  lemma {:induction false} PowOfResidue(x: nat, e: nat, M: nat)
    requires M > 0
    ensures Pow(x % M, e) % M == Pow(x, e) % M
  {
    CongruentOfMod(x, M);
    CongruentPow(x % M, x, e, M);
    CongruentModEq(Pow(x % M, e), Pow(x, e), M);
  }

  /** What modPow computes for an exponent sign eSign >= 0: the signed a, reduced modulo m, to the power e, modulo m. */
  function PowerMod(a: seq<Limb>, aSign: int, e: seq<Limb>, m: seq<Limb>): (r: nat)
    requires Val(m) > 0
    ensures r < Val(m)
  {
    Pow(Signed(a, aSign) % Val(m), Val(e)) % Val(m)
  }

  /**
   * modPow past its shortcuts (lines 176-190): a negative a, or one not
   * below m, is reduced with mod; a one-limb exponent goes to
   * modPowStandard; a negative exponent sign inverts the power with
   * modInverse.  The longer exponents of modPowMontgomery are not part of
   * this model.
   */
  method ModPowReduced(a: seq<Limb>, aSign: int, e: seq<Limb>, eSign: int, m: seq<Limb>) returns (res: Result<seq<Limb>>)
    requires Normalized(a) && (aSign == -1 || aSign == 0 || aSign == 1)
    requires Normalized(e) && |e| == 1 && Normalized(m) && |m| < MAX_LIMBS
    requires eSign < 0 && Val(m) > 0 ==> PowerMod(a, aSign, e, m) > 0
    ensures res.Err? <==> |m| == 0
    ensures res.Err? ==> res.error == DivisionByZero
    ensures res.Ok? ==> Val(m) > 0 && Normalized(res.value) && Val(res.value) < Val(m)
    ensures res.Ok? && eSign >= 0 ==> Val(res.value) == PowerMod(a, aSign, e, m)
    ensures res.Ok? && eSign < 0 ==>
      Val(res.value) == InverseLoop(Val(m), PowerMod(a, aSign, e, m), 0, 1, Val(m)) % Val(m)
    ensures res.Ok? && eSign < 0 && Val(m) % 2 == 1 ==>
      Congruent(PowerMod(a, aSign, e, m) * Val(res.value), Gcd(Val(m), PowerMod(a, aSign, e, m)), Val(m))
  {
    var aArray := a;
    var reduce := aSign < 0;
    if !reduce {
      var c := Compare(aArray, m);
      reduce := c >= 0;
    }
    if reduce {
      var reduced := Mod(aArray, aSign, m);
      if reduced.Err? {
        return Err(reduced.error);
      }
      aArray := reduced.value;
    } else {
      DivSmall(Val(a), Val(m));
    }
    var rArray := ModPowStandard(aArray, aSign, e, m);
    if rArray.Err? {
      return rArray;
    }
    if eSign < 0 {
      var inverse := ModInverse(rArray.value, 1, m);
      return Ok(inverse);
    }
    return rArray;
  }

  /**
   * modPow's dispatch as written (lines 163-191); the reductions it calls use
   * the corrected division, and a negative exponent sign goes through the
   * corrected ModInverse.  An empty exponent, or a magnitude
   * equal to [1], gives 1 modulo m, as [] for m = [1] and [1] otherwise; a
   * zero a with a nonnegative exponent sign gives 0; anything else takes
   * the reduced path.  The shortcut compares only the magnitude, so
   * a = -1 is treated as 1.
   */
  method ModPow(a: seq<Limb>, aSign: int, e: seq<Limb>, eSign: int, m: seq<Limb>) returns (res: Result<seq<Limb>>)
    requires Normalized(a) && (aSign == -1 || aSign == 0 || aSign == 1)
    requires Normalized(e) && |e| <= 1 && Normalized(m) && |m| < MAX_LIMBS
    requires eSign < 0 && |e| > 0 && a != [1] && Val(m) > 0 ==> PowerMod(a, aSign, e, m) > 0
    ensures |e| == 0 || a == [1] ==> res == Ok(if m == [1] then [] else [1])
    ensures |e| > 0 && a != [1] && |a| == 0 && eSign >= 0 ==> res == Ok([])
    ensures |e| > 0 && a != [1] && |a| > 0 ==> (res.Err? <==> |m| == 0)
    ensures res.Err? ==> res.error == DivisionByZero
    ensures res.Ok? ==> Normalized(res.value)
    ensures res.Ok? && |e| > 0 && eSign >= 0 && Val(m) > 0 && !(a == [1] && aSign == -1) ==>
      Val(res.value) == PowerMod(a, aSign, e, m)
    ensures res.Ok? && |e| > 0 && a != [1] && eSign < 0 && Val(m) > 0 ==>
      Val(res.value) == InverseLoop(Val(m), PowerMod(a, aSign, e, m), 0, 1, Val(m)) % Val(m)
  {
    ValSingle(1);
    var one := Compare(a, [1]);
    OneIff(a);
    if Val(m) > 0 {
      ShortcutValues(a, aSign, e, m);
    }
    if |e| == 0 || one == 0 {
      var mOne := Compare(m, [1]);
      OneIff(m);
      return if mOne == 0 then Ok([]) else Ok([1]);
    }
    if |a| == 0 && eSign >= 0 {
      return Ok([]);
    }
    res := ModPowReduced(a, aSign, e, eSign, m);
  }

  /**
   * modPow with the shortcut for [1] taken only for a nonnegative sign, so
   * that -1 goes the reduced way like every other negative a.
   */
  method ModPowCorrected(a: seq<Limb>, aSign: int, e: seq<Limb>, eSign: int, m: seq<Limb>) returns (res: Result<seq<Limb>>)
    requires Normalized(a) && (aSign == -1 || aSign == 0 || aSign == 1)
    requires Normalized(e) && |e| <= 1 && Normalized(m) && |m| < MAX_LIMBS
    requires eSign < 0 && |e| > 0 && !(a == [1] && aSign >= 0) && Val(m) > 0 ==> PowerMod(a, aSign, e, m) > 0
    ensures |e| == 0 || (a == [1] && aSign >= 0) ==> res == Ok(if m == [1] then [] else [1])
    ensures res.Err? ==> res.error == DivisionByZero && |m| == 0
    ensures res.Ok? ==> Normalized(res.value)
    ensures res.Ok? && eSign >= 0 && Val(m) > 0 ==> Val(res.value) == Pow(Signed(a, aSign) % Val(m), Val(e)) % Val(m)
  {
    ValSingle(1);
    var one := Compare(a, [1]);
    OneIff(a);
    if Val(m) > 0 {
      ShortcutValues(a, aSign, e, m);
    }
    if |e| == 0 || (one == 0 && aSign >= 0) {
      var mOne := Compare(m, [1]);
      OneIff(m);
      return if mOne == 0 then Ok([]) else Ok([1]);
    }
    if |a| == 0 && eSign >= 0 {
      return Ok([]);
    }
    res := ModPowReduced(a, aSign, e, eSign, m);
  }

  /** For a normalized s, the value 1 means the magnitude [1]. */
  lemma {:induction false} OneIff(s: seq<Limb>)
    requires Normalized(s)
    ensures Val(s) == 1 <==> s == [1]
  {
    ValSingle(1);
    if Val(s) == 1 {
      NormalizedUnique(s, [1]);
    }
  }

  /**
   * The shortcuts agree with the power: x^0 = 1, 1^e = 1 and 0^e = 0 for
   * e > 0, each modulo m, and 1 modulo m is 0 exactly for m = 1.
   */
  lemma {:induction false} ShortcutValues(a: seq<Limb>, aSign: int, e: seq<Limb>, m: seq<Limb>)
    requires Normalized(a) && Normalized(e) && Normalized(m) && Val(m) > 0
    ensures |e| == 0 ==> PowerMod(a, aSign, e, m) == if m == [1] then 0 else 1
    ensures a == [1] && aSign >= 0 ==> PowerMod(a, aSign, e, m) == if m == [1] then 0 else 1
    ensures |a| == 0 && |e| > 0 ==> PowerMod(a, aSign, e, m) == 0
  {
    OneIff(m);
    OneIff(a);
    if |e| > 0 {
      ValPositive(e);
    }
    PowerShortcuts(Signed(a, aSign), Val(e), Val(m));
  }

  /** x^0 = 1, 1^e = 1 and, for e > 0, 0^e = 0, each modulo M; 1 modulo M is 0 exactly for M = 1. */
  lemma {:induction false} PowerShortcuts(x: int, E: nat, M: nat)
    requires M > 0
    ensures Pow(x % M, 0) % M == if M == 1 then 0 else 1
    ensures x == 1 ==> Pow(x % M, E) % M == if M == 1 then 0 else 1
    ensures x == 0 && E > 0 ==> Pow(x % M, E) % M == 0
  {
    if M > 1 {
      DivSmall(1, M);
    }
    if x == 1 {
      PowOfOne(E);
    }
    if x == 0 && E > 0 {
      PowOfZero(E);
    }
  }

  /**
   * The shortcut for the magnitude [1] ignores the sign: for a = -1, e = 1
   * and m = 5 modPow returns 1, while (-1)^1 modulo 5 is 4.
   */
  lemma ModPowShortcutIgnoresSign()
    ensures PowerMod([1], -1, [1], [5]) == 4
  {
    ValSingle(1);
    ValSingle(5);
    assert Signed([1], -1) == -1;
    ModUnique(-1, 5, -1, 4);
    assert Pow(4, 1) == 4 * Pow(4, 0);
    DivSmall(4, 5);
  }
}
