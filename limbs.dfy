/**
 * The magnitude representation: a sequence of unsigned 16-bit limbs, least
 * significant first.  A typed 16-bit cell holds its value modulo 2^16, so a
 * limb is modelled by its unsigned reading 0..65535; reads past the end of a
 * typed array yield undefined, which every masking operation turns into 0.
 */
module Limbs {
  import opened Numbers

  const BASE: nat := 0x1_0000
  const MASK: nat := 0xFFFF

  type Limb = x: int | 0 <= x < 0x1_0000

  /** The number a limb sequence denotes. */
  function Val(s: seq<Limb>): nat
  {
    if |s| == 0 then 0 else s[0] + BASE * Val(s[1..])
  }

  /** A masked read: 0 past either end. */
  function Get(s: seq<Limb>, i: int): Limb
  {
    if 0 <= i < |s| then s[i] else 0
  }

  /** No most-significant zero limb; zero is the empty sequence. */
  predicate Normalized(s: seq<Limb>)
  {
    |s| == 0 || s[|s| - 1] != 0
  }

  function Zeros(n: nat): (r: seq<Limb>)
    ensures |r| == n && forall i :: 0 <= i < n ==> r[i] == 0
  {
    seq(n, _ => 0)
  }

  /** The longest prefix without most-significant zero limbs. */
  function Trim(s: seq<Limb>): (r: seq<Limb>)
    ensures Normalized(r) && |r| <= |s| && r == s[..|r|]
    ensures forall i :: |r| <= i < |s| ==> s[i] == 0
  {
    if |s| > 0 && s[|s| - 1] == 0 then Trim(s[..|s| - 1]) else s
  }

  lemma {:induction false} Base16()
    ensures Pow(2, 16) == BASE
  {
    assert Pow(2, 4) == 16;
    PowAdd(2, 4, 4);
    PowAdd(2, 8, 8);
  }

  /** A number of limbs is sixteen times as many bits. */
  lemma {:induction false} BasePow(k: nat)
    ensures Pow(BASE, k) == Pow(2, 16 * k)
  {
    Base16();
    PowMul(2, 16, k);
  }

  lemma {:induction false} ValAppend(s: seq<Limb>, t: seq<Limb>)
    ensures Val(s + t) == Val(s) + Pow(BASE, |s|) * Val(t)
  {
    if |s| > 0 {
      assert (s + t)[1..] == s[1..] + t;
      ValAppend(s[1..], t);
      var p := Pow(BASE, |s| - 1);
      calc {
        Val(s + t);
        s[0] + BASE * Val(s[1..] + t);
        s[0] + BASE * (Val(s[1..]) + p * Val(t));
        { MulDistributes(BASE, Val(s[1..]), p * Val(t)); }
        s[0] + BASE * Val(s[1..]) + BASE * (p * Val(t));
        { MulAssociates(BASE, p, Val(t)); }
        Val(s) + (BASE * p) * Val(t);
      }
    } else {
      assert s + t == t;
    }
  }

  lemma {:induction false} ValSplit(s: seq<Limb>, i: nat)
    requires i <= |s|
    ensures Val(s) == Val(s[..i]) + Pow(BASE, i) * Val(s[i..])
  {
    assert s == s[..i] + s[i..];
    ValAppend(s[..i], s[i..]);
  }

  lemma {:induction false} ValSingle(x: Limb)
    ensures Val([x]) == x
  {
    assert [x][1..] == [];
  }

  lemma {:induction false} ValLast(s: seq<Limb>)
    requires |s| > 0
    ensures Val(s) == Val(s[..|s| - 1]) + Pow(BASE, |s| - 1) * s[|s| - 1]
  {
    ValSplit(s, |s| - 1);
    assert s[|s| - 1..] == [s[|s| - 1]];
    ValSingle(s[|s| - 1]);
  }

  lemma {:induction false} ValBound(s: seq<Limb>)
    ensures Val(s) < Pow(BASE, |s|)
  {
    if |s| > 0 {
      ValBound(s[1..]);
      assert Val(s[1..]) <= Pow(BASE, |s| - 1) - 1;
      assert BASE * Val(s[1..]) <= BASE * (Pow(BASE, |s| - 1) - 1);
    }
  }

  lemma {:induction false} ValLower(s: seq<Limb>)
    requires Normalized(s) && |s| > 0
    ensures Pow(BASE, |s| - 1) <= Val(s)
  {
    ValLast(s);
    PowPositive(BASE, |s| - 1);
    MulAtLeast(s[|s| - 1], Pow(BASE, |s| - 1));
  }

  lemma {:induction false} ValPositive(s: seq<Limb>)
    requires Normalized(s) && |s| > 0
    ensures Val(s) > 0
  {
    ValLower(s);
    PowPositive(BASE, |s| - 1);
  }

  /** Only zero limbs denote zero. */
  lemma {:induction false} ValZero(s: seq<Limb>)
    ensures Val(s) == 0 <==> forall i :: 0 <= i < |s| ==> s[i] == 0
  {
    if |s| > 0 {
      ValZero(s[1..]);
      if Val(s) == 0 {
        assert s[0] == 0 && Val(s[1..]) == 0;
        forall i | 0 <= i < |s| ensures s[i] == 0 {
          if i > 0 { assert s[i] == s[1..][i - 1]; }
        }
      } else {
        if forall i :: 0 <= i < |s| ==> s[i] == 0 {
          forall i | 0 <= i < |s| - 1 ensures s[1..][i] == 0 {
            assert s[1..][i] == s[i + 1];
          }
        }
      }
    }
  }

  lemma {:induction false} ValZeros(n: nat)
    ensures Val(Zeros(n)) == 0
  {
    ValZero(Zeros(n));
  }

  /** Appending zero limbs keeps the value. */
  lemma {:induction false} ValPadded(s: seq<Limb>, n: nat)
    ensures Val(s + Zeros(n)) == Val(s)
  {
    ValAppend(s, Zeros(n));
    ValZeros(n);
  }

  lemma {:induction false} TrimVal(s: seq<Limb>)
    ensures Val(Trim(s)) == Val(s)
  {
    if |s| > 0 && s[|s| - 1] == 0 {
      TrimVal(s[..|s| - 1]);
      ValLast(s);
    }
  }

  lemma {:induction false} TrimNormalized(s: seq<Limb>)
    requires Normalized(s)
    ensures Trim(s) == s
  {
  }

  lemma {:induction false} ValModBase(s: seq<Limb>)
    ensures Val(s) % BASE == Get(s, 0)
    ensures |s| > 0 ==> Val(s) / BASE == Val(s[1..])
  {
    if |s| > 0 {
      ModUnique(Val(s), BASE, Val(s[1..]), s[0]);
    }
  }

  /** The low k limbs are the value modulo BASE^k, the rest its quotient. */
  lemma {:induction false} ValDivMod(s: seq<Limb>, k: nat)
    requires k <= |s|
    ensures Pow(BASE, k) > 0
    ensures Val(s) % Pow(BASE, k) == Val(s[..k])
    ensures Val(s) / Pow(BASE, k) == Val(s[k..])
  {
    var p := Pow(BASE, k);
    PowPositive(BASE, k);
    ValSplit(s, k);
    var lo, hi := Val(s[..k]), Val(s[k..]);
    ValBound(s[..k]);
    assert |s[..k]| == k;
    assert lo < p;
    assert Val(s) == hi * p + lo;
    ModUnique(Val(s), p, Val(s[k..]), Val(s[..k]));
  }

  /** Limb sequences of one length denote one number each. */
  lemma {:induction false} SameLengthUnique(s: seq<Limb>, t: seq<Limb>)
    requires |s| == |t| && Val(s) == Val(t)
    ensures s == t
  {
    if |s| > 0 {
      ValModBase(s);
      ValModBase(t);
      SameLengthUnique(s[1..], t[1..]);
      assert s == [s[0]] + s[1..] && t == [t[0]] + t[1..];
    }
  }

  /** A normalized sequence is the only normalized one with its value. */
  lemma {:induction false} NormalizedUnique(s: seq<Limb>, t: seq<Limb>)
    requires Normalized(s) && Normalized(t) && Val(s) == Val(t)
    ensures s == t
  {
    if |s| == 0 || |t| == 0 {
      if |s| > 0 { ValPositive(s); }
      if |t| > 0 { ValPositive(t); }
    } else {
      ValModBase(s);
      ValModBase(t);
      assert s[0] == t[0];
      assert Normalized(s[1..]) && Normalized(t[1..]);
      NormalizedUnique(s[1..], t[1..]);
      assert s == [s[0]] + s[1..];
      assert t == [t[0]] + t[1..];
    }
  }

  /** The limbs of n below a given length: the inverse of Val. */
  function FromNat(n: nat, len: nat): (r: seq<Limb>)
    ensures |r| == len
  {
    if len == 0 then [] else [n % BASE] + FromNat(n / BASE, len - 1)
  }

  lemma {:induction false} FromNatVal(n: nat, len: nat)
    ensures Pow(BASE, len) > 0
    ensures Val(FromNat(n, len)) == n % Pow(BASE, len)
  {
    PowPositive(BASE, len);
    if len > 0 {
      var r := FromNat(n, len);
      FromNatVal(n / BASE, len - 1);
      assert r[1..] == FromNat(n / BASE, len - 1);
      ModOfProduct(n, BASE, Pow(BASE, len - 1));
    }
  }


  /** The normalized representation of n. */
  function ToLimbs(n: nat): (r: seq<Limb>)
    ensures Normalized(r) && Val(r) == n
    decreases n
  {
    if n == 0 then [] else
      var r := [n % BASE] + ToLimbs(n / BASE);
      assert r[1..] == ToLimbs(n / BASE);
      r
  }

  lemma {:induction false} ValUpdate(s: seq<Limb>, i: nat, x: Limb)
    requires i < |s|
    ensures Val(s[i := x]) + Pow(BASE, i) * s[i] == Val(s) + Pow(BASE, i) * x
  {
    var t := s[i := x];
    ValSplit(s, i);
    ValSplit(t, i);
    assert t[..i] == s[..i];
    assert s[i..][1..] == s[i + 1..];
    assert t[i..][1..] == s[i + 1..];
    UpdateArith(Val(s[..i]), Pow(BASE, i), s[i], x, Val(s[i + 1..]), Val(s), Val(t));
  }

  /** Writing x over a zero limb at i adds x at weight BASE^i. */
  lemma {:induction false} ValWriteZero(s: seq<Limb>, i: nat, x: Limb)
    requires i < |s| && s[i] == 0
    ensures Val(s[i := x]) == Val(s) + x * Pow(BASE, i)
  {
    ValUpdate(s, i, x);
  }

  lemma {:induction false} UpdateArith(lo: int, p: int, a: int, x: int, r: int, vs: int, vt: int)
    requires vs == lo + p * (a + BASE * r) && vt == lo + p * (x + BASE * r)
    ensures vt + p * a == vs + p * x
  {
    MulDistributes(p, a, BASE * r);
    MulDistributes(p, x, BASE * r);
  }


  /** The value and normal form of a sequence known to be ToLimbs(n). */
  lemma {:induction false} ToLimbsVal(r: seq<Limb>, n: nat)
    requires r == ToLimbs(n)
    ensures Val(r) == n && Normalized(r)
  {
  }

  /** The normalized sequence of a number is its ToLimbs. */
  lemma {:induction false} IsToLimbs(r: seq<Limb>, n: nat)
    requires Normalized(r) && Val(r) == n
    ensures r == ToLimbs(n)
  {
    NormalizedUnique(r, ToLimbs(n));
  }

  /**
   * One ripple step: writing x at i where s[i] + addend + carry == x + BASE * carry'
   * moves addend + carry at weight BASE^i into carry' at weight BASE^(i+1).
   */
  lemma {:induction false} CarryStep(s: seq<Limb>, i: nat, x: Limb, addend: int, carry: int, carry': int)
    requires i < |s| && s[i] + addend + carry == x + BASE * carry'
    ensures Val(s[i := x]) + carry' * Pow(BASE, i + 1) == Val(s) + carry * Pow(BASE, i) + Pow(BASE, i) * addend
  {
    ValUpdate(s, i, x);
    CarryArith(Val(s[i := x]), Val(s), Pow(BASE, i), x, s[i], addend, carry, carry');
  }

  /** CarryStep for a subtracted limb. */
  lemma {:induction false} BorrowStep(s: seq<Limb>, i: nat, x: Limb, subtrahend: int, carry: int, carry': int)
    requires i < |s| && s[i] - subtrahend + carry == x + BASE * carry'
    ensures Val(s[i := x]) + carry' * Pow(BASE, i + 1) == Val(s) + carry * Pow(BASE, i) - Pow(BASE, i) * subtrahend
  {
    CarryStep(s, i, x, -subtrahend, carry, carry');
    MulNegate(Pow(BASE, i), subtrahend);
  }

  lemma {:induction false} MulNegate(p: int, y: int)
    ensures p * -y == -(p * y)
  {
  }

  lemma {:induction false} CarryArith(vt: int, vs: int, p: int, x: int, si: int, addend: int, c: int, c': int)
    requires vt + p * si == vs + p * x && si + addend + c == x + BASE * c'
    ensures vt + c' * (BASE * p) == vs + c * p + p * addend
  {
    calc {
      vt + c' * (BASE * p);
      { MulAssociates(c', BASE, p); }
      vs + p * x - p * si + (c' * BASE) * p;
      { MulDistributes(p, x, c' * BASE); }
      vs + p * (x + c' * BASE) - p * si;
      vs + p * (si + addend + c) - p * si;
      { MulDistributes(p, si, addend + c); MulDistributes(p, addend, c); }
      vs + c * p + p * addend;
    }
  }

  /** The value of a prefix grows by one limb at a time. */
  lemma {:induction false} ValPrefixStep(s: seq<Limb>, i: nat)
    requires i < |s|
    ensures Val(s[..i + 1]) == Val(s[..i]) + Pow(BASE, i) * s[i]
  {
    assert s[..i + 1] == s[..i] + [s[i]];
    ValExtend(s[..i], s[i]);
  }

  /** A copy of s followed by zero cells denotes the same number. */
  lemma {:induction false} ValOfCopy(s: seq<Limb>, t: seq<Limb>)
    requires |s| <= |t| && forall k :: 0 <= k < |t| ==> t[k] == (if k < |s| then Get(s, k) else 0)
    ensures t == s + Zeros(|t| - |s|) && Val(t) == Val(s)
  {
    assert t == s + Zeros(|t| - |s|);
    ValPadded(s, |t| - |s|);
  }

  /** A positive carry at weight BASE^i below BASE^n sits below limb n. */
  lemma {:induction false} CarryInRange(v: nat, carry: int, i: nat, n: nat)
    requires carry >= 1 && v + carry * Pow(BASE, i) < Pow(BASE, n)
    ensures i < n
  {
    if i >= n {
      PowMonotone(BASE, n, i);
      PowPositive(BASE, i);
      MulAtLeast(carry, Pow(BASE, i));
    }
  }

  /** A single limb weighs BASE^k in the value. */
  lemma {:induction false} LimbBelowVal(s: seq<Limb>, k: nat)
    requires k < |s|
    ensures Pow(BASE, k) * s[k] <= Val(s)
  {
    ValSplit(s, k);
    assert Val(s[k..]) == s[k] + BASE * Val(s[k + 1..]) by {
      assert s[k..][1..] == s[k + 1..];
    }
    PowPositive(BASE, k);
    MulLe(s[k], Val(s[k..]), Pow(BASE, k));
  }

  /** A number no larger than Val(a) has only zero limbs at index |a| and above. */
  lemma {:induction false} HighLimbsZero(a: seq<Limb>, b: seq<Limb>)
    requires Val(b) <= Val(a)
    ensures forall k :: |a| <= k < |b| ==> b[k] == 0
  {
    forall k | |a| <= k < |b|
      ensures b[k] == 0
    {
      if b[k] != 0 {
        LimbBelowVal(b, k);
        ValBound(a);
        PowMonotone(BASE, |a|, k);
        MulAtLeast(b[k], Pow(BASE, k));
      }
    }
  }

  /** A prefix denotes at most the whole. */
  lemma {:induction false} ValPrefixLe(s: seq<Limb>, i: nat)
    requires i <= |s|
    ensures Val(s[..i]) <= Val(s)
  {
    ValSplit(s, i);
    MulNonNegative(Pow(BASE, i), Val(s[i..]));
  }

  /** Writing one limb past the current prefix extends the value. */
  lemma {:induction false} ValExtend(s: seq<Limb>, x: Limb)
    ensures Val(s + [x]) == Val(s) + Pow(BASE, |s|) * x
  {
    ValAppend(s, [x]);
    ValSingle(x);
  }

  /** The bit length of a sequence whose top limb is set. */
  lemma {:induction false} BitLenTop(s: seq<Limb>)
    requires |s| > 0 && s[|s| - 1] != 0
    ensures BitLen(Val(s)) == 16 * (|s| - 1) + BitLen(s[|s| - 1])
  {
    ValLast(s);
    ValBound(s[..|s| - 1]);
    BasePow(|s| - 1);
    BitLenShifted(Val(s[..|s| - 1]), s[|s| - 1], 16 * (|s| - 1));
  }

  /** Zero limbs below the first set limb i contribute 16 trailing zeros each. */
  lemma {:induction false} TrailingZerosVal(s: seq<Limb>, i: nat)
    requires i < |s| && s[i] != 0 && forall k :: 0 <= k < i ==> s[k] == 0
    ensures Val(s) > 0 && TrailingZeros(Val(s)) == 16 * i + TrailingZeros(s[i])
  {
    ValSplit(s, i);
    ValZero(s[..i]);
    BasePow(i);
    BasePow(1);
    var rest := Val(s[i + 1..]);
    assert s[i..] == [s[i]] + s[i + 1..];
    assert Val(s[i..]) == s[i] + BASE * rest;
    TrailingZerosLow(s[i], rest, 16);
    TrailingZerosShifted(Val(s[i..]), 16 * i);
  }

  /** Parity is decided by the lowest limb. */
  lemma {:induction false} ValParity(s: seq<Limb>)
    ensures Val(s) % 2 == Get(s, 0) % 2
  {
    if |s| > 0 {
      var h := Val(s[1..]);
      assert Val(s) == s[0] + 2 * (0x8000 * h);
      ModUnique(Val(s), 2, s[0] / 2 + 0x8000 * h, s[0] % 2);
    }
  }

  /** Between equal-length sequences the highest differing limb decides. */
  lemma {:induction false} ValCompareAt(a: seq<Limb>, b: seq<Limb>, i: nat)
    requires |a| == |b| && i < |a| && a[i] > b[i]
    requires forall k :: i < k < |a| ==> a[k] == b[k]
    ensures Val(a) > Val(b)
  {
    assert a[i + 1..] == b[i + 1..];
    ValSplit(a, i);
    ValSplit(b, i);
    assert a[i..][1..] == a[i + 1..];
    assert b[i..][1..] == b[i + 1..];
    ValBound(b[..i]);
    assert |b[..i]| == i;
    CompareArith(Val(a[..i]), Val(b[..i]), Pow(BASE, i), a[i], b[i], Val(a[i + 1..]));
  }

  lemma {:induction false} CompareArith(la: int, lb: int, p: int, x: int, y: int, h: int)
    requires 0 <= la && 0 <= lb < p && x > y
    ensures la + p * (x + BASE * h) > lb + p * (y + BASE * h)
  {
    MulDistributes(p, x, BASE * h);
    MulDistributes(p, y, BASE * h);
    MulLe(y + 1, x, p);
    MulDistributes(p, y, 1);
  }


  /** Zero limbs at the top do not change the value. */
  lemma {:induction false} ValZeroTail(s: seq<Limb>, i: nat)
    requires i <= |s| && forall k :: i <= k < |s| ==> s[k] == 0
    ensures Val(s) == Val(s[..i])
  {
    ValSplit(s, i);
    ValZero(s[i..]);
  }

  /** Of two normalized sequences the longer one is larger. */
  lemma {:induction false} NormalizedLonger(a: seq<Limb>, b: seq<Limb>)
    requires Normalized(a) && |a| > |b|
    ensures Val(a) > Val(b)
  {
    ValLower(a);
    ValBound(b);
    PowMonotone(BASE, |b|, |a| - 1);
  }

  /** The k-th base-65536 digit of n. */
  function Digit(n: nat, k: nat): Limb
  {
    PowPositive(BASE, k);
    (n / Pow(BASE, k)) % BASE
  }

  /** The digits of a sequence's value are its limbs (0 above its length). */
  lemma {:induction false} DigitOfVal(s: seq<Limb>, k: nat)
    ensures Digit(Val(s), k) == Get(s, k)
  {
    PowPositive(BASE, k);
    if k < |s| {
      ValDivMod(s, k);
      ValModBase(s[k..]);
    } else {
      ValBound(s);
      PowMonotone(BASE, |s|, k);
      DivSmall(Val(s), Pow(BASE, k));
    }
  }

  lemma {:induction false} FromNatDigits(n: nat, len: nat)
    ensures forall k :: 0 <= k < len ==> FromNat(n, len)[k] == Digit(n, k)
  {
    if len > 0 {
      FromNatDigits(n / BASE, len - 1);
      forall k | 0 <= k < len
        ensures FromNat(n, len)[k] == Digit(n, k)
      {
        if k > 0 {
          assert FromNat(n, len)[k] == FromNat(n / BASE, len - 1)[k - 1];
          PowPositive(BASE, k - 1);
          DivDiv(n, BASE, Pow(BASE, k - 1));
        }
      }
    }
  }

  /** A sequence is determined by its length and the digits it agrees with. */
  lemma {:induction false} DigitsFromNat(t: seq<Limb>, n: nat)
    requires forall k :: 0 <= k < |t| ==> t[k] == Digit(n, k)
    ensures t == FromNat(n, |t|)
  {
    FromNatDigits(n, |t|);
  }

  lemma {:induction false} FromNatExact(n: nat, len: nat)
    requires n < Pow(BASE, len)
    ensures Val(FromNat(n, len)) == n
  {
    FromNatVal(n, len);
    DivSmall(n, Pow(BASE, len));
  }

  /** The normalized limbs of n are its digits below its limb length. */
  lemma {:induction false} ToLimbsLength(n: nat)
    ensures |ToLimbs(n)| == (BitLen(n) + 15) / 16
    ensures ToLimbs(n) == FromNat(n, |ToLimbs(n)|)
  {
    var l := ToLimbs(n);
    forall k | 0 <= k < |l| ensures l[k] == Digit(n, k) {
      DigitOfVal(l, k);
    }
    DigitsFromNat(l, n);
    if |l| > 0 {
      BitLenTop(l);
      BitLenBounds(l[|l| - 1]);
      BitLenBelowIff(l[|l| - 1], 16);
      Base16();
    }
  }

  /** FromNat at exactly the bit-derived length is the normalized form. */
  lemma {:induction false} FromNatIsToLimbs(n: nat, len: nat)
    requires len == (BitLen(n) + 15) / 16
    ensures FromNat(n, len) == ToLimbs(n)
  {
    ToLimbsLength(n);
  }

  /** A value below BASE^m padded to a longer length gains zero limbs. */
  lemma {:induction false} FromNatPadded(n: nat, m: nat, pad: nat)
    requires n < Pow(BASE, m)
    ensures FromNat(n, m + pad) == FromNat(n, m) + Zeros(pad)
  {
    var t := FromNat(n, m) + Zeros(pad);
    FromNatDigits(n, m);
    forall k | 0 <= k < |t| ensures t[k] == Digit(n, k) {
      if k >= m {
        PowMonotone(BASE, m, k);
        DivSmall(n, Pow(BASE, k));
      }
    }
    DigitsFromNat(t, n);
  }

  lemma {:induction false} FromNatZero(len: nat)
    ensures FromNat(0, len) == Zeros(len)
  {
    FromNatDigits(0, len);
    forall k | 0 <= k < len ensures FromNat(0, len)[k] == 0 {
      PowPositive(BASE, k);
    }
  }

  /** n fits in len limbs exactly when it has at most 16 len bits. */
  lemma {:induction false} FitsLimbs(n: nat, len: nat)
    ensures n < Pow(BASE, len) <==> BitLen(n) <= 16 * len
  {
    BasePow(len);
    BitLenBelowIff(n, 16 * len);
  }
}
