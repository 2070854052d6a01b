/**
 * Division of magnitudes (source file arithmetic.js): single-limb long
 * division, Knuth's Algorithm D (The Art of Computer Programming, volume 2,
 * section 4.3.1) for longer divisors, and the dispatcher `divide`.
 */
module Division {
  import opened Numbers
  import opened Limbs
  import opened Results
  import opened Util
  import opened Bitwise
  import opened Arithmetic

  /* ---------------------------------------------------------------------
   * divideBy1n: long division by a single nonzero limb, most significant
   * limb first.  The remainder never exceeds the divisor, so every digit
   * quotient fits in a limb.
   * ------------------------------------------------------------------- */

  method DivideBy1n(n: seq<Limb>, nLen: nat, d: seq<Limb>) returns (q: seq<Limb>, r: seq<Limb>)
    requires nLen == |n| && nLen > 0 && |d| == 1 && d[0] != 0
    ensures Val(q) * d[0] + Val(r) == Val(n) && Val(r) < d[0]
    ensures Normalized(r)
    ensures nLen > 1 ==> Normalized(q)
    ensures nLen == 1 ==> q == [n[0] / d[0]]
  {
    if nLen == 1 {
      var quot := n[0] / d[0];
      var rem := n[0] % d[0];
      q := [quot];
      r := if rem == 0 then [] else [rem];
      ValSingle(quot);
      ValSingle(rem);
      assert n == [n[0]];
      ValSingle(n[0]);
      assert Val(r) == rem && Val(n) == n[0];
      return;
    }
    var dInt32: nat := d[0];
    var shiftNum := IntLeadingZeroes(dInt32);
    var qArray, rem := LongDivide(n, nLen, dInt32);
    ghost var vq := Val(qArray[..]);
    if shiftNum > 0 {
      DivSmall(rem, dInt32);
      rem := rem % dInt32;
    }
    q := TrimLeadingZeroes(qArray[..]);
    r := if rem == 0 then [] else [rem];
    ValSingle(rem);
    assert Val(r) == rem && Val(q) == vq;
  }

  /**
   * The loop of divideBy1n: the top limb first, then one limb at a time
   * with the running remainder as the high half of a 32-bit dividend.
   */
  method LongDivide(n: seq<Limb>, nLen: nat, dInt32: nat) returns (qArray: array<Limb>, rem: nat)
    requires nLen == |n| && nLen > 1 && 0 < dInt32 < BASE
    ensures fresh(qArray) && qArray.Length == nLen
    ensures Val(qArray[..]) * dInt32 + rem == Val(n) && rem < dInt32
  {
    qArray := new Limb[nLen](_ => 0);
    rem := n[nLen - 1];
    if rem >= dInt32 {
      qArray[nLen - 1] := (rem / dInt32) % BASE;
      rem := (rem % dInt32) % BASE;
    }
    TopDigit(qArray[..], n, dInt32, rem);
    var nIndex: int := nLen - 2;
    while nIndex >= 0
      invariant -1 <= nIndex <= nLen - 2
      invariant rem < dInt32
      invariant forall k :: 0 <= k <= nIndex ==> qArray[k] == 0
      invariant Val(qArray[nIndex + 1..]) * dInt32 + rem == Val(n[nIndex + 1..])
    {
      var nVal := rem * BASE + n[nIndex];
      ghost var qs, rem0 := qArray[..], rem;
      qArray[nIndex] := (nVal / dInt32) % BASE;
      rem := (nVal % dInt32) % BASE;
      LongDivUpdate(qs, qArray[..], n, nIndex, rem0, dInt32, rem);
      nIndex := nIndex - 1;
    }
    assert qArray[..][0..] == qArray[..] && qArray[0..] == qArray[..];
    assert n[0..] == n;
  }

  /** The most significant limb on its own: its quotient digit and remainder. */
  lemma {:induction false} TopDigit(qs: seq<Limb>, n: seq<Limb>, dv: nat, rem: nat)
    requires |qs| == |n| > 0 && 0 < dv
    requires n[|n| - 1] >= dv ==> qs[|n| - 1] == (n[|n| - 1] / dv) % BASE && rem == (n[|n| - 1] % dv) % BASE
    requires n[|n| - 1] < dv ==> qs[|n| - 1] == 0 && rem == n[|n| - 1]
    ensures rem < dv && Val(qs[|n| - 1..]) * dv + rem == Val(n[|n| - 1..])
  {
    var i := |n| - 1;
    assert qs[i..] == [qs[i]];
    assert n[i..] == [n[i]];
    ValSingle(qs[i]);
    ValSingle(n[i]);
    var x: nat := n[i];
    DivBounds(x, dv);
    if x >= dv {
      DivSmall(x / dv, BASE);
      DivSmall(x % dv, BASE);
    }
  }

  /** One step of long division: the next limb joins the running remainder. */
  lemma {:induction false} LongDivStep(qs: seq<Limb>, n: seq<Limb>, i: nat, rem: nat, dv: nat, x: Limb, m: nat)
    requires i < |qs| == |n| && rem * BASE + n[i] == x * dv + m
    requires Val(qs[i + 1..]) * dv + rem == Val(n[i + 1..])
    ensures Val(qs[i := x][i..]) * dv + m == Val(n[i..])
  {
    var qs' := qs[i := x];
    assert qs'[i..] == [x] + qs[i + 1..];
    assert n[i..] == [n[i]] + n[i + 1..];
    var vq := Val(qs[i + 1..]);
    assert Val(qs'[i..]) == x + BASE * vq;
    assert Val(n[i..]) == n[i] + BASE * Val(n[i + 1..]);
    LongDivArith(x, m, dv, vq, n[i], rem, rem * BASE + n[i]);
  }

  /** One step of the descending loop of divideBy1n keeps its invariant one limb further down. */
  lemma {:induction false} LongDivUpdate(qs: seq<Limb>, q1: seq<Limb>, n: seq<Limb>, i: nat, rem: nat, dv: nat, rem1: nat)
    requires i < |qs| == |n| && 0 < dv < BASE && rem < dv
    requires Val(qs[i + 1..]) * dv + rem == Val(n[i + 1..])
    requires forall k :: 0 <= k <= i ==> qs[k] == 0
    requires q1 == qs[i := ((rem * BASE + n[i]) / dv) % BASE]
    requires rem1 == ((rem * BASE + n[i]) % dv) % BASE
    ensures rem1 < dv && Val(q1[i..]) * dv + rem1 == Val(n[i..])
    ensures forall k :: 0 <= k < i ==> q1[k] == 0
  {
    var nVal := rem * BASE + n[i];
    DigitFits(rem, n[i], dv);
    DivMod(nVal, dv);
    var x: Limb := nVal / dv;
    LongDivStep(qs, n, i, rem, dv, x, nVal % dv);
  }

  /** A remainder below the divisor followed by one limb divides to a digit that fits in a limb. */
  lemma {:induction false} DigitFits(rem: nat, ni: nat, dv: nat)
    requires rem < dv <= BASE && ni < BASE
    ensures (rem * BASE + ni) / dv < BASE
    ensures ((rem * BASE + ni) / dv) % BASE == (rem * BASE + ni) / dv
    ensures ((rem * BASE + ni) % dv) % BASE == (rem * BASE + ni) % dv
  {
    var nVal := rem * BASE + ni;
    MulLe(rem + 1, dv, BASE);
    DigitBelowBase(nVal, dv);
    DivMod(nVal, dv);
    DivSmall(nVal / dv, BASE);
    DivSmall(nVal % dv, BASE);
  }

  lemma {:induction false} LongDivArith(x: int, m: int, dv: int, vq: int, ni: int, rem: int, nVal: int)
    requires nVal == rem * BASE + ni && nVal == x * dv + m
    ensures (x + BASE * vq) * dv + m == ni + BASE * (vq * dv + rem)
  {
    calc {
      (x + BASE * vq) * dv + m;
      { MulDistributes(dv, x, BASE * vq); }
      x * dv + (BASE * vq) * dv + m;
      nVal + (BASE * vq) * dv;
      { MulAssociates(BASE, vq, dv); }
      rem * BASE + ni + BASE * (vq * dv);
      { MulDistributes(BASE, vq * dv, rem); }
      ni + BASE * (vq * dv + rem);
    }
  }

  /* ---------------------------------------------------------------------
   * divideKnuth: the multi-limb quotient digit estimate.
   * ------------------------------------------------------------------- */

  /**
   * The digit estimate from the three top limbs of the window and the two
   * top limbs of the normalized divisor, clamped to the largest limb.
   */
  function EstimateDigit(aVal: nat, bVal: nat): Limb
    requires bVal > 0
  {
    if aVal / bVal < BASE then aVal / bVal else MASK
  }

  /**
   * The estimate as arithmetic.js computes it, (aVal / bVal) & 0xFFFF: a
   * quotient of 65536 wraps to 0.
   */
  function EstimateAsWritten(aVal: nat, bVal: nat): Limb
    requires bVal > 0
  {
    (aVal / bVal) % BASE
  }

  /**
   * With the divisor normalized (its top limb at least 0x8000, so its two
   * top limbs at least 2^31) and the window below 65536 times the divisor,
   * the clamped estimate is the true digit or one more.
   */
  lemma {:induction false} EstimateBracket(w: nat, vb: nat, wh: nat, bh: nat, pk: nat, wl: nat, bl: nat)
    requires pk > 0 && w == wl + pk * wh && wl < pk
    requires vb == bl + pk * bh && bl < pk && bh >= 0x8000_0000
    requires w < BASE * vb
    ensures w / vb < BASE
    ensures EstimateDigit(wh, bh) == w / vb || EstimateDigit(wh, bh) == w / vb + 1
  {
    var q := w / vb;
    var qh := wh / bh;
    DigitBelowBase(w, vb);
    EstimateNotBelow(w, vb, wh, bh, pk, wl, bl);
    EstimateAtMostBase(w, vb, wh, bh, pk, wl, bl);
    if qh >= 1 {
      EstimateExcess(w, vb, wh, bh, pk, wl, bl, qh);
      DivLower(w, vb, qh - 1);
    }
  }

  /** k <= x / y whenever k * y <= x. */
  lemma {:induction false} DivLower(x: nat, y: nat, k: nat)
    requires y > 0 && k * y <= x
    ensures k <= x / y
  {
    var q := x / y;
    assert x < (q + 1) * y;
    if k > q {
      MulLe(q + 1, k, y);
      assert false;
    }
  }

  /** The digit of a window below 65536 times the divisor fits in a limb. */
  lemma {:induction false} DigitBelowBase(w: nat, vb: nat)
    requires vb > 0 && w < BASE * vb
    ensures w / vb < BASE
  {
    var q := w / vb;
    assert q * vb <= w;
    if q >= BASE {
      MulLe(BASE, q, vb);
      assert false;
    }
  }

  /** The estimate from the top limbs never falls below the digit. */
  lemma {:induction false} EstimateNotBelow(w: nat, vb: nat, wh: nat, bh: nat, pk: nat, wl: nat, bl: nat)
    requires pk > 0 && w == wl + pk * wh && wl < pk
    requires vb == bl + pk * bh && bh > 0
    ensures w / vb <= wh / bh
  {
    var q := w / vb;
    var c := q * bh;
    assert q * vb <= w;
    MulLe(pk * bh, vb, q);
    MulAssociates(q, pk, bh);
    MulAssociates(q, bh, pk);
    assert c * pk < (wh + 1) * pk;
    if c > wh {
      MulLe(wh + 1, c, pk);
      assert false;
    }
    DivLower(wh, bh, q);
  }

  /** The estimate from the top limbs is at most 65536. */
  lemma {:induction false} EstimateAtMostBase(w: nat, vb: nat, wh: nat, bh: nat, pk: nat, wl: nat, bl: nat)
    requires pk > 0 && w == wl + pk * wh && wl < pk
    requires vb == bl + pk * bh && bl < pk && bh >= 0x8000_0000
    requires w < BASE * vb
    ensures wh / bh <= BASE
  {
    var qh := wh / bh;
    var e := BASE * (bh + 1);
    assert vb < pk * (bh + 1);
    MulLe(vb, pk * (bh + 1), BASE);
    MulAssociates(BASE, pk, bh + 1);
    assert pk * wh < pk * e;
    if wh >= e {
      MulLe(e, wh, pk);
      assert false;
    }
    assert qh * bh <= wh;
    if qh > BASE {
      MulLe(BASE + 1, qh, bh);
      assert false;
    }
  }

  /** The product of the estimate less one with the divisor stays within the window. */
  lemma {:induction false} EstimateExcess(w: nat, vb: nat, wh: nat, bh: nat, pk: nat, wl: nat, bl: nat, qh: nat)
    requires pk > 0 && w == wl + pk * wh
    requires vb == bl + pk * bh && bl < pk
    requires 1 <= qh <= bh + 1 && qh * bh <= wh
    ensures (qh - 1) * vb <= w
  {
    var c := qh - 1;
    assert c * vb <= c * pk + c * (pk * bh) by {
      MulDistributes(c, bl, pk * bh);
      MulLe(bl, pk, c);
    }
    assert c * pk + c * (pk * bh) == pk * (c + c * bh) by {
      MulAssociates(c, pk, bh);
      MulAssociates(pk, c, bh);
      MulCommutes(c, pk);
      MulDistributes(pk, c, c * bh);
    }
    assert c + c * bh <= wh by {
      MulDistributes(bh, qh, -1);
      MulCommutes(bh, qh);
      MulCommutes(bh, c);
    }
    assert pk * (c + c * bh) <= pk * wh by {
      MulLe(c + c * bh, wh, pk);
    }
  }

  /**
   * A 2-limb divisor: the window and the divisor are their own top limbs,
   * so the raw estimate is the exact digit and the mask in arithmetic.js
   * never changes it.
   */
  lemma {:induction false} EstimateExactShortDivisor(w: nat, vb: nat)
    requires vb >= 0x8000_0000 && w < BASE * vb
    ensures EstimateAsWritten(w, vb) == w / vb && EstimateDigit(w, vb) == w / vb
  {
    EstimateBracket(w, vb, w, vb, 1, 0, 0);
    DivSmall(w / vb, BASE);
  }

  /**
   * Where the raw estimate is 65536 the two estimates part: the window
   * [0, 0, 0x8000] over the normalized divisor [1, 0, 0x8000] (the second
   * step of dividing 2^63 by 2^47 + 1) reads aVal = 2^47 and bVal = 2^31.
   * The masked estimate is 0, so the digit is skipped although the window
   * holds the divisor 0xFFFF times.
   */
  lemma {:induction false} EstimateAsWrittenSkipsDigit()
    ensures EstimateAsWritten(0x8000_0000_0000, 0x8000_0000) == 0
    ensures EstimateDigit(0x8000_0000_0000, 0x8000_0000) == MASK
    ensures Val([0, 0, 0, 0x8000]) == 0x8000_0000_0000_0000
    ensures Val([1, 0, 0x8000]) == 0x8000_0000_0001
    ensures 0x8000_0000_0000_0000 / 0x8000_0000_0001 == MASK
  {
    Val3(1, 0, 0x8000);
    ValSingle(0x8000);
    assert [0, 0, 0, 0x8000][1..] == [0, 0, 0x8000];
    Val3(0, 0, 0x8000);
  }

  lemma {:induction false} Val3(x: Limb, y: Limb, z: Limb)
    ensures Val([x, y, z]) == x + BASE * y + 0x1_0000_0000 * z
  {
    assert [x, y, z][1..] == [y, z];
    assert [y, z][1..] == [z];
    ValSingle(z);
  }

  /* ---------------------------------------------------------------------
   * divMulSub and divAdd: the in-place updates of the window.
   * ------------------------------------------------------------------- */

  /**
   * One limb of the multiply-subtract.  The carry is kept as the difference
   * of two masked halves; masked again it is the true borrow, which lies in
   * 0 .. 65535.
   */
  lemma {:induction false} MulSubDigit(x: int, prod: int, cin: int, diff: int, carry: int)
    requires 0 <= x < BASE && 0 <= prod <= MASK * MASK && 0 <= cin < BASE
    requires diff == x - prod % BASE - cin && carry == (prod / BASE) % BASE - (diff / BASE) % BASE
    ensures 0 <= prod / BASE - diff / BASE < BASE && carry % BASE == prod / BASE - diff / BASE
    ensures x - prod - cin == diff % BASE + BASE * -(prod / BASE - diff / BASE)
  {
    var ph, pl := prod / BASE, prod % BASE;
    var dh, dl := diff / BASE, diff % BASE;
    assert prod == ph * BASE + pl;
    assert diff == dh * BASE + dl;
    assert 0 <= ph <= BASE - 2;
    assert -2 <= dh <= 0;
    if dh == -2 {
      assert pl >= 2;
      assert ph <= BASE - 3;
    }
    DivSmall(ph, BASE);
    var t := ph - dh;
    if dh < 0 {
      ModUnique(dh, BASE, -1, dh + BASE);
      ModUnique(ph - dh - BASE, BASE, -1, t);
    } else {
      DivSmall(0, BASE);
      DivSmall(t, BASE);
    }
  }

  lemma {:induction false} LimbProduct(x: int, y: int)
    requires 0 <= x <= MASK && 0 <= y <= MASK
    ensures 0 <= x * y <= MASK * MASK
  {
    MulLe(y, MASK, x);
    MulLe(x, MASK, MASK);
  }

  /** The running multiply-subtract value, one limb further. */
  lemma {:induction false} MulSubStep(s: seq<Limb>, j: nat, k: nat, b: seq<Limb>, quot: Limb,
                                      cin: int, x: Limb, t: int, v: int)
    requires k < |b| && j + k < |s|
    requires s[j + k] - (b[k] as int) * quot - cin == x + BASE * -t
    requires Val(s) - cin * Pow(BASE, j + k) == v - Pow(BASE, j) * (quot * Val(b[..k]))
    ensures Val(s[j + k := x]) - t * Pow(BASE, j + k + 1) == v - Pow(BASE, j) * (quot * Val(b[..k + 1]))
  {
    var i := j + k;
    var prod: int := (b[k] as int) * quot;
    BorrowStep(s, i, x, prod, -cin, -t);
    ValPrefixStep(b, k);
    PowAdd(BASE, j, k);
    RowArith(Pow(BASE, j), Pow(BASE, k), Pow(BASE, i), quot, b[k], Val(b[..k]), Val(b[..k + 1]));
    MulSubArith(Val(s), Val(s[i := x]), Pow(BASE, i), Pow(BASE, i + 1), cin, t, prod,
                Pow(BASE, j) * (quot * Val(b[..k])), Pow(BASE, j) * (quot * Val(b[..k + 1])), v);
  }

  lemma {:induction false} MulSubArith(vs: int, vs': int, pi: int, pi1: int, cin: int, t: int, prod: int,
                                       sub: int, sub': int, v: int)
    requires vs' + (-t) * pi1 == vs + (-cin) * pi - pi * prod
    requires vs - cin * pi == v - sub && sub' == sub + pi * prod
    ensures vs' - t * pi1 == v - sub'
  {
    MulNegate(pi1, t);
    MulNegate(pi, cin);
  }

  /**
   * divMulSub: subtracts quot times b from the window of a starting at limb
   * qIndex.  A negative result wraps the window around 65536^(qIndex+|b|+1);
   * that happens exactly when the old top limb is below the final borrow.
   */
  method DivMulSub(quot: Limb, a: array<Limb>, b: seq<Limb>, qIndex: nat, bLen: nat) returns (carry: int)
    requires bLen == |b| && qIndex + bLen < a.Length
    modifies a
    ensures a[qIndex + bLen] == (old(a[qIndex + bLen]) - carry % BASE) % BASE
    ensures old(a[qIndex + bLen]) < carry % BASE ==>
      Val(a[..]) == old(Val(a[..])) - Pow(BASE, qIndex) * (quot * Val(b)) + Pow(BASE, qIndex + bLen + 1)
    ensures old(a[qIndex + bLen]) >= carry % BASE ==>
      Val(a[..]) == old(Val(a[..])) - Pow(BASE, qIndex) * (quot * Val(b))
    ensures forall k :: 0 <= k < a.Length && !(qIndex <= k <= qIndex + bLen) ==> a[k] == old(a[k])
  {
    ghost var v := Val(a[..]);
    carry := 0;
    var aIndex := qIndex;
    var bIndex := 0;
    assert b[..0] == [];
    while bIndex < bLen
      invariant 0 <= bIndex <= bLen && aIndex == qIndex + bIndex
      invariant Val(a[..]) - (carry % BASE) * Pow(BASE, aIndex) == v - Pow(BASE, qIndex) * (quot * Val(b[..bIndex]))
      invariant forall k :: 0 <= k < a.Length && !(qIndex <= k < aIndex) ==> a[k] == old(a[k])
    {
      var prod := b[bIndex] * quot;
      var diff := a[aIndex] - prod % BASE - carry % BASE;
      LimbProduct(b[bIndex], quot);
      ghost var cin := carry % BASE;
      ghost var t := prod / BASE - diff / BASE;
      ghost var s0 := a[..];
      ghost var x: Limb := diff % BASE;
      a[aIndex] := diff % BASE;
      carry := (prod / BASE) % BASE - (diff / BASE) % BASE;
      MulSubDigit(s0[aIndex], prod, cin, diff, carry);
      MulSubStep(s0, qIndex, bIndex, b, quot, cin, x, t, v);
      assert a[..] == s0[aIndex := x];
      aIndex := aIndex + 1;
      bIndex := bIndex + 1;
    }
    assert b[..bLen] == b;
    var top := aIndex;
    ghost var before := a[..];
    a[top] := (a[top] - carry % BASE) % BASE;
    ValUpdate(before, top, a[top]);
    assert a[..] == before[top := a[top]];
    SubTop(Val(before), Val(a[..]), Pow(BASE, top), before[top], carry % BASE,
           v - Pow(BASE, qIndex) * (quot * Val(b)));
  }

  /** The borrow taken from the top limb of the window; a borrow past it wraps. */
  lemma {:induction false} SubTop(vs: int, vt: int, pt: int, x: int, cin: int, m: int)
    requires 0 <= x < BASE && 0 <= cin < BASE
    requires vt + pt * x == vs + pt * ((x - cin) % BASE) && vs - cin * pt == m
    ensures x < cin ==> vt == m + BASE * pt
    ensures x >= cin ==> vt == m
  {
    if x < cin {
      ModUnique(x - cin, BASE, -1, x - cin + BASE);
    } else {
      DivSmall(x - cin, BASE);
    }
  }

  /** The running add-back value, one limb further. */
  lemma {:induction false} AddStep(s: seq<Limb>, j: nat, k: nat, b: seq<Limb>, carry: int, v: int)
    requires k < |b| && j + k < |s| && 0 <= carry <= 1
    requires Val(s) + carry * Pow(BASE, j + k) == v + Pow(BASE, j) * Val(b[..k])
    ensures var sum := s[j + k] + b[k] + carry;
            0 <= sum / BASE <= 1 &&
            Val(s[j + k := sum % BASE]) + (sum / BASE) * Pow(BASE, j + k + 1)
              == v + Pow(BASE, j) * Val(b[..k + 1])
  {
    var i := j + k;
    var sum := s[i] + b[k] + carry;
    CarryStep(s, i, sum % BASE, b[k], carry, sum / BASE);
    ValPrefixStep(b, k);
    PowAdd(BASE, j, k);
    RowArith(Pow(BASE, j), Pow(BASE, k), Pow(BASE, i), 1, b[k], Val(b[..k]), Val(b[..k + 1]));
  }

  /**
   * divAdd: adds b back into the window of a starting at limb qIndex; the
   * final carry goes into the top limb, and a sum past the window wraps
   * around 65536^(qIndex+|b|+1).
   */
  method DivAdd(a: array<Limb>, b: seq<Limb>, qIndex: nat, bLen: nat) returns (carry: int)
    requires bLen == |b| && qIndex + bLen < a.Length
    modifies a
    ensures 0 <= carry <= 1
    ensures a[qIndex + bLen] == (old(a[qIndex + bLen]) + carry) % BASE
    ensures old(a[qIndex + bLen]) + carry >= BASE ==>
      Val(a[..]) == old(Val(a[..])) + Pow(BASE, qIndex) * Val(b) - Pow(BASE, qIndex + bLen + 1)
    ensures old(a[qIndex + bLen]) + carry < BASE ==>
      Val(a[..]) == old(Val(a[..])) + Pow(BASE, qIndex) * Val(b)
    ensures forall k :: 0 <= k < a.Length && !(qIndex <= k <= qIndex + bLen) ==> a[k] == old(a[k])
  {
    ghost var v := Val(a[..]);
    carry := 0;
    var aIndex := qIndex;
    var bIndex := 0;
    assert b[..0] == [];
    while bIndex < bLen
      invariant 0 <= bIndex <= bLen && aIndex == qIndex + bIndex && 0 <= carry <= 1
      invariant Val(a[..]) + carry * Pow(BASE, aIndex) == v + Pow(BASE, qIndex) * Val(b[..bIndex])
      invariant forall k :: 0 <= k < a.Length && !(qIndex <= k < aIndex) ==> a[k] == old(a[k])
    {
      AddStep(a[..], qIndex, bIndex, b, carry, v);
      var sum := a[aIndex] + b[bIndex] + carry;
      a[aIndex] := sum % BASE;
      carry := sum / BASE;
      aIndex := aIndex + 1;
      bIndex := bIndex + 1;
    }
    assert b[..bLen] == b;
    var top := aIndex;
    ghost var before := a[..];
    a[top] := (a[top] + carry) % BASE;
    ValUpdate(before, top, a[top]);
    assert a[..] == before[top := a[top]];
    AddTop(Val(before), Val(a[..]), Pow(BASE, top), before[top], carry, v + Pow(BASE, qIndex) * Val(b));
  }

  /** The final carry added into the top limb of the window; a carry past it wraps. */
  lemma {:induction false} AddTop(vs: int, vt: int, pt: int, x: int, c: int, m: int)
    requires 0 <= x < BASE && 0 <= c <= 1
    requires vt + pt * x == vs + pt * ((x + c) % BASE) && vs + c * pt == m
    ensures x + c >= BASE ==> vt == m - BASE * pt
    ensures x + c < BASE ==> vt == m
  {
    if x + c >= BASE {
      ModUnique(x + c, BASE, 1, x + c - BASE);
    } else {
      DivSmall(x + c, BASE);
    }
  }

  /* ---------------------------------------------------------------------
   * divideKnuth: one quotient digit.
   * ------------------------------------------------------------------- */

  /** A limb value below 65536^m has zero limbs from position m on. */
  lemma {:induction false} ZeroAbove(s: seq<Limb>, m: nat)
    requires Val(s) < Pow(BASE, m)
    ensures forall k :: m <= k < |s| ==> s[k] == 0
  {
    forall k | m <= k < |s|
      ensures s[k] == 0
    {
      LimbBelowVal(s, k);
      PowMonotone(BASE, m, k);
      if s[k] != 0 {
        MulAtLeast(s[k], Pow(BASE, k));
        assert false;
      }
    }
  }

  /** Limbs that are zero from position m on keep the value below 65536^m. */
  lemma {:induction false} TailBound(s: seq<Limb>, m: nat)
    requires m <= |s| && forall k :: m <= k < |s| ==> s[k] == 0
    ensures Val(s) < Pow(BASE, m)
  {
    ValZeroTail(s, m);
    ValBound(s[..m]);
  }

  /**
   * The window from limb j, whose limbs above j + |b| are zero, is its
   * lower limbs plus its three top limbs read as one 48-bit number.
   */
  lemma {:induction false} WindowSplit(s: seq<Limb>, j: nat, d: nat)
    requires 2 <= d && j + d < |s| && forall k :: j + d < k < |s| ==> s[k] == 0
    ensures Val(s[j..]) == Val(s[j..j + d - 2]) + Pow(BASE, d - 2) * (s[j + d] * 0x1_0000_0000 + s[j + d - 1] * BASE + s[j + d - 2])
    ensures Val(s[j..j + d - 2]) < Pow(BASE, d - 2)
  {
    var w := s[j..];
    ValSplit(w, d - 2);
    assert w[..d - 2] == s[j..j + d - 2];
    var u := w[d - 2..];
    assert forall k :: 3 <= k < |u| ==> u[k] == s[j + d - 2 + k];
    ValZeroTail(u, 3);
    assert u[..3] == [s[j + d - 2], s[j + d - 1], s[j + d]];
    Val3(s[j + d - 2], s[j + d - 1], s[j + d]);
    ValBound(s[j..j + d - 2]);
  }

  /** The divisor is its lower limbs plus its two top limbs read as one 32-bit number. */
  lemma {:induction false} DivisorSplit(b: seq<Limb>)
    requires 2 <= |b|
    ensures Val(b) == Val(b[..|b| - 2]) + Pow(BASE, |b| - 2) * (b[|b| - 1] * BASE + b[|b| - 2])
    ensures Val(b[..|b| - 2]) < Pow(BASE, |b| - 2)
  {
    var d := |b|;
    ValSplit(b, d - 2);
    assert b[d - 2..] == [b[d - 2], b[d - 1]];
    assert [b[d - 2], b[d - 1]][1..] == [b[d - 1]];
    ValSingle(b[d - 1]);
    ValBound(b[..d - 2]);
  }

  /** A value below v * 65536^(j+1) splits at limb j into a window below 65536 * v. */
  lemma {:induction false} WindowBelow(vs: nat, low: nat, pj: nat, w: nat, vb: nat)
    requires pj > 0 && vs == low + pj * w && vs < vb * (pj * BASE)
    ensures w < BASE * vb
  {
    MulAssociates(vb, pj, BASE);
    if w >= BASE * vb {
      MulLe(BASE * vb, w, pj);
      assert false;
    }
  }

  /**
   * What the top limbs of the window tell about the digit: the clamped
   * estimate is the digit or one more, the digit fits in a limb, and the
   * limbs above the window are zero.
   */
  lemma {:induction false} DigitWindow(s: seq<Limb>, b: seq<Limb>, j: nat, aVal: nat, bVal: nat)
    requires 2 <= |b| && b[|b| - 1] >= 0x8000 && bVal == b[|b| - 1] * BASE + b[|b| - 2]
    requires j + |b| < |s| && Val(s) < Val(b) * Pow(BASE, j + 1)
    requires aVal == s[j + |b|] * 0x1_0000_0000 + s[j + |b| - 1] * BASE + s[j + |b| - 2]
    ensures Pow(BASE, j) > 0 && Val(b) > 0 && bVal > 0
    ensures Val(s) == Val(s[..j]) + Pow(BASE, j) * Val(s[j..]) && Val(s[..j]) < Pow(BASE, j)
    ensures Val(s[j..]) / Val(b) < BASE
    ensures EstimateDigit(aVal, bVal) == Val(s[j..]) / Val(b) || EstimateDigit(aVal, bVal) == Val(s[j..]) / Val(b) + 1
    ensures forall k :: j + |b| < k < |s| ==> s[k] == 0
    ensures Val(b) * Pow(BASE, j) < Pow(BASE, j + |b|)
  {
    var d := |b|;
    var pj := Pow(BASE, j);
    PowPositive(BASE, j);
    PowPositive(BASE, d - 2);
    ValSplit(s, j);
    ValBound(s[..j]);
    ValBound(b);
    DivisorSplit(b);
    var bh := b[d - 1] * BASE + b[d - 2];
    assert bh >= 0x8000_0000;
    MulLe(0, Val(b[..d - 2]), 1);
    MulAtLeast(bh, Pow(BASE, d - 2));
    assert Pow(BASE, j + 1) == pj * BASE;
    // the limbs above the window are zero
    ScaledBelow(Val(b), j + 1, d);
    ZeroAbove(s, j + 1 + d);
    WindowBelow(Val(s), Val(s[..j]), pj, Val(s[j..]), Val(b));
    WindowSplit(s, j, d);
    EstimateBracket(Val(s[j..]), Val(b), aVal, bVal, Pow(BASE, d - 2), Val(s[j..j + d - 2]), Val(b[..d - 2]));
    ScaledBelow(Val(b), j, d);
  }

  /** A value below 65536^d, shifted up by i limbs, is below 65536^(i+d). */
  lemma {:induction false} ScaledBelow(v: nat, i: nat, d: nat)
    requires v < Pow(BASE, d)
    ensures v * Pow(BASE, i) < Pow(BASE, i + d)
  {
    PowPositive(BASE, i);
    MulLe(v + 1, Pow(BASE, d), Pow(BASE, i));
    PowAdd(BASE, i, d);
  }

  /**
   * The remainder left by the digit or by one more than the digit: the
   * digit leaves a nonnegative remainder below the divisor; one more
   * leaves a negative one, and adding the divisor back repairs it.
   */
  lemma {:induction false} DigitOutcome(v0: int, low: int, pj: int, w: int, vb: int, quot: int)
    requires pj > 0 && vb > 0 && v0 == low + pj * w && 0 <= low < pj && w >= 0
    requires quot == w / vb || quot == w / vb + 1
    ensures quot == w / vb ==> 0 <= v0 - pj * (quot * vb) < vb * pj
    ensures quot == w / vb + 1 ==> v0 - pj * (quot * vb) < 0 && 0 <= v0 - pj * (quot * vb) + vb * pj < vb * pj
  {
    var qd := w / vb;
    var rm := w % vb;
    assert w == qd * vb + rm && 0 <= rm < vb;
    assert v0 - pj * (qd * vb) == low + pj * rm by {
      MulDistributes(pj, qd * vb, rm);
    }
    MulLe(rm, vb - 1, pj);
    MulNonNegative(pj, rm);
    if quot == qd + 1 {
      assert pj * (quot * vb) == pj * (qd * vb) + pj * vb by {
        MulDistributes(pj, qd * vb, vb);
      }
    }
  }

  /** After the multiply-subtract the top limb of the window is nonzero exactly when the result went negative. */
  lemma {:induction false} AfterMulSub(m: int, v1: int, pt: int, top: int, wrap: bool, below: int)
    requires pt > 0 && 0 <= v1 < BASE * pt && pt * top <= v1 && 0 <= top < BASE
    requires wrap ==> v1 == m + BASE * pt && top != 0
    requires !wrap ==> v1 == m
    requires m >= 0 ==> m < below <= pt
    ensures top != 0 <==> m < 0
    ensures m < 0 ==> v1 == m + BASE * pt
    ensures m >= 0 ==> v1 == m
  {
    if m >= 0 && top != 0 {
      MulAtLeast(top, pt);
      assert false;
    }
  }

  /** The add-back after an estimate one too large wraps past the window and restores the remainder. */
  lemma {:induction false} AfterAdd(m: int, v1: int, v2: int, pt1: int, back: int, wrap: bool)
    requires v1 == m + pt1 && 0 <= m + back && 0 <= v2 < pt1
    requires wrap ==> v2 == v1 + back - pt1
    requires !wrap ==> v2 == v1 + back
    ensures v2 == m + back
  {
  }

  lemma {:induction false} OneLess(p: int, q: int, q': int, v: int)
    requires q' == q - 1
    ensures p * (q * v) == p * (q' * v) + p * v
  {
    MulDistributes(v, q', 1);
    MulDistributes(p, q' * v, v);
  }

  /**
   * One step of the main loop of divideKnuth: estimate the digit from the
   * top limbs of the window at qIndex, multiply and subtract, and add the
   * divisor back once if the estimate was one too large.  The window ends
   * below the divisor, as the next step requires.
   */
  method KnuthDigit(a: array<Limb>, b: seq<Limb>, bVal: nat, qIndex: nat, aIndex: nat, dLen: nat) returns (quot: Limb)
    requires dLen == |b| >= 2 && b[dLen - 1] >= 0x8000 && bVal == b[dLen - 1] * BASE + b[dLen - 2]
    requires aIndex == qIndex + dLen && aIndex < a.Length && Val(a[..]) < Val(b) * Pow(BASE, qIndex + 1)
    modifies a
    ensures Val(a[..]) + Pow(BASE, qIndex) * (quot * Val(b)) == old(Val(a[..]))
    ensures Val(a[..]) < Val(b) * Pow(BASE, qIndex)
  {
    var aHigh := a[aIndex];
    var aMed := a[aIndex - 1];
    var aLow := a[aIndex - 2];
    var aVal := aHigh * 0x1_0000_0000 + aMed * BASE + aLow;
    ghost var pj := Pow(BASE, qIndex);
    DigitWindow(a[..], b, qIndex, aVal, bVal);
    quot := EstimateDigit(aVal, bVal);
    DigitOutcome(Val(a[..]), Val(a[..][..qIndex]), pj, Val(a[..][qIndex..]), Val(b), quot);
    quot := CorrectDigit(a, b, qIndex, aIndex, dLen, quot, Val(a[..]) - pj * (quot * Val(b)));
  }

  /**
   * The multiply-subtract and the add-back of one step of divideKnuth.  The
   * remainder m the estimate leaves lies within one divisor (times
   * 65536^qIndex) of the range it must end in; a negative one shows as a
   * nonzero top limb and is repaired by adding the divisor back once.
   */
  method CorrectDigit(a: array<Limb>, b: seq<Limb>, qIndex: nat, aIndex: nat, dLen: nat, quot: Limb, ghost m: int)
      returns (q: Limb)
    requires dLen == |b| && aIndex == qIndex + dLen < a.Length
    requires forall k :: aIndex < k < a.Length ==> a[k] == 0
    requires Val(b) * Pow(BASE, qIndex) < Pow(BASE, aIndex)
    requires m == Val(a[..]) - Pow(BASE, qIndex) * (quot * Val(b))
    requires -(Val(b) * Pow(BASE, qIndex)) <= m < Val(b) * Pow(BASE, qIndex)
    modifies a
    ensures Val(a[..]) + Pow(BASE, qIndex) * (q * Val(b)) == old(Val(a[..]))
    ensures Val(a[..]) < Val(b) * Pow(BASE, qIndex)
  {
    q := quot;
    if quot == 0 {
      MulZero(Pow(BASE, qIndex), Val(b));
      return;
    }
    ghost var s0 := a[..];
    var carry := DivMulSub(quot, a, b, qIndex, dLen);
    ghost var s1 := a[..];
    MulSubResult(s0, s1, b, qIndex, aIndex, quot, carry, m);
    if a[qIndex + dLen] != 0 {
      var carry2 := DivAdd(a, b, qIndex, dLen);
      q := quot - 1;
      AddBackResult(s1, a[..], b, qIndex, aIndex, quot, q, carry2, m, Val(s0));
    }
  }

  lemma {:induction false} MulZero(p: int, v: int)
    ensures p * (0 * v) == 0
  {
  }

  /** What the multiply-subtract leaves, from the contract of DivMulSub and the size of m. */
  lemma {:induction false} MulSubResult(s0: seq<Limb>, s1: seq<Limb>, b: seq<Limb>, qIndex: nat, aIndex: nat,
                                        quot: Limb, carry: int, m: int)
    requires |s0| == |s1| && aIndex == qIndex + |b| < |s1|
    requires s1[aIndex] == (s0[aIndex] - carry % BASE) % BASE
    requires s0[aIndex] < carry % BASE ==>
      Val(s1) == Val(s0) - Pow(BASE, qIndex) * (quot * Val(b)) + Pow(BASE, qIndex + |b| + 1)
    requires s0[aIndex] >= carry % BASE ==> Val(s1) == Val(s0) - Pow(BASE, qIndex) * (quot * Val(b))
    requires forall k :: 0 <= k < |s1| && !(qIndex <= k <= qIndex + |b|) ==> s1[k] == s0[k]
    requires forall k :: aIndex < k < |s0| ==> s0[k] == 0
    requires Val(b) * Pow(BASE, qIndex) < Pow(BASE, aIndex)
    requires m == Val(s0) - Pow(BASE, qIndex) * (quot * Val(b))
    requires -(Val(b) * Pow(BASE, qIndex)) <= m < Val(b) * Pow(BASE, qIndex)
    ensures forall k :: aIndex < k < |s1| ==> s1[k] == 0
    ensures s1[aIndex] != 0 <==> m < 0
    ensures m < 0 ==> Val(s1) == m + Pow(BASE, qIndex + |b| + 1)
    ensures s1[aIndex] == 0 ==> Val(s1) + Pow(BASE, qIndex) * (quot * Val(b)) == Val(s0)
    ensures s1[aIndex] == 0 ==> Val(s1) < Val(b) * Pow(BASE, qIndex)
  {
    assert forall k :: aIndex < k < |s1| ==> s1[k] == 0 by {
      assert forall k :: aIndex < k < |s1| ==> s1[k] == s0[k];
    }
    var pt := Pow(BASE, aIndex);
    assert Pow(BASE, qIndex + |b| + 1) == BASE * pt;
    assert pt > 0 && 0 <= Val(s1) < BASE * pt && pt * s1[aIndex] <= Val(s1) by {
      TailBound(s1, aIndex + 1);
      LimbBelowVal(s1, aIndex);
      PowPositive(BASE, aIndex);
    }
    var wrap := s0[aIndex] < carry % BASE;
    assert wrap ==> s1[aIndex] != 0 by {
      if wrap {
        ModUnique(s0[aIndex] - carry % BASE, BASE, -1, s0[aIndex] - carry % BASE + BASE);
      }
    }
    AfterMulSub(m, Val(s1), pt, s1[aIndex], wrap, Val(b) * Pow(BASE, qIndex));
  }

  /** What the add-back leaves after an estimate one too large. */
  lemma {:induction false} AddBackResult(s1: seq<Limb>, s2: seq<Limb>, b: seq<Limb>, qIndex: nat, aIndex: nat,
                                         quot: Limb, q: int, carry: int, m: int, v0: int)
    requires |s1| == |s2| && aIndex == qIndex + |b| < |s2| && q == quot - 1
    requires s1[aIndex] + carry >= BASE ==>
      Val(s2) == Val(s1) + Pow(BASE, qIndex) * Val(b) - Pow(BASE, qIndex + |b| + 1)
    requires s1[aIndex] + carry < BASE ==> Val(s2) == Val(s1) + Pow(BASE, qIndex) * Val(b)
    requires forall k :: 0 <= k < |s2| && !(qIndex <= k <= qIndex + |b|) ==> s2[k] == s1[k]
    requires forall k :: aIndex < k < |s1| ==> s1[k] == 0
    requires m == v0 - Pow(BASE, qIndex) * (quot * Val(b))
    requires -(Val(b) * Pow(BASE, qIndex)) <= m < 0
    requires Val(s1) == m + Pow(BASE, qIndex + |b| + 1)
    ensures Val(s2) + Pow(BASE, qIndex) * (q * Val(b)) == v0
    ensures Val(s2) < Val(b) * Pow(BASE, qIndex)
  {
    assert forall k :: aIndex < k < |s2| ==> s2[k] == s1[k];
    TailBound(s2, aIndex + 1);
    var pj := Pow(BASE, qIndex);
    MulCommutes(pj, Val(b));
    AfterAdd(m, Val(s1), Val(s2), Pow(BASE, qIndex + |b| + 1), pj * Val(b), s1[aIndex] + carry >= BASE);
    OneLess(pj, quot, q, Val(b));
  }

  /* ---------------------------------------------------------------------
   * divideKnuth: the main loop and the normalization around it.
   * ------------------------------------------------------------------- */

  /** Recording the new digit keeps quotient times divisor plus window equal to the total. */
  lemma {:induction false} QuotientStep(va: int, va': int, vq: int, vq': int, vb: int, pj: int, quot: int, total: int)
    requires va + vq * vb == total && va' + pj * (quot * vb) == va && vq' == vq + quot * pj
    ensures va' + vq' * vb == total
  {
    MulDistributes(vb, vq, quot * pj);
    MulAssociates(vb, quot, pj);
    MulCommutes(vb, vq);
    MulCommutes(vb, vq');
    assert vb * (quot * pj) == pj * (quot * vb) by {
      MulAssociates(pj, quot, vb);
      MulCommutes(pj, quot);
      MulAssociates(quot, pj, vb);
      MulCommutes(pj, vb);
    }
  }

  /**
   * The main loop of divideKnuth: one digit per step, from the most
   * significant down.  Window plus quotient times divisor stays equal to
   * the normalized dividend, and what is left of the window stays below
   * the divisor times 65536^(qIndex+1).
   */
  method KnuthLoop(a: array<Limb>, b: seq<Limb>, bVal: nat, qArray: array<Limb>, nLen: nat, dLen: nat)
    requires a != qArray
    requires dLen == |b| >= 2 && b[dLen - 1] >= 0x8000 && bVal == b[dLen - 1] * BASE + b[dLen - 2]
    requires dLen <= nLen < a.Length && qArray.Length == nLen - dLen + 1
    requires forall k :: 0 <= k < qArray.Length ==> qArray[k] == 0
    requires Val(a[..]) < Val(b) * Pow(BASE, qArray.Length)
    modifies a, qArray
    ensures Val(a[..]) + Val(qArray[..]) * Val(b) == old(Val(a[..])) && Val(a[..]) < Val(b)
  {
    ghost var total := Val(a[..]);
    ValZero(qArray[..]);
    var qIndex: int := qArray.Length - 1;
    var aIndex := nLen;
    while qIndex >= 0
      invariant -1 <= qIndex < qArray.Length && aIndex == qIndex + dLen
      invariant forall k :: 0 <= k <= qIndex ==> qArray[k] == 0
      invariant Val(a[..]) + Val(qArray[..]) * Val(b) == total
      invariant Val(a[..]) < Val(b) * Pow(BASE, qIndex + 1)
    {
      ghost var qs := qArray[..];
      ghost var va := Val(a[..]);
      var quot := KnuthDigit(a, b, bVal, qIndex, aIndex, dLen);
      ValWriteZero(qs, qIndex, quot);
      qArray[qIndex] := quot;
      assert qArray[..] == qs[qIndex := quot];
      QuotientStep(va, Val(a[..]), Val(qs), Val(qArray[..]), Val(b), Pow(BASE, qIndex), quot, total);
      qIndex := qIndex - 1;
      aIndex := aIndex - 1;
    }
  }

  /**
   * The shift that puts the top bit of the divisor's top limb at bit 15:
   * the shifted divisor keeps its length and has a top limb of at least
   * 0x8000, the shifted dividend gains at most one limb, and the shifted
   * dividend is below the shifted divisor times 65536^(|n|-|d|+1).
   */
  lemma {:induction false} KnuthNormalize(n: seq<Limb>, d: seq<Limb>, s: nat)
    requires Normalized(n) && Normalized(d) && 2 <= |d| <= |n|
    requires s == 16 - BitLen(d[|d| - 1] % BASE)
    ensures s < 16 && s % UINT32 == s && Pow(2, s) > 0
    ensures |ToLimbs(Val(d) * Pow(2, s))| == |d| && ToLimbs(Val(d) * Pow(2, s))[|d| - 1] >= 0x8000
    ensures |n| <= |ToLimbs(Val(n) * Pow(2, s))| <= |n| + 1
    ensures Val(n) * Pow(2, s) < Val(d) * Pow(2, s) * Pow(BASE, |n| - |d| + 1)
  {
    ShiftAmount(d[|d| - 1], s);
    PowPositive(2, s);
    var vn, vd := Val(n) * Pow(2, s), Val(d) * Pow(2, s);
    assert |ToLimbs(vd)| == |d| && ToLimbs(vd)[|d| - 1] >= 0x8000 && Pow(2, 16 * |d| - 1) <= vd by {
      DivisorShape(d, s);
    }
    assert |n| <= |ToLimbs(vn)| <= |n| + 1 && vn < Pow(2, 16 * |n| + 15) by {
      DividendShape(n, s);
    }
    ShiftedBound(vn, vd, |n|, |d|);
  }

  /** The normalized divisor keeps its length and gets its top bit set. */
  lemma {:induction false} DivisorShape(d: seq<Limb>, s: nat)
    requires Normalized(d) && |d| > 0 && s == 16 - BitLen(d[|d| - 1])
    ensures |ToLimbs(Val(d) * Pow(2, s))| == |d| && ToLimbs(Val(d) * Pow(2, s))[|d| - 1] >= 0x8000
    ensures Pow(2, 16 * |d| - 1) <= Val(d) * Pow(2, s)
  {
    ShiftedBitLen(d, s);
    var vd := Val(d) * Pow(2, s);
    ToLimbsLength(vd);
    var t := ToLimbs(vd);
    ToLimbsVal(t, vd);
    BitLenTop(t);
    BitLenBounds(t[|d| - 1]);
    Pow2Values();
    BitLenBounds(vd);
  }

  /** The normalized dividend grows by at most one limb and stays below 2^(16 |n| + 15). */
  lemma {:induction false} DividendShape(n: seq<Limb>, s: nat)
    requires Normalized(n) && |n| > 0 && s < 16
    ensures |n| <= |ToLimbs(Val(n) * Pow(2, s))| <= |n| + 1
    ensures Val(n) * Pow(2, s) < Pow(2, 16 * |n| + 15)
  {
    BitLenBounds(n[|n| - 1]);
    Pow2Values();
    BitLenBelow(n[|n| - 1], 16);
    ShiftedBitLen(n, s);
    var vn := Val(n) * Pow(2, s);
    ToLimbsLength(vn);
    BitLenBounds(vn);
    PowMonotone(2, BitLen(vn), 16 * |n| + 15);
  }

  /** The shift read from the top limb of the divisor lies in 0 .. 15. */
  lemma {:induction false} ShiftAmount(top: Limb, s: nat)
    requires top != 0 && s == 16 - BitLen(top % BASE)
    ensures 1 <= BitLen(top) <= 16 && s == 16 - BitLen(top) && s < 16 && s % UINT32 == s
  {
    assert top % BASE == top by {
      DivSmall(top, BASE);
    }
    assert 1 <= BitLen(top) by {
      BitLenBounds(top);
    }
    assert BitLen(top) <= 16 by {
      Base16();
      BitLenBelow(top, 16);
    }
    DivSmall(s, UINT32);
  }

  /** The bit length of a magnitude shifted left by s bits. */
  lemma {:induction false} ShiftedBitLen(v: seq<Limb>, s: nat)
    requires Normalized(v) && |v| > 0
    ensures Val(v) * Pow(2, s) > 0
    ensures BitLen(Val(v) * Pow(2, s)) == 16 * (|v| - 1) + BitLen(v[|v| - 1]) + s
  {
    ValPositive(v);
    BitLenTop(v);
    PowPositive(2, s);
    MulCommutes(Val(v), Pow(2, s));
    BitLenShifted(0, Val(v), s);
    MulAtLeast(Val(v), Pow(2, s));
  }

  /** A dividend below 2^(16 ln + 15) is below a divisor of ld full limbs times 65536^(ln-ld+1). */
  lemma {:induction false} ShiftedBound(vn: nat, vd: nat, ln: nat, ld: nat)
    requires 1 <= ld <= ln && vn < Pow(2, 16 * ln + 15) && Pow(2, 16 * ld - 1) <= vd
    ensures vn < vd * Pow(BASE, ln - ld + 1)
  {
    var q := ln - ld + 1;
    BasePow(q);
    PowAdd(2, 16 * ld - 1, 16 * q);
    assert 16 * ld - 1 + 16 * q == 16 * ln + 15;
    MulLe(Pow(2, 16 * ld - 1), vd, Pow(2, 16 * q));
    MulCommutes(Pow(2, 16 * q), vd);
    MulCommutes(Pow(2, 16 * q), Pow(2, 16 * ld - 1));
  }

  /** Undoing the normalization: the window shifted back is the remainder. */
  lemma {:induction false} KnuthUnshift(vn: nat, vd: nat, p: nat, total: nat, vb: nat, vq: nat, va: nat)
    requires p > 0 && total == vn * p && vb == vd * p && va + vq * vb == total && va < vb
    ensures va / p + vq * vd == vn && va / p < vd
  {
    var r := vn - vq * vd;
    assert va == r * p by {
      MulAssociates(vq, vd, p);
      MulDistributes(p, vn, -(vq * vd));
      MulCommutes(p, vn);
      MulCommutes(p, vq * vd);
      MulCommutes(p, r);
    }
    MulCommutes(r, p);
    DivOfMultiple(va, p, r);
    if r >= vd {
      MulLe(vd, r, p);
      MulCommutes(p, vd);
      MulCommutes(p, r);
      assert false;
    }
  }

  /**
   * divideKnuth: Algorithm D for a divisor of two or more limbs.  Both
   * operands are shifted left until the divisor's top limb has its top bit
   * set (the dividend with one extra zero limb), the main loop produces the
   * digits, and the window left over is shifted back as the remainder.
   */
  method DivideKnuth(n: seq<Limb>, nLen: nat, d: seq<Limb>, dLen: nat) returns (q: seq<Limb>, r: seq<Limb>)
    requires nLen == |n| && dLen == |d| && 2 <= dLen <= nLen && Normalized(n) && Normalized(d)
    ensures Normalized(q) && Normalized(r)
    ensures Val(q) * Val(d) + Val(r) == Val(n) && Val(r) < Val(d)
  {
    var qLen := nLen - dLen + 1;
    var shiftNum := IntLeadingZeroes(d[dLen - 1]);
    ValPositive(n);
    ValPositive(d);
    var aRes := BitShiftLeft(n, shiftNum, 1);
    var bRes := BitShiftLeft(d, shiftNum, 0);
    KnuthOperands(n, d, shiftNum, aRes.value, bRes.value);
    var aArray := NewCopy(aRes.value, |aRes.value|);
    var bArray := bRes.value;
    var qArray := new Limb[qLen](_ => 0);
    var bHigh := bArray[dLen - 1];
    var bLow := bArray[dLen - 2];
    var bVal := bHigh * BASE + bLow;
    KnuthLoop(aArray, bArray, bVal, qArray, nLen, dLen);
    q := TrimLeadingZeroes(qArray[..]);
    r := BitShiftRight(aArray[..], shiftNum);
    KnuthResult(n, d, shiftNum, bArray, Val(q), aArray[..], r);
  }

  /** What divideKnuth's main loop needs of the two shifted operands. */
  lemma {:induction false} KnuthOperands(n: seq<Limb>, d: seq<Limb>, s: nat, a: seq<Limb>, b: seq<Limb>)
    requires Normalized(n) && Normalized(d) && 2 <= |d| <= |n|
    requires s == 16 - BitLen(d[|d| - 1] % BASE)
    requires a == ToLimbs(Val(n) * Pow(2, s % UINT32)) + Zeros(1)
    requires b == ToLimbs(Val(d) * Pow(2, s % UINT32)) + Zeros(0)
    ensures s % UINT32 == s
    ensures |b| == |d| && b[|d| - 1] >= 0x8000 && |d| <= |n| < |a|
    ensures Val(a) == Val(n) * Pow(2, s) && Val(b) == Val(d) * Pow(2, s)
    ensures Val(a) < Val(b) * Pow(BASE, |n| - |d| + 1)
  {
    KnuthNormalize(n, d, s);
    var vn, vd := Val(n) * Pow(2, s), Val(d) * Pow(2, s);
    assert b == ToLimbs(vd);
    ToLimbsVal(b, vd);
    ToLimbsVal(ToLimbs(vn), vn);
    ValPadded(ToLimbs(vn), 1);
    ValPadded(ToLimbs(vd), 0);
  }

  /** The digits and the shifted-back window are the quotient and remainder of n by d. */
  lemma {:induction false} KnuthResult(n: seq<Limb>, d: seq<Limb>, s: nat, b: seq<Limb>, vq: nat, a: seq<Limb>, r: seq<Limb>)
    requires s % UINT32 == s && Val(b) == Val(d) * Pow(2, s)
    requires Val(a) + vq * Val(b) == Val(n) * Pow(2, s) && Val(a) < Val(b)
    requires r == ToLimbs(Val(a) / Pow(2, s % UINT32))
    ensures Normalized(r) && vq * Val(d) + Val(r) == Val(n) && Val(r) < Val(d)
  {
    PowPositive(2, s);
    ToLimbsVal(r, Val(a) / Pow(2, s));
    KnuthUnshift(Val(n), Val(d), Pow(2, s), Val(n) * Pow(2, s), Val(b), vq, Val(a));
  }

  /* ---------------------------------------------------------------------
   * divide: the dispatcher.
   * ------------------------------------------------------------------- */

  /**
   * Quotient and remainder of two magnitudes.  An empty divisor is the
   * error case; a zero dividend, equal operands and a smaller dividend are
   * answered directly; otherwise a single-limb divisor goes to divideBy1n
   * and a longer one to divideKnuth.  The quotient and remainder are the
   * floor quotient and the remainder of the values.
   */
  method Divide(n: seq<Limb>, d: seq<Limb>) returns (res: Result<(seq<Limb>, seq<Limb>)>)
    requires Normalized(n) && Normalized(d)
    ensures res.Err? <==> |d| == 0
    ensures res.Err? ==> res.error == DivisionByZero
    ensures res.Ok? ==> Normalized(res.value.0) && Normalized(res.value.1)
    ensures res.Ok? ==> Val(d) > 0 && Val(res.value.0) == Val(n) / Val(d) && Val(res.value.1) == Val(n) % Val(d)
  {
    var nLen := |n|;
    var dLen := |d|;
    var ndComp := Compare(n, d);
    var dZero := IsZero(d);
    if dZero {
      return Err(DivisionByZero);
    }
    ValPositive(d);
    var nZero := IsZero(n);
    if nZero {
      DivSmall(0, Val(d));
      return Ok(([], []));
    }
    if ndComp == 0 {
      ValSingle(1);
      DivOfMultiple(Val(n), Val(d), 1);
      return Ok(([1], []));
    }
    if ndComp == -1 {
      DivSmall(Val(n), Val(d));
      return Ok(([], n));
    }
    var q, r;
    if dLen == 1 {
      q, r := DivideBy1n(n, nLen, d);
      ValSingle(d[0]);
      if nLen == 1 {
        ValSingle(n[0]);
        ValSingle(q[0]);
      }
    } else {
      q, r := DivideKnuth(n, nLen, d, dLen);
    }
    ModUnique(Val(n), Val(d), Val(q), Val(r));
    res := Ok((q, r));
  }
}
