/**
 * Radix conversion of the magnitude engine (source file util.js): the
 * per-radix batch tables, toString and fromString.  toString peels off
 * RADIX_INT32_INDEX[r] digits at a time by dividing by r to that power;
 * fromString folds RADIX_INT16_INDEX[r] digits at a time into a fixed-size
 * limb buffer.  A char is one UTF-16 code unit of the JavaScript string only
 * for text in the Basic Multilingual Plane, so outside it lengths and groups
 * differ; digits are the ASCII alphanumerics that JavaScript's parseInt and
 * Number.prototype.toString use.
 */
module Radix {
  import opened Numbers
  import opened Limbs
  import opened Results
  import opened Util
  import opened Bitwise
  import opened Division

  /** RADIX_DIVISOR32_INDEX: r to the RADIX_INT32_INDEX[r] as the signed Int16 pair (low, high). */
  const RADIX_DIVISOR32_INDEX: seq<seq<int>> :=
    [[], [],
     [0, 16384], [-19493, 17734], [0, 16384],
     [29589, 18626], [-10240, 5535], [-25449, 30171],
     [0, 16384], [-28343, 5911], [-13824, 15258],
     [-9375, 3270], [0, 6561], [4129, 12447],
     [-16128, 22518], [7023, 2607], [0, 4096],
     [17777, 6261], [-17280, 9341], [26235, 13639],
     [16384, 19531], [28189, 27482], [2624, 1730],
     [-9935, 2258], [0, 2916], [19025, 3725],
     [-20928, 4713], [-28343, 5911], [4096, 7353],
     [18585, 9076], [-22464, 11123], [15169, 13542],
     [0, 16384], [15553, 19706], [-10176, 23571],
     [-19175, 28049], [-23552, 922]]

  /** RADIX_DIVISOR16_INDEX: r to the RADIX_INT16_INDEX[r]. */
  const RADIX_DIVISOR16_INDEX: seq<nat> :=
    [0, 0,
     16384, 19683, 16384, 15625, 7776,  16807, 4096,  6561,  10000, 14641,
     20736, 28561, 2744,  3375,  4096,  4913,  5832,  6859,  8000,  9261,
     10648, 12167, 13824, 15625, 17576, 19683, 21952, 24389, 27000, 29791,
     1024,  1089,  1156,  1225,  1296]

  /** RADIX_INT32_INDEX: the digits that toString handles per division. */
  const RADIX_INT32_INDEX: seq<nat> :=
    [0, 0,
     30, 19, 15, 13, 11, 11, 10, 9, 9, 8,
     8,  8,  8,  7,  7,  7,  7,  7, 7, 7,
     6,  6,  6,  6,  6,  6,  6,  6, 6, 6,
     6,  6,  6,  6,  5]

  /** RADIX_INT16_INDEX: the digits that fromString handles per step. */
  const RADIX_INT16_INDEX: seq<nat> :=
    [0, 0,
     14, 9, 7, 6, 5, 5, 4, 4, 4, 4,
     4,  4, 3, 3, 3, 3, 3, 3, 3, 3,
     3,  3, 3, 3, 3, 3, 3, 3, 3, 3,
     2,  2, 2, 2, 2]

  /**
   * RADIX_BIT_INDEX in thousandths: the bits per digit, log2 r rounded up
   * to three decimals (the source stores the decimals as numbers).
   */
  const RADIX_BIT_INDEX_MILLI: seq<nat> :=
    [0, 0,
     1000, 1585, 2000, 2322, 2585, 2808, 3000, 3170, 3322, 3460,
     3585, 3701, 3808, 3907, 4000, 4088, 4170, 4248, 4322, 4393,
     4460, 4524, 4585, 4644, 4701, 4755, 4808, 4858, 4907, 4955,
     5000, 5045, 5088, 5130, 5170]

  /** ZERO_STRING: the padding source for toString's digit groups. */
  const ZERO_STRING: string := "00000000000000000000000000000"

  /** The radix divisor as divide reads it: each Int16 cell masked to 16 bits. */
  function Divisor32(r: nat): (d: seq<Limb>)
    requires 2 <= r <= 36
    ensures |d| == 2
  {
    [RADIX_DIVISOR32_INDEX[r][0] % BASE, RADIX_DIVISOR32_INDEX[r][1] % BASE]
  }

  /**
   * The facts about one radix r in 2..36: each table entry is the stated
   * power of r, and its exponent is the largest whose power stays below 2^31
   * (the 32-bit tables) or below 2^15 (the 16-bit tables).
   */
  predicate TableRow(r: nat)
    requires 2 <= r <= 36
  {
    && 1 <= RADIX_INT32_INDEX[r] <= 30 && 1 <= RADIX_INT16_INDEX[r]
    && Normalized(Divisor32(r)) && Val(Divisor32(r)) == Pow(r, RADIX_INT32_INDEX[r])
    && Pow(r, RADIX_INT32_INDEX[r]) < 0x8000_0000 <= r * Pow(r, RADIX_INT32_INDEX[r])
    && RADIX_DIVISOR16_INDEX[r] == Pow(r, RADIX_INT16_INDEX[r])
    && Pow(r, RADIX_INT16_INDEX[r]) < 0x8000 <= r * Pow(r, RADIX_INT16_INDEX[r])
  }

  /** The radix tables hold for every radix in 2..36. */
  lemma {:induction false} RadixTables(r: nat)
    requires 2 <= r <= 36
    ensures 1 <= RADIX_INT32_INDEX[r] <= 30 && 1 <= RADIX_INT16_INDEX[r]
    ensures Normalized(Divisor32(r)) && Val(Divisor32(r)) == Pow(r, RADIX_INT32_INDEX[r])
    ensures Pow(r, RADIX_INT32_INDEX[r]) < 0x8000_0000 <= Pow(r, RADIX_INT32_INDEX[r] + 1)
    ensures RADIX_DIVISOR16_INDEX[r] == Pow(r, RADIX_INT16_INDEX[r])
    ensures Pow(r, RADIX_INT16_INDEX[r]) < 0x8000 <= Pow(r, RADIX_INT16_INDEX[r] + 1)
  {
    if r < 19 {
      TableRowsBelow19(r);
    } else {
      TableRowsFrom19(r);
    }
    assert TableRow(r);
  }

  // Digit strings

  /** The digit character Number.prototype.toString writes for a digit value below 36. */
  function DigitChar(d: nat): char
    requires d < 36
  {
    if d < 10 then (48 + d) as char else (87 + d) as char
  }

  /** The value parseInt reads from a character in radix r, or None when it is no digit of r. */
  function DigitValue(c: char, r: nat): (d: Option<nat>)
    ensures d.Some? ==> d.value < r
  {
    var v: int :=
      if '0' <= c <= '9' then c as int - 48
      else if 'a' <= c <= 'z' then c as int - 87
      else if 'A' <= c <= 'Z' then c as int - 55
      else 36;
    if v < r then Some(v) else None
  }

  predicate AllDigits(s: string, r: nat)
  {
    forall i :: 0 <= i < |s| ==> DigitValue(s[i], r).Some?
  }

  /** The number a string of radix-r digits denotes, most significant digit first. */
  function DigitsValue(s: string, r: nat): (v: nat)
    requires AllDigits(s, r)
    ensures v < Pow(r, |s|)
  {
    if |s| == 0 then 0
    else
      var p := s[..|s| - 1];
      assert AllDigits(p, r);
      var d := DigitValue(s[|s| - 1], r).value;
      BelowPowStep(DigitsValue(p, r), d, r, |p|);
      MulNonNegative(DigitsValue(p, r), r);
      DigitsValue(p, r) * r + d
  }

  /** One more digit below r keeps a number below the next power of r. */
  lemma {:induction false} BelowPowStep(x: nat, d: nat, r: nat, n: nat)
    requires x < Pow(r, n) && d < r
    ensures x * r + d < Pow(r, n + 1)
  {
    MulLe(x, Pow(r, n) - 1, r);
    MulDistributes(r, Pow(r, n), -1);
  }

  /**
   * Number.prototype.toString(r) of a non-negative integer: it denotes v in
   * radix r and has no leading zero.
   */
  function Digits(v: nat, r: nat): (s: string)
    requires 2 <= r <= 36
    ensures |s| >= 1 && AllDigits(s, r) && DigitsValue(s, r) == v
    decreases v
  {
    if v < r then
      DigitOfChar(v, r);
      assert [DigitChar(v)][..0] == [];
      [DigitChar(v)]
    else
      QuotientShrinks(v, r);
      DigitsAppend(Digits(v / r, r), v, r);
      Digits(v / r, r) + [DigitChar(v % r)]
  }

  /** Writing the last digit of v after the digits of v / r gives the digits of v. */
  lemma {:induction false} DigitsAppend(t: string, v: nat, r: nat)
    requires 2 <= r <= 36 && AllDigits(t, r) && DigitsValue(t, r) == v / r
    ensures AllDigits(t + [DigitChar(v % r)], r) && DigitsValue(t + [DigitChar(v % r)], r) == v
  {
    DigitOfChar(v % r, r);
    var s := t + [DigitChar(v % r)];
    assert AllDigits(s, r) by {
      assert forall i :: 0 <= i < |t| ==> s[i] == t[i];
    }
    assert s[..|s| - 1] == t;
    DivMod(v, r);
  }

  /** parseInt reads back the digit toString writes. */
  lemma {:induction false} DigitOfChar(d: nat, r: nat)
    requires d < r <= 36
    ensures DigitValue(DigitChar(d), r) == Some(d)
  {
  }

  /** The digits of a positive v start with a nonzero digit, so their count is fixed by v. */
  lemma {:induction false} DigitsLength(v: nat, r: nat)
    requires 2 <= r <= 36
    ensures |Digits(v, r)| == 1 || Digits(v, r)[0] != '0'
    ensures v > 0 ==> Pow(r, |Digits(v, r)| - 1) <= v < Pow(r, |Digits(v, r)|)
    decreases v
  {
    if v >= r {
      var h := v / r;
      QuotientShrinks(v, r);
      QuotientPositive(v, r);
      DigitsLength(h, r);
      var n := |Digits(h, r)|;
      assert |Digits(v, r)| == n + 1;
      assert Digits(v, r)[0] == Digits(h, r)[0];
      DigitCountStep(v, r, n);
    }
  }

  lemma {:induction false} QuotientPositive(v: nat, r: nat)
    requires 0 < r <= v
    ensures v / r >= 1
  {
  }

  /** Bounds on v / r by powers of r give bounds on v one power higher. */
  lemma {:induction false} DigitCountStep(v: nat, r: nat, n: nat)
    requires 2 <= r && n >= 1 && Pow(r, n - 1) <= v / r < Pow(r, n)
    ensures Pow(r, n) <= v < Pow(r, n + 1)
  {
    var h := v / r;
    DivMod(v, r);
    MulLe(Pow(r, n - 1), h, r);
    MulLe(h + 1, Pow(r, n), r);
    MulDistributes(r, h, 1);
    MulCommutes(r, h);
  }

  /** A value below r^k has at most k digits. */
  lemma {:induction false} DigitsFit(v: nat, k: nat, r: nat)
    requires 2 <= r <= 36 && k >= 1 && v < Pow(r, k)
    ensures |Digits(v, r)| <= k
  {
    DigitsLength(v, r);
    var n := |Digits(v, r)|;
    if v > 0 && n > k {
      PowMonotone(r, k, n - 1);
    }
  }

  function ZeroChars(n: nat): (z: string)
    ensures |z| == n && forall i :: 0 <= i < n ==> z[i] == '0'
  {
    seq(n, _ => '0')
  }

  /** The digits of v left-padded with zeros to k characters, as toString writes each later group. */
  function Padded(v: nat, k: nat, r: nat): (s: string)
    requires 2 <= r <= 36 && |Digits(v, r)| <= k
    ensures |s| == k
  {
    ZeroChars(k - |Digits(v, r)|) + Digits(v, r)
  }

  /** Dropping the last digit of a padded group leaves the padded quotient by r. */
  lemma {:induction false} PaddedStep(rem: nat, k: nat, r: nat)
    requires 2 <= r <= 36 && k >= 2 && rem < Pow(r, k)
    ensures |Digits(rem, r)| <= k && |Digits(rem / r, r)| <= k - 1
    ensures Padded(rem, k, r) == Padded(rem / r, k - 1, r) + [DigitChar(rem % r)]
  {
    PaddedBounds(rem, k, r);
    if rem < r {
      DivSmall(rem, r);
      assert Digits(0, r) == ['0'];
      assert ZeroChars(k - 2) + ['0'] == ZeroChars(k - 1);
    } else {
      assert Digits(rem, r) == Digits(rem / r, r) + [DigitChar(rem % r)];
      assert ZeroChars(k - |Digits(rem, r)|) == ZeroChars(k - 1 - |Digits(rem / r, r)|);
    }
  }

  lemma {:induction false} PaddedBounds(rem: nat, k: nat, r: nat)
    requires 2 <= r <= 36 && k >= 2 && rem < Pow(r, k)
    ensures |Digits(rem, r)| <= k && |Digits(rem / r, r)| <= k - 1
  {
    DigitsFit(rem, k, r);
    QuotientBelowPow(rem, r, k);
    DigitsFit(rem / r, k - 1, r);
  }

  lemma {:induction false} QuotientBelowPow(x: nat, r: nat, k: nat)
    requires r >= 1 && k >= 1 && x < Pow(r, k)
    ensures x / r < Pow(r, k - 1)
  {
    assert Pow(r, k) == r * Pow(r, k - 1);
    QuotientBelow(x, r, Pow(r, k - 1));
  }

  /**
   * The digits of q r^k + rem for a positive q and rem < r^k: the digits of q
   * followed by rem padded to k digits.  This is why toString may write its
   * groups separately.
   */
  lemma {:induction false} DigitsJoin(q: nat, rem: nat, k: nat, r: nat, w: nat)
    requires 2 <= r <= 36 && q > 0 && k >= 1 && rem < Pow(r, k) && w == q * Pow(r, k) + rem
    ensures |Digits(rem, r)| <= k
    ensures Digits(w, r) == Digits(q, r) + Padded(rem, k, r)
    decreases k
  {
    DigitsFit(rem, k, r);
    var h := JoinStep(q, rem, k, r, w);
    assert Digits(w, r) == Digits(h, r) + [DigitChar(rem % r)];
    if k == 1 {
      DivSmall(rem, r);
    } else {
      PaddedStep(rem, k, r);
      DigitsJoin(q, rem / r, k - 1, r, h);
    }
  }

  /** The last digit of q r^k + rem is that of rem, and the rest is q r^(k-1) + rem / r. */
  lemma {:induction false} JoinStep(q: nat, rem: nat, k: nat, r: nat, w: nat) returns (h: nat)
    requires 2 <= r <= 36 && q > 0 && k >= 1 && rem < Pow(r, k) && w == q * Pow(r, k) + rem
    ensures h == q * Pow(r, k - 1) + rem / r && h >= 1 && w >= r && w / r == h && w % r == rem % r
    ensures k == 1 ==> h == q
    ensures k >= 2 ==> rem / r < Pow(r, k - 1)
  {
    var p := Pow(r, k - 1);
    assert Pow(r, k) == r * p;
    PowPositive(r, k - 1);
    DivMod(rem, r);
    h := q * p + rem / r;
    assert h >= 1 by {
      MulAtLeast(q, p);
    }
    assert w == h * r + rem % r by {
      JoinArith(q, p, r, rem / r, rem % r, rem, w);
    }
    ModUnique(w, r, h, rem % r);
    assert w >= r by {
      MulAtLeast(h, r);
    }
    if k == 1 {
      DivSmall(rem, r);
    } else {
      QuotientBelow(rem, r, p);
    }
  }

  lemma {:induction false} JoinArith(q: int, p: int, r: int, a: int, b: int, rem: int, w: int)
    requires rem == b + a * r && w == q * (r * p) + rem
    ensures w == (q * p + a) * r + b
  {
    MulCommutes(r, p);
    MulAssociates(q, p, r);
    MulCommutes(q * p + a, r);
    MulDistributes(r, q * p, a);
    MulCommutes(r, q * p);
    MulCommutes(r, a);
  }

  /** x < r p gives x / r < p. */
  lemma {:induction false} QuotientBelow(x: nat, r: nat, p: nat)
    requires r > 0 && x < r * p
    ensures x / r < p
  {
    DivMod(x, r);
    if x / r >= p {
      MulLe(p, x / r, r);
      MulCommutes(r, x / r);
    }
  }

  /** The radix toString writes in: the requested one when it lies in 2..36, else 10. */
  function OutputRadix(radix: int): (r: nat)
    ensures 2 <= r <= 36
    ensures 2 <= radix <= 36 ==> r == radix
  {
    if 2 <= radix <= 36 then radix else 10
  }

  /**
   * toString: the sign and digits of aSigNum times the magnitude a.  The
   * magnitude is divided by r^RADIX_INT32_INDEX[r] until the quotient is
   * zero; each remainder but the last is written zero-padded to its full
   * group width, in front of the groups already written.
   */
  method ToString(aSigNum: int, a: seq<Limb>, radix: int) returns (s: string)
    requires Normalized(a)
    ensures s == (if aSigNum < 0 then "-" else "") + Digits(Val(a), OutputRadix(radix))
  {
    var aRadix := OutputRadix(radix);
    RadixTables(aRadix);
    var aString := "";
    var dArray := Divisor32(aRadix);
    var remLen := RADIX_INT32_INDEX[aRadix];
    ghost var b := Pow(aRadix, remLen);
    var quotRem := Divide(a, dArray);
    var q, rm := quotRem.value.0, quotRem.value.1;
    DivMod(Val(a), b);
    SmallToInt32(rm, b);
    var strVal := Digits(ToInt32(rm), aRadix);
    ghost var w: nat := Val(a);
    while !IsZero(q)
      invariant Normalized(q) && Val(rm) < b
      invariant w == Val(q) * b + Val(rm)
      invariant strVal == Digits(Val(rm), aRadix)
      invariant Digits(w, aRadix) + aString == Digits(Val(a), aRadix)
      decreases Val(q)
    {
      ghost var vq := Val(q);
      GroupStep(vq, Val(rm), remLen, aRadix, w, aString, Digits(Val(a), aRadix));
      aString := ZERO_STRING[..remLen - |strVal|] + strVal + aString;
      quotRem := Divide(q, dArray);
      q, rm := quotRem.value.0, quotRem.value.1;
      DivMod(vq, b);
      QuotientShrinks(vq, b);
      MulCommutes(vq / b, b);
      w := vq;
      SmallToInt32(rm, b);
      strVal := Digits(ToInt32(rm), aRadix);
    }
    ZeroQuotient(w, Val(q), b, Val(rm));
    aString := strVal + aString;
    if aSigNum < 0 {
      aString := "-" + aString;
    } else {
      assert "" + aString == aString;
    }
    s := aString;
  }

  /** Dividing a positive number by at least 2 makes it smaller. */
  lemma {:induction false} QuotientShrinks(a: nat, b: nat)
    requires a > 0 && b >= 2
    ensures a / b < a
  {
    MulAtLeast(b - 1, a);
    MulDistributes(a, b - 1, 1);
    MulCommutes(a, b);
    QuotientBelow(a, b, a);
  }

  lemma {:induction false} ZeroQuotient(w: int, vq: int, b: int, vr: int)
    requires w == vq * b + vr && vq == 0
    ensures w == vr
  {
  }

  /** A remainder below 2^31 is its own toInt32. */
  lemma {:induction false} SmallToInt32(rm: seq<Limb>, b: nat)
    requires Val(rm) < b < 0x8000_0000
    ensures ToInt32(rm) == Val(rm)
  {
  }

  /**
   * One turn of toString's loop: with the quotient vq still positive, the
   * padded group of the remainder vr moves from the number into the string.
   */
  lemma {:induction false} GroupStep(vq: nat, vr: nat, k: nat, r: nat, w: nat, tail: string, target: string)
    requires 2 <= r <= 36 && vq > 0 && 1 <= k <= 30 && vr < Pow(r, k) && w == vq * Pow(r, k) + vr
    requires Digits(w, r) + tail == target
    ensures |Digits(vr, r)| <= k <= |ZERO_STRING| + |Digits(vr, r)|
    ensures Digits(vq, r) + (ZERO_STRING[..k - |Digits(vr, r)|] + Digits(vr, r) + tail) == target
  {
    DigitsJoin(vq, vr, k, r, w);
    ZeroStringPrefix(k - |Digits(vr, r)|);
  }

  /** The first m characters of ZERO_STRING are m zeros. */
  lemma {:induction false} ZeroStringPrefix(m: nat)
    requires m <= |ZERO_STRING|
    ensures ZERO_STRING[..m] == ZeroChars(m)
  {
  }

  // Parsing

  /** The length of the longest prefix of g made of radix-r digits. */
  function DigitPrefix(g: string, r: nat): (n: nat)
    ensures n <= |g| && AllDigits(g[..n], r)
    ensures n == |g| || DigitValue(g[n], r).None?
    decreases |g|
  {
    if |g| == 0 || DigitValue(g[0], r).None? then 0
    else
      var m := DigitPrefix(g[1..], r);
      assert g[..1 + m] == [g[0]] + g[1..][..m];
      1 + m
  }

  /**
   * parseInt(g, r) on a piece of a digit string: the value of the longest
   * prefix of radix-r digits, or None (NaN) when g does not start with one.
   */
  function ParseInt(g: string, r: nat): (x: Option<nat>)
    ensures x.None? <==> |g| == 0 || DigitValue(g[0], r).None?
    ensures x.Some? ==> x.value < Pow(r, |g|)
    ensures AllDigits(g, r) && |g| > 0 ==> x == Some(DigitsValue(g, r))
  {
    var n := DigitPrefix(g, r);
    if n == 0 then None
    else
      assert g[..n][0] == g[0];
      PowMonotone(r, n, |g|);
      assert AllDigits(g, r) ==> g[..n] == g;
      Some(DigitsValue(g[..n], r))
  }

  /** Where fromString's first digit group ends: |s| mod k characters, or k when that is 0, within the string. */
  function FirstGroupEnd(n: nat, k: nat): (f: nat)
    requires k >= 1
    ensures f <= n && f <= k && (n - f) % k == 0
    ensures n > 0 ==> f >= 1
  {
    var slice := if n % k == 0 then k else n % k;
    if slice <= n then
      RemainderGroups(n, k, slice);
      slice
    else n
  }

  /**
   * fromString's reading of the digit groups after the first, each k long,
   * into acc: every group multiplies acc by m and adds its parseInt value,
   * and a group parseInt rejects is the error "Is not a number".  fromString
   * takes k from RADIX_INT16_INDEX[r] and m from RADIX_DIVISOR16_INDEX[r].
   * As with String.prototype.slice, a group that would run past the end of t
   * is cut at the end.
   */
  function FoldGroups(acc: nat, t: string, r: nat, k: nat, m: nat): (v: Result<nat>)
    requires 2 <= r <= 36 && k >= 1
    ensures v.Err? ==> v.error == NotANumber
    decreases |t|
  {
    if |t| == 0 then Ok(acc)
    else
      var e := Min(k, |t|);
      match ParseInt(t[..e], r)
      case None => Err(NotANumber)
      case Some(x) =>
        MulNonNegative(acc, m);
        FoldGroups(acc * m + x, t[e..], r, k, m)
  }

  /**
   * The number fromString reads from s in radix r, before it is cut to the
   * limb buffer.  A first group parseInt rejects is stored as Int16 0 and so
   * reads as 0; a later one is an error.
   */
  function ParseGroups(s: string, r: nat): (v: Result<nat>)
    requires 2 <= r <= 36
    ensures v.Err? ==> v.error == NotANumber
  {
    GroupLength(r);
    var k := RADIX_INT16_INDEX[r];
    var f := FirstGroupEnd(|s|, k);
    var first := ParseInt(s[..f], r);
    FoldGroups(if first.Some? then first.value else 0, s[f..], r, k, RADIX_DIVISOR16_INDEX[r])
  }

  /** Taking n mod k, or k when that is 0 and fits, from n leaves a multiple of k. */
  lemma {:induction false} RemainderGroups(n: nat, k: nat, slice: nat)
    requires k >= 1 && slice <= n && slice == (if n % k == 0 then k else n % k)
    ensures (n - slice) % k == 0
  {
    DivMod(n, k);
    if n % k == 0 {
      MulDistributes(k, n / k, -1);
      MulCommutes(k, n / k);
      MulCommutes(k, n / k - 1);
      ModUnique(n - slice, k, n / k - 1, 0);
    } else {
      ModUnique(n - slice, k, n / k, 0);
    }
  }

  lemma {:induction false} GroupLength(r: nat)
    requires 2 <= r <= 36
    ensures 1 <= RADIX_INT16_INDEX[r] <= 15 && RADIX_DIVISOR16_INDEX[r] >= 2
  {
  }

  lemma {:induction false} QuotientOfMultiple(n: nat, k: nat)
    requires k >= 1 && n > 0 && n % k == 0
    ensures n / k >= 1
  {
  }

  /** A positive multiple n of k holds a group of k and a multiple of k after it. */
  lemma {:induction false} GroupSplit(n: nat, k: nat)
    requires k >= 1 && n > 0 && n % k == 0
    ensures k <= n && (n - k) % k == 0
  {
    DivMod(n, k);
    QuotientOfMultiple(n, k);
    MulAtLeast(n / k, k);
    ModUnique(n - k, k, n / k - 1, 0);
  }

  /** Reading a digit string in two pieces: the front piece counts r^|b| times. */
  lemma {:induction false} DigitsConcat(a: string, b: string, r: nat)
    requires AllDigits(a, r) && AllDigits(b, r)
    ensures AllDigits(a + b, r)
    ensures DigitsValue(a + b, r) == DigitsValue(a, r) * Pow(r, |b|) + DigitsValue(b, r)
    decreases |b|
  {
    assert AllDigits(a + b, r) by {
      assert forall i :: 0 <= i < |a + b| ==> (a + b)[i] == if i < |a| then a[i] else b[i - |a|];
    }
    if |b| == 0 {
      assert a + b == a;
    } else {
      var b' := b[..|b| - 1];
      var ab := a + b;
      assert ab[..|ab| - 1] == a + b' && ab[|ab| - 1] == b[|b| - 1];
      var d := DigitValue(b[|b| - 1], r).value;
      DigitsValueLast(ab, r);
      DigitsValueLast(b, r);
      DigitsConcat(a, b', r);
      MulCommutes(r, Pow(r, |b'|));
      ConcatArith(DigitsValue(a, r), DigitsValue(b', r), d, r, Pow(r, |b'|));
    }
  }

  /** A digit string read as its front digits followed by its last digit. */
  lemma {:induction false} DigitsValueLast(s: string, r: nat)
    requires AllDigits(s, r) && |s| > 0
    ensures AllDigits(s[..|s| - 1], r)
    ensures DigitsValue(s, r) == DigitsValue(s[..|s| - 1], r) * r + DigitValue(s[|s| - 1], r).value
  {
  }

  lemma {:induction false} ConcatArith(x: int, y: int, d: int, r: int, p: int)
    ensures (x * p + y) * r + d == x * (p * r) + (y * r + d)
  {
    MulAssociates(x, p, r);
    MulCommutes(x * p + y, r);
    MulDistributes(r, x * p, y);
    MulCommutes(r, x * p);
    MulCommutes(r, y);
  }

  /** RADIX_DIVISOR16_INDEX[r] is r to the RADIX_INT16_INDEX[r]. */
  lemma {:induction false} GroupTable(r: nat)
    requires 2 <= r <= 36
    ensures 1 <= RADIX_INT16_INDEX[r] <= 15
    ensures RADIX_DIVISOR16_INDEX[r] == Pow(r, RADIX_INT16_INDEX[r]) < 0x8000
  {
    GroupLength(r);
    RadixTables(r);
  }

  /** Folding groups of digits into acc appends their digits to acc in radix r. */
  lemma {:induction false} FoldDigits(acc: nat, t: string, r: nat, k: nat, m: nat, total: nat)
    requires 2 <= r <= 36 && k >= 1 && |t| % k == 0 && m == Pow(r, k) && AllDigits(t, r)
    requires total == acc * Pow(r, |t|) + DigitsValue(t, r)
    ensures FoldGroups(acc, t, r, k, m) == Ok(total)
    decreases |t|
  {
    if |t| > 0 {
      var acc' := FoldDigitStep(acc, t, r, k, m, total);
      FoldDigits(acc', t[k..], r, k, m, total);
    }
  }

  /** The first group of a digit string moves into the accumulator without changing what the rest must add up to. */
  lemma {:induction false} FoldDigitStep(acc: nat, t: string, r: nat, k: nat, m: nat, total: nat) returns (acc': nat)
    requires 2 <= r <= 36 && k >= 1 && |t| % k == 0 && |t| > 0 && m == Pow(r, k) && AllDigits(t, r)
    requires total == acc * Pow(r, |t|) + DigitsValue(t, r)
    ensures k <= |t| && (|t| - k) % k == 0 && AllDigits(t[k..], r)
    ensures FoldGroups(acc, t, r, k, m) == FoldGroups(acc', t[k..], r, k, m)
    ensures total == acc' * Pow(r, |t| - k) + DigitsValue(t[k..], r)
  {
    GroupSplit(|t|, k);
    acc' := FoldStep(acc, t, r, k, m);
    var g, t' := t[..k], t[k..];
    assert AllDigits(g, r) && AllDigits(t', r);
    assert t == g + t';
    var x := DigitsValue(g, r);
    assert acc' == acc * m + x;
    DigitsConcat(g, t', r);
    PowSplit(r, k, |t|);
    FoldCombine(acc, m, x, Pow(r, |t'|), DigitsValue(t', r), acc', Pow(r, |t|), DigitsValue(t, r));
  }

  lemma {:induction false} PowSplit(r: nat, k: nat, n: nat)
    requires k <= n
    ensures Pow(r, n) == Pow(r, k) * Pow(r, n - k)
  {
    PowAdd(r, k, n - k);
  }

  lemma {:induction false} FoldCombine(acc: int, m: int, x: int, p: int, y: int, acc': int, q: int, z: int)
    requires acc' == acc * m + x && q == m * p && z == x * p + y
    ensures acc' * p + y == acc * q + z
  {
    FoldArith(acc, m, x, p, y);
  }

  lemma {:induction false} FoldArith(acc: int, m: int, x: int, p: int, y: int)
    ensures (acc * m + x) * p + y == acc * (m * p) + (x * p + y)
  {
    MulCommutes(acc * m + x, p);
    MulDistributes(p, acc * m, x);
    MulCommutes(p, acc * m);
    MulCommutes(p, x);
    MulAssociates(acc, m, p);
  }

  /** A string of radix-r digits reads as the number it denotes, without error. */
  lemma {:induction false} ParseGroupsDigits(s: string, r: nat)
    requires 2 <= r <= 36 && AllDigits(s, r)
    ensures ParseGroups(s, r) == Ok(DigitsValue(s, r))
  {
    GroupTable(r);
    var k := RADIX_INT16_INDEX[r];
    var f := FirstGroupEnd(|s|, k);
    assert AllDigits(s[..f], r) && AllDigits(s[f..], r);
    assert s == s[..f] + s[f..];
    var first := DigitsValue(s[..f], r);
    assert ParseInt(s[..f], r) == if f == 0 then None else Some(first);
    DigitsConcat(s[..f], s[f..], r);
    FoldDigits(first, s[f..], r, k, RADIX_DIVISOR16_INDEX[r], DigitsValue(s, r));
  }

  /** fromString reads back what toString writes. */
  lemma {:induction false} ParseDigits(v: nat, r: nat)
    requires 2 <= r <= 36
    ensures ParseGroups(Digits(v, r), r) == Ok(v)
  {
    ParseGroupsDigits(Digits(v, r), r);
  }

  /** Leading zeros do not change the number a digit string denotes. */
  lemma {:induction false} LeadingZeros(m: nat, s: string, r: nat)
    requires 2 <= r <= 36 && AllDigits(s, r)
    ensures AllDigits(ZeroChars(m) + s, r) && DigitsValue(ZeroChars(m) + s, r) == DigitsValue(s, r)
  {
    ZerosValue(m, r);
    DigitsConcat(ZeroChars(m), s, r);
  }

  lemma {:induction false} ZerosValue(m: nat, r: nat)
    requires 2 <= r <= 36
    ensures AllDigits(ZeroChars(m), r) && DigitsValue(ZeroChars(m), r) == 0
    decreases m
  {
    if m > 0 {
      assert ZeroChars(m)[..m - 1] == ZeroChars(m - 1);
      ZerosValue(m - 1, r);
    }
  }

  /** Group j of t, counted in characters, starts with a character that is no radix-r digit. */
  predicate GroupRejected(t: string, j: nat, r: nat, k: nat)
    requires 2 <= r <= 36 && k >= 1
  {
    j < |t| && j % k == 0 && DigitValue(t[j], r).None?
  }

  /** Folding groups fails exactly when some group starts with a non-digit. */
  lemma {:induction false} FoldGroupsRejects(acc: nat, t: string, r: nat, k: nat, m: nat)
    requires 2 <= r <= 36 && k >= 1
    ensures FoldGroups(acc, t, r, k, m).Err? <==> exists j: nat :: GroupRejected(t, j, r, k)
    decreases |t|
  {
    if |t| == 0 {
      assert forall j: nat :: !GroupRejected(t, j, r, k);
    } else if DigitValue(t[0], r).None? {
      var _ := FoldStep(acc, t, r, k, m);
      assert GroupRejected(t, 0, r, k);
    } else {
      var acc' := FoldStep(acc, t, r, k, m);
      FoldGroupsRejects(acc', t[Min(k, |t|)..], r, k, m);
      RejectedAfterFirst(t, r, k);
    }
  }

  /**
   * One group of the fold: a rejected first group is the error, an accepted
   * one moves into the accumulator, which is returned.
   */
  lemma {:induction false} FoldStep(acc: nat, t: string, r: nat, k: nat, m: nat) returns (acc': nat)
    requires 2 <= r <= 36 && k >= 1 && |t| > 0
    ensures DigitValue(t[0], r).None? ==> FoldGroups(acc, t, r, k, m) == Err(NotANumber)
    ensures DigitValue(t[0], r).Some? ==>
      && ParseInt(t[..Min(k, |t|)], r).Some?
      && acc' == acc * m + ParseInt(t[..Min(k, |t|)], r).value
      && FoldGroups(acc, t, r, k, m) == FoldGroups(acc', t[Min(k, |t|)..], r, k, m)
  {
    var e := Min(k, |t|);
    assert t[..e][0] == t[0];
    acc' := 0;
    if DigitValue(t[0], r).Some? {
      MulNonNegative(acc, m);
      acc' := acc * m + ParseInt(t[..e], r).value;
    }
  }

  /** When the first group of t is accepted, the rejected groups of t are those of the rest, shifted. */
  lemma {:induction false} RejectedAfterFirst(t: string, r: nat, k: nat)
    requires 2 <= r <= 36 && k >= 1 && |t| > 0 && DigitValue(t[0], r).Some?
    ensures (exists j: nat :: GroupRejected(t, j, r, k)) <==> exists j: nat :: GroupRejected(t[Min(k, |t|)..], j, r, k)
  {
    var t' := t[Min(k, |t|)..];
    if exists j: nat :: GroupRejected(t', j, r, k) {
      var j: nat :| GroupRejected(t', j, r, k);
      GroupShift(j, k);
      assert GroupRejected(t, j + k, r, k);
    }
    if exists j: nat :: GroupRejected(t, j, r, k) {
      var j: nat :| GroupRejected(t, j, r, k);
      assert j != 0;
      GroupUnshift(j, k);
      assert GroupRejected(t', j - k, r, k);
    }
  }

  lemma {:induction false} GroupShift(j: nat, k: nat)
    requires k >= 1 && j % k == 0
    ensures (j + k) % k == 0
  {
    DivMod(j, k);
    ModUnique(j + k, k, j / k + 1, 0);
  }

  lemma {:induction false} GroupUnshift(j: nat, k: nat)
    requires k >= 1 && j > 0 && j % k == 0
    ensures j >= k && (j - k) % k == 0
  {
    GroupSplit(j, k);
  }

  /** The group of s after the first that starts at character j starts with a character that is no radix-r digit. */
  predicate LaterGroupRejected(s: string, j: nat, r: nat)
    requires 2 <= r <= 36
  {
    GroupLength(r);
    var k := RADIX_INT16_INDEX[r];
    var f := FirstGroupEnd(|s|, k);
    f <= j && GroupRejected(s[f..], j - f, r, k)
  }

  /**
   * fromString fails exactly when a group after the first starts with a
   * character that is no radix-r digit.
   */
  lemma {:induction false} ParseGroupsRejects(s: string, r: nat)
    requires 2 <= r <= 36
    ensures ParseGroups(s, r).Err? <==> exists j: nat :: LaterGroupRejected(s, j, r)
  {
    GroupLength(r);
    var k := RADIX_INT16_INDEX[r];
    var f := FirstGroupEnd(|s|, k);
    var first := ParseInt(s[..f], r);
    FoldGroupsRejects(if first.Some? then first.value else 0, s[f..], r, k, RADIX_DIVISOR16_INDEX[r]);
    if exists j: nat :: GroupRejected(s[f..], j, r, k) {
      var j: nat :| GroupRejected(s[f..], j, r, k);
      assert LaterGroupRejected(s, j + f, r);
    }
  }

  /** A first group with no digit reads as 0 (the Int16 store of NaN); a later one is an error. */
  lemma {:induction false} FirstGroupExamples()
    ensures ParseGroups("z", 10) == Ok(0)
    ensures ParseGroups("1z", 10) == Ok(1)
    ensures ParseGroups("1z234", 10) == Err(NotANumber)
    ensures ParseGroups("12z34", 10) == Ok(10002)
  {
    assert RADIX_INT16_INDEX[10] == 4 && RADIX_DIVISOR16_INDEX[10] == 10000;
    assert DigitPrefix("z34", 10) == 0;
    assert DigitPrefix("2z34", 10) == 1;
    assert ParseInt("2z34", 10) == Some(2);
    assert "12z34"[1..] == "2z34" && "2z34"[..4] == "2z34" && "2z34"[4..] == "";
  }

  /**
   * The limb count fromString allocates for n characters:
   * (n * RADIX_BIT_INDEX[r] + 16) >>> 4, with the table entry as its exact
   * decimal value in thousandths and >>> as a cut to 32 bits.
   */
  function Capacity(n: nat, r: nat): nat
    requires 2 <= r <= 36
  {
    ((n * RADIX_BIT_INDEX_MILLI[r] + 16000) / 1000) % UINT32 / 16
  }

  /**
   * fromString: reads s in radix r into a buffer of Capacity(|s|, r) limbs,
   * group by group, and trims it.  A later group with no leading digit is
   * the error "Is not a number"; otherwise the number read is cut to the
   * buffer, since the carries out of its top limb are dropped.
   */
  method FromString(aString: string, radix: nat) returns (res: Result<seq<Limb>>)
    requires 2 <= radix <= 36
    ensures res.Err? <==> ParseGroups(aString, radix).Err?
    ensures res.Err? ==> res.error == NotANumber
    ensures res.Ok? ==> Pow(BASE, Capacity(|aString|, radix)) > 0 && Normalized(res.value)
    ensures res.Ok? ==> Val(res.value) == ParseGroups(aString, radix).value % Pow(BASE, Capacity(|aString|, radix))
  {
    GroupTable(radix);
    var aStrLen := |aString|;
    var aLen := Capacity(aStrLen, radix);
    var aArray := new Limb[aLen](_ => 0);
    var radixMul := RADIX_DIVISOR16_INDEX[radix];
    var radixLen := RADIX_INT16_INDEX[radix];
    var aStrSlice := if aStrLen % radixLen == 0 then radixLen else aStrLen % radixLen;
    ghost var f := FirstGroupEnd(aStrLen, radixLen);
    var aVal := ParseInt(aString[0..Min(aStrSlice, aStrLen)], radix);
    ghost var acc: nat := if aVal.Some? then aVal.value else 0;
    GroupFits(aString[..f], radix, radixLen, radixMul, aVal);
    if aLen > 0 {
      aArray[0] := if aVal.Some? then aVal.value else 0;
    }
    FirstLimb(aArray[..], acc);
    var ok := ReadGroups(aArray, aString, aStrSlice, radix, radixLen, radixMul, acc);
    if !ok {
      return Err(NotANumber);
    }
    FromNatVal(ParseGroups(aString, radix).value, aLen);
    var r := TrimLeadingZeroes(aArray[..]);
    return Ok(r);
  }

  /**
   * fromString reads back what toString writes for a non-negative number
   * in a radix of 2..36, provided the buffer fromString allocates for that
   * many characters is long enough for the number.
   */
  method RoundTrip(a: seq<Limb>, radix: nat) returns (b: Result<seq<Limb>>)
    requires Normalized(a) && 2 <= radix <= 36
    requires Val(a) < Pow(BASE, Capacity(|Digits(Val(a), radix)|, radix))
    ensures b == Ok(a)
  {
    var s := ToString(1, a, radix);
    assert s == Digits(Val(a), radix);
    b := FromString(s, radix);
    ParseDigits(Val(a), radix);
    DivSmall(Val(a), Pow(BASE, Capacity(|s|, radix)));
    NormalizedUnique(b.value, a);
  }

  /**
   * fromString's main loop: from character start on, every group of k
   * characters is read with parseInt, the buffer is multiplied by m and the
   * group's value added to it.  The answer is false at the first group
   * parseInt rejects.
   */
  method ReadGroups(s: array<Limb>, aString: string, start: nat, r: nat, k: nat, m: nat, ghost acc: nat) returns (ok: bool)
    requires 2 <= r <= 36 && k >= 1 && m == Pow(r, k) && m < 0x8000 && s[..] == FromNat(acc, s.Length)
    modifies s
    ensures ok <==> FoldGroups(acc, aString[Min(start, |aString|)..], r, k, m).Ok?
    ensures ok ==> s[..] == FromNat(FoldGroups(acc, aString[Min(start, |aString|)..], r, k, m).value, s.Length)
  {
    var aStrLen := |aString|;
    var aStrIndex := start;
    ghost var pos := Min(start, aStrLen);
    ghost var cur := acc;
    ghost var target := FoldGroups(acc, aString[pos..], r, k, m);
    while aStrIndex < aStrLen
      invariant pos == Min(aStrIndex, aStrLen)
      invariant s[..] == FromNat(cur, s.Length)
      invariant FoldGroups(cur, aString[pos..], r, k, m) == target
      decreases aStrLen - aStrIndex
    {
      var read;
      ghost var next;
      read, next := ReadGroup(s, aString, aStrIndex, r, k, m, cur, target);
      if !read {
        return false;
      }
      cur := next;
      pos := Min(aStrIndex + k, aStrLen);
      aStrIndex := aStrIndex + k;
    }
    return true;
  }

  /**
   * One pass of fromString's main loop, on the group at character i: when
   * parseInt accepts it, the buffer is multiplied by m and the group's value
   * is added, so that the buffer holds the low limbs of the accumulator the
   * fold reaches after that group.
   */
  method ReadGroup(s: array<Limb>, aString: string, i: nat, r: nat, k: nat, m: nat, ghost acc: nat, ghost target: Result<nat>)
    returns (read: bool, ghost next: nat)
    requires 2 <= r <= 36 && k >= 1 && m == Pow(r, k) && m < 0x8000
    requires i < |aString| && s[..] == FromNat(acc, s.Length) && FoldGroups(acc, aString[i..], r, k, m) == target
    modifies s
    ensures !read ==> target.Err? && s[..] == old(s[..])
    ensures read ==> s[..] == FromNat(next, s.Length)
    ensures read ==> FoldGroups(next, aString[Min(i + k, |aString|)..], r, k, m) == target
  {
    var aVal := ParseInt(aString[i..Min(i + k, |aString|)], r);
    if aVal.None? {
      assert target.Err? by {
        var _, _ := GroupAt(aString, i, r, k, m, acc);
      }
      return false, 0;
    }
    MulNonNegative(acc, m);
    next := acc * m + aVal.value;
    assert aVal.value < 0x8000 && FoldGroups(next, aString[Min(i + k, |aString|)..], r, k, m) == target by {
      var _, _ := GroupAt(aString, i, r, k, m, acc);
    }
    MultiplyAdd(s, m, aVal.value, acc, next);
    return true, next;
  }

  /** The multiply loop and then the add loop of one group: the buffer goes from acc to acc * m + x, cut to its length. */
  method MultiplyAdd(s: array<Limb>, m: nat, x: nat, ghost acc: nat, ghost next: nat)
    requires m < 0x8000 && x < 0x8000 && s[..] == FromNat(acc, s.Length) && next == acc * m + x
    modifies s
    ensures s[..] == FromNat(next, s.Length)
  {
    MulNonNegative(acc, m);
    ghost var prod: nat := acc * m;
    MultiplyInto(s, m, acc, prod);
    AddSmallInto(s, x, prod);
  }

  /**
   * The group of s at character i: a rejected group is the error, and an
   * accepted one, below 2^15, is folded into acc, giving acc'.
   */
  lemma {:induction false} GroupAt(s: string, i: nat, r: nat, k: nat, m: nat, acc: nat) returns (prod: nat, acc': nat)
    requires 2 <= r <= 36 && k >= 1 && m == Pow(r, k) && m < 0x8000 && i < |s|
    ensures ParseInt(s[i..Min(i + k, |s|)], r).None? ==> FoldGroups(acc, s[i..], r, k, m) == Err(NotANumber)
    ensures ParseInt(s[i..Min(i + k, |s|)], r).Some? ==>
      && ParseInt(s[i..Min(i + k, |s|)], r).value < 0x8000
      && prod == acc * m
      && acc' == prod + ParseInt(s[i..Min(i + k, |s|)], r).value
      && FoldGroups(acc, s[i..], r, k, m) == FoldGroups(acc', s[Min(i + k, |s|)..], r, k, m)
  {
    var t := s[i..];
    var e := Min(i + k, |s|);
    acc' := FoldStep(acc, t, r, k, m);
    MulNonNegative(acc, m);
    prod := acc * m;
    assert Min(k, |t|) == e - i;
    assert t[..e - i] == s[i..e] && t[e - i..] == s[e..];
    GroupFits(s[i..e], r, k, m, ParseInt(s[i..e], r));
  }

  function Min(a: int, b: int): int
  {
    if a <= b then a else b
  }

  /** A group of at most k digits, with r^k below 2^15, reads below 2^15: it fits an Int16 cell and a carry. */
  lemma {:induction false} GroupFits(g: string, r: nat, k: nat, m: nat, x: Option<nat>)
    requires 2 <= r <= 36 && |g| <= k && m == Pow(r, k) && m < 0x8000 && x == ParseInt(g, r)
    ensures x.Some? ==> x.value < 0x8000
  {
    if x.Some? {
      PowMonotone(r, |g|, k);
    }
  }

  /** A buffer that is zero but for a small first limb holds the low limbs of that limb's value. */
  lemma {:induction false} FirstLimb(s: seq<Limb>, x: nat)
    requires x < BASE && (|s| > 0 ==> s[0] == x) && forall i :: 1 <= i < |s| ==> s[i] == 0
    ensures s == FromNat(x, |s|)
  {
    if |s| > 0 {
      DivSmall(x, BASE);
      FromNatZero(|s| - 1);
      assert s == [x] + Zeros(|s| - 1);
    }
  }

  /**
   * fromString's multiply loop: every limb times mul plus the carry, the
   * last carry dropped.  A buffer holding the low limbs of acc then holds
   * the low limbs of the product prod = acc * mul.
   */
  method MultiplyInto(s: array<Limb>, mul: nat, ghost acc: nat, ghost prod: nat)
    requires mul < 0x8000 && s[..] == FromNat(acc, s.Length) && prod == acc * mul
    modifies s
    ensures s[..] == FromNat(prod, s.Length)
  {
    ghost var orig := s[..];
    var carry := 0;
    var i := 0;
    while i < s.Length
      invariant 0 <= i <= s.Length && 0 <= carry < 0x8000
      invariant s[i..] == orig[i..]
      invariant Val(s[..]) + carry * Pow(BASE, i) == Val(orig) + (mul - 1) * Val(orig[..i])
    {
      var prod := s[i] * mul + carry;
      MulLimbStep(s[..], orig, i, mul, carry);
      s[i] := prod % BASE;
      carry := prod / BASE;
      i := i + 1;
    }
    assert orig[..s.Length] == orig;
    MultiplyDone(s[..], orig, carry, mul, acc, prod);
  }

  /** The end of the multiply loop: the dropped carry leaves the product cut to the buffer. */
  lemma {:induction false} MultiplyDone(s: seq<Limb>, orig: seq<Limb>, carry: nat, mul: nat, acc: nat, prod: nat)
    requires |s| == |orig| && orig == FromNat(acc, |s|) && prod == acc * mul
    requires Val(s) + carry * Pow(BASE, |s|) == Val(orig) + (mul - 1) * Val(orig)
    ensures s == FromNat(prod, |s|)
  {
    var p := Pow(BASE, |s|);
    FromNatVal(acc, |s|);
    ValBound(s);
    OnePlus(Val(orig), mul);
    CutToBuffer(Val(s), carry, p, Val(orig) * mul);
    CutMul(acc, mul, p);
    FromNatVal(prod, |s|);
    SameLengthUnique(s, FromNat(prod, |s|));
  }

  /** One limb of the multiply loop. */
  lemma {:induction false} MulLimbStep(cur: seq<Limb>, orig: seq<Limb>, i: nat, mul: nat, carry: nat)
    requires i < |cur| == |orig| && cur[i] == orig[i] && carry < 0x8000 && mul < 0x8000
    requires Val(cur) + carry * Pow(BASE, i) == Val(orig) + (mul - 1) * Val(orig[..i])
    ensures (cur[i] * mul + carry) / BASE < 0x8000
    ensures Val(cur[i := (cur[i] * mul + carry) % BASE]) + ((cur[i] * mul + carry) / BASE) * Pow(BASE, i + 1)
      == Val(orig) + (mul - 1) * Val(orig[..i + 1])
  {
    var prod := cur[i] * mul + carry;
    MulCarry(cur[i], mul, carry);
    ValPrefixStep(orig, i);
    CarryStep(cur, i, prod % BASE, cur[i] * (mul - 1), carry, prod / BASE);
    MultiplyStepArith(Val(orig), mul - 1, Val(orig[..i]), Pow(BASE, i), orig[i]);
  }

  /** Cutting before a multiply by m does not change the cut product. */
  lemma {:induction false} CutMul(acc: nat, m: nat, p: nat)
    requires p > 0
    ensures (acc % p) * m % p == acc * m % p
  {
    CongruentOfMod(acc, p);
    assert Congruent(m, m, p);
    CongruentMul(acc % p, m, acc, m, p);
    CongruentModEq((acc % p) * m, acc * m, p);
  }

  /** Cutting before an add of x does not change the cut sum. */
  lemma {:induction false} CutAdd(acc: nat, x: nat, p: nat)
    requires p > 0
    ensures (acc % p + x) % p == (acc + x) % p
  {
    CongruentOfMod(acc, p);
    assert Congruent(x, x, p);
    CongruentAdd(acc % p, x, acc, x, p);
    CongruentModEq(acc % p + x, acc + x, p);
  }

  /**
   * fromString's add loop: the group value x rippled in as a carry, the last
   * carry dropped.  A buffer holding the low limbs of acc then holds the low
   * limbs of acc + x.
   */
  method AddSmallInto(s: array<Limb>, x: nat, ghost acc: nat)
    requires x < BASE && s[..] == FromNat(acc, s.Length)
    modifies s
    ensures s[..] == FromNat(acc + x, s.Length)
  {
    ghost var v := Val(s[..]);
    var carry := x;
    var i := 0;
    while i < s.Length
      invariant 0 <= i <= s.Length && 0 <= carry < BASE
      invariant Val(s[..]) + carry * Pow(BASE, i) == v + x
    {
      var sum := s[i] + carry;
      CarryStep(s[..], i, sum % BASE, 0, carry, sum / BASE);
      s[i] := sum % BASE;
      carry := sum / BASE;
      i := i + 1;
    }
    AddDone(s[..], carry, v, x, acc);
  }

  lemma {:induction false} OnePlus(v: int, m: int)
    ensures v + (m - 1) * v == v * m
  {
    MulDistributes(v, 1, m - 1);
    MulCommutes(v, m - 1);
  }

  /** The end of the add loop: the dropped carry leaves the sum cut to the buffer. */
  lemma {:induction false} AddDone(s: seq<Limb>, carry: nat, v: nat, x: nat, acc: nat)
    requires v == Val(FromNat(acc, |s|)) && Val(s) + carry * Pow(BASE, |s|) == v + x
    ensures s == FromNat(acc + x, |s|)
  {
    var p := Pow(BASE, |s|);
    FromNatVal(acc, |s|);
    ValBound(s);
    CutToBuffer(Val(s), carry, p, v + x);
    CutAdd(acc, x, p);
    FromNatVal(acc + x, |s|);
    SameLengthUnique(s, FromNat(acc + x, |s|));
  }

  /** prod & INT16_MASK and prod >>> 16 of a limb times mul plus a carry below 2^15. */
  lemma {:induction false} MulCarry(a: Limb, mul: nat, carry: nat)
    requires mul < 0x8000 && carry < 0x8000
    ensures (a * mul + carry) / BASE < 0x8000
  {
    MulNonNegative(a, mul);
    MulLe(a, MASK, mul);
    MulLe(mul, 0x7FFF, MASK);
    MulCommutes(MASK, mul);
    var prod: nat := a * mul + carry;
    QuotientBelow(prod, BASE, 0x8000);
  }

  lemma {:induction false} MultiplyStepArith(v: int, m: int, pre: int, p: int, d: int)
    ensures v + m * pre + p * (d * m) == v + m * (pre + p * d)
  {
    MulDistributes(m, pre, p * d);
    MulAssociates(p, d, m);
    MulCommutes(d, m);
    MulAssociates(p, m, d);
    MulCommutes(p, m);
    MulAssociates(m, p, d);
  }

  /** A buffer value below p plus a carry worth p times is the total cut to p. */
  lemma {:induction false} CutToBuffer(v: nat, carry: nat, p: nat, total: nat)
    requires p > 0 && v < p && v + carry * p == total
    ensures v == total % p
  {
    ModUnique(total, p, carry, v);
  }

  lemma {:induction false} TableRowsBelow19(r: nat)
    requires 2 <= r < 19
    ensures TableRow(r)
  {
    if r == 2 { TableRow2();
    } else if r == 3 { TableRow3();
    } else if r == 4 { TableRow4();
    } else if r == 5 { TableRow5();
    } else if r == 6 { TableRow6();
    } else if r == 7 { TableRow7();
    } else if r == 8 { TableRow8();
    } else if r == 9 { TableRow9();
    } else if r == 10 { TableRow10();
    } else if r == 11 { TableRow11();
    } else if r == 12 { TableRow12();
    } else if r == 13 { TableRow13();
    } else if r == 14 { TableRow14();
    } else if r == 15 { TableRow15();
    } else if r == 16 { TableRow16();
    } else if r == 17 { TableRow17();
    } else { TableRow18();
    }
  }

  lemma {:induction false} TableRowsFrom19(r: nat)
    requires 19 <= r <= 36
    ensures TableRow(r)
  {
    if r == 19 { TableRow19();
    } else if r == 20 { TableRow20();
    } else if r == 21 { TableRow21();
    } else if r == 22 { TableRow22();
    } else if r == 23 { TableRow23();
    } else if r == 24 { TableRow24();
    } else if r == 25 { TableRow25();
    } else if r == 26 { TableRow26();
    } else if r == 27 { TableRow27();
    } else if r == 28 { TableRow28();
    } else if r == 29 { TableRow29();
    } else if r == 30 { TableRow30();
    } else if r == 31 { TableRow31();
    } else if r == 32 { TableRow32();
    } else if r == 33 { TableRow33();
    } else if r == 34 { TableRow34();
    } else if r == 35 { TableRow35();
    } else { TableRow36();
    }
  }

  lemma {:induction false} TableRow2()
    ensures TableRow(2)
  {
    assert RADIX_INT32_INDEX[2] == 30 && RADIX_INT16_INDEX[2] == 14 && RADIX_DIVISOR16_INDEX[2] == 16384;
    assert Divisor32(2) == [0, 16384];
    assert Pow(2, 30) == 1073741824 && Pow(2, 14) == 16384 by {
      Pow2Values();
      PowAdd(2, 15, 15);
    }
    TableEntry(2, 0, 16384, 30, 1073741824, 14, 16384);
  }

  lemma {:induction false} TableRow3()
    ensures TableRow(3)
  {
    assert RADIX_INT32_INDEX[3] == 19 && RADIX_INT16_INDEX[3] == 9 && RADIX_DIVISOR16_INDEX[3] == 19683;
    assert Divisor32(3) == [46043, 17734];
    assert Pow(3, 19) == 1162261467 && Pow(3, 9) == 19683 by {
      PowAdd(3, 9, 10);
      assert Pow(3, 9) == 19683 && Pow(3, 10) == 59049;
    }
    TableEntry(3, 46043, 17734, 19, 1162261467, 9, 19683);
  }

  lemma {:induction false} TableRow4()
    ensures TableRow(4)
  {
    assert RADIX_INT32_INDEX[4] == 15 && RADIX_INT16_INDEX[4] == 7 && RADIX_DIVISOR16_INDEX[4] == 16384;
    assert Divisor32(4) == [0, 16384];
    assert Pow(4, 15) == 1073741824 && Pow(4, 7) == 16384 by {
      PowAdd(4, 7, 8);
      assert Pow(4, 7) == 16384 && Pow(4, 8) == 65536;
    }
    TableEntry(4, 0, 16384, 15, 1073741824, 7, 16384);
  }

  lemma {:induction false} TableRow5()
    ensures TableRow(5)
  {
    assert RADIX_INT32_INDEX[5] == 13 && RADIX_INT16_INDEX[5] == 6 && RADIX_DIVISOR16_INDEX[5] == 15625;
    assert Divisor32(5) == [29589, 18626];
    assert Pow(5, 13) == 1220703125 && Pow(5, 6) == 15625 by {
      PowAdd(5, 6, 7);
      assert Pow(5, 6) == 15625 && Pow(5, 7) == 78125;
    }
    TableEntry(5, 29589, 18626, 13, 1220703125, 6, 15625);
  }

  lemma {:induction false} TableRow6()
    ensures TableRow(6)
  {
    assert RADIX_INT32_INDEX[6] == 11 && RADIX_INT16_INDEX[6] == 5 && RADIX_DIVISOR16_INDEX[6] == 7776;
    assert Divisor32(6) == [55296, 5535];
    assert Pow(6, 11) == 362797056 && Pow(6, 5) == 7776 by {
      PowAdd(6, 5, 6);
      assert Pow(6, 5) == 7776 && Pow(6, 6) == 46656;
    }
    TableEntry(6, 55296, 5535, 11, 362797056, 5, 7776);
  }

  lemma {:induction false} TableRow7()
    ensures TableRow(7)
  {
    assert RADIX_INT32_INDEX[7] == 11 && RADIX_INT16_INDEX[7] == 5 && RADIX_DIVISOR16_INDEX[7] == 16807;
    assert Divisor32(7) == [40087, 30171];
    assert Pow(7, 11) == 1977326743 && Pow(7, 5) == 16807 by {
      PowAdd(7, 5, 6);
      assert Pow(7, 5) == 16807 && Pow(7, 6) == 117649;
    }
    TableEntry(7, 40087, 30171, 11, 1977326743, 5, 16807);
  }

  lemma {:induction false} TableRow8()
    ensures TableRow(8)
  {
    assert RADIX_INT32_INDEX[8] == 10 && RADIX_INT16_INDEX[8] == 4 && RADIX_DIVISOR16_INDEX[8] == 4096;
    assert Divisor32(8) == [0, 16384];
    assert Pow(8, 10) == 1073741824 && Pow(8, 4) == 4096 by {
      PowAdd(8, 5, 5);
      assert Pow(8, 5) == 32768 && Pow(8, 5) == 32768;
    }
    TableEntry(8, 0, 16384, 10, 1073741824, 4, 4096);
  }

  lemma {:induction false} TableRow9()
    ensures TableRow(9)
  {
    assert RADIX_INT32_INDEX[9] == 9 && RADIX_INT16_INDEX[9] == 4 && RADIX_DIVISOR16_INDEX[9] == 6561;
    assert Divisor32(9) == [37193, 5911];
    assert Pow(9, 9) == 387420489 && Pow(9, 4) == 6561 by {
      PowAdd(9, 4, 5);
      assert Pow(9, 4) == 6561 && Pow(9, 5) == 59049;
    }
    TableEntry(9, 37193, 5911, 9, 387420489, 4, 6561);
  }

  lemma {:induction false} TableRow10()
    ensures TableRow(10)
  {
    assert RADIX_INT32_INDEX[10] == 9 && RADIX_INT16_INDEX[10] == 4 && RADIX_DIVISOR16_INDEX[10] == 10000;
    assert Divisor32(10) == [51712, 15258];
    assert Pow(10, 9) == 1000000000 && Pow(10, 4) == 10000 by {
      PowAdd(10, 4, 5);
      assert Pow(10, 4) == 10000 && Pow(10, 5) == 100000;
    }
    TableEntry(10, 51712, 15258, 9, 1000000000, 4, 10000);
  }

  lemma {:induction false} TableRow11()
    ensures TableRow(11)
  {
    assert RADIX_INT32_INDEX[11] == 8 && RADIX_INT16_INDEX[11] == 4 && RADIX_DIVISOR16_INDEX[11] == 14641;
    assert Divisor32(11) == [56161, 3270];
    assert Pow(11, 8) == 214358881 && Pow(11, 4) == 14641;
    TableEntry(11, 56161, 3270, 8, 214358881, 4, 14641);
  }

  lemma {:induction false} TableRow12()
    ensures TableRow(12)
  {
    assert RADIX_INT32_INDEX[12] == 8 && RADIX_INT16_INDEX[12] == 4 && RADIX_DIVISOR16_INDEX[12] == 20736;
    assert Divisor32(12) == [0, 6561];
    assert Pow(12, 8) == 429981696 && Pow(12, 4) == 20736;
    TableEntry(12, 0, 6561, 8, 429981696, 4, 20736);
  }

  lemma {:induction false} TableRow13()
    ensures TableRow(13)
  {
    assert RADIX_INT32_INDEX[13] == 8 && RADIX_INT16_INDEX[13] == 4 && RADIX_DIVISOR16_INDEX[13] == 28561;
    assert Divisor32(13) == [4129, 12447];
    assert Pow(13, 8) == 815730721 && Pow(13, 4) == 28561;
    TableEntry(13, 4129, 12447, 8, 815730721, 4, 28561);
  }

  lemma {:induction false} TableRow14()
    ensures TableRow(14)
  {
    assert RADIX_INT32_INDEX[14] == 8 && RADIX_INT16_INDEX[14] == 3 && RADIX_DIVISOR16_INDEX[14] == 2744;
    assert Divisor32(14) == [49408, 22518];
    assert Pow(14, 8) == 1475789056 && Pow(14, 3) == 2744;
    TableEntry(14, 49408, 22518, 8, 1475789056, 3, 2744);
  }

  lemma {:induction false} TableRow15()
    ensures TableRow(15)
  {
    assert RADIX_INT32_INDEX[15] == 7 && RADIX_INT16_INDEX[15] == 3 && RADIX_DIVISOR16_INDEX[15] == 3375;
    assert Divisor32(15) == [7023, 2607];
    assert Pow(15, 7) == 170859375 && Pow(15, 3) == 3375;
    TableEntry(15, 7023, 2607, 7, 170859375, 3, 3375);
  }

  lemma {:induction false} TableRow16()
    ensures TableRow(16)
  {
    assert RADIX_INT32_INDEX[16] == 7 && RADIX_INT16_INDEX[16] == 3 && RADIX_DIVISOR16_INDEX[16] == 4096;
    assert Divisor32(16) == [0, 4096];
    assert Pow(16, 7) == 268435456 && Pow(16, 3) == 4096;
    TableEntry(16, 0, 4096, 7, 268435456, 3, 4096);
  }

  lemma {:induction false} TableRow17()
    ensures TableRow(17)
  {
    assert RADIX_INT32_INDEX[17] == 7 && RADIX_INT16_INDEX[17] == 3 && RADIX_DIVISOR16_INDEX[17] == 4913;
    assert Divisor32(17) == [17777, 6261];
    assert Pow(17, 7) == 410338673 && Pow(17, 3) == 4913;
    TableEntry(17, 17777, 6261, 7, 410338673, 3, 4913);
  }

  lemma {:induction false} TableRow18()
    ensures TableRow(18)
  {
    assert RADIX_INT32_INDEX[18] == 7 && RADIX_INT16_INDEX[18] == 3 && RADIX_DIVISOR16_INDEX[18] == 5832;
    assert Divisor32(18) == [48256, 9341];
    assert Pow(18, 7) == 612220032 && Pow(18, 3) == 5832;
    TableEntry(18, 48256, 9341, 7, 612220032, 3, 5832);
  }

  lemma {:induction false} TableRow19()
    ensures TableRow(19)
  {
    assert RADIX_INT32_INDEX[19] == 7 && RADIX_INT16_INDEX[19] == 3 && RADIX_DIVISOR16_INDEX[19] == 6859;
    assert Divisor32(19) == [26235, 13639];
    assert Pow(19, 7) == 893871739 && Pow(19, 3) == 6859;
    TableEntry(19, 26235, 13639, 7, 893871739, 3, 6859);
  }

  lemma {:induction false} TableRow20()
    ensures TableRow(20)
  {
    assert RADIX_INT32_INDEX[20] == 7 && RADIX_INT16_INDEX[20] == 3 && RADIX_DIVISOR16_INDEX[20] == 8000;
    assert Divisor32(20) == [16384, 19531];
    assert Pow(20, 7) == 1280000000 && Pow(20, 3) == 8000;
    TableEntry(20, 16384, 19531, 7, 1280000000, 3, 8000);
  }

  lemma {:induction false} TableRow21()
    ensures TableRow(21)
  {
    assert RADIX_INT32_INDEX[21] == 7 && RADIX_INT16_INDEX[21] == 3 && RADIX_DIVISOR16_INDEX[21] == 9261;
    assert Divisor32(21) == [28189, 27482];
    assert Pow(21, 7) == 1801088541 && Pow(21, 3) == 9261;
    TableEntry(21, 28189, 27482, 7, 1801088541, 3, 9261);
  }

  lemma {:induction false} TableRow22()
    ensures TableRow(22)
  {
    assert RADIX_INT32_INDEX[22] == 6 && RADIX_INT16_INDEX[22] == 3 && RADIX_DIVISOR16_INDEX[22] == 10648;
    assert Divisor32(22) == [2624, 1730];
    assert Pow(22, 6) == 113379904 && Pow(22, 3) == 10648;
    TableEntry(22, 2624, 1730, 6, 113379904, 3, 10648);
  }

  lemma {:induction false} TableRow23()
    ensures TableRow(23)
  {
    assert RADIX_INT32_INDEX[23] == 6 && RADIX_INT16_INDEX[23] == 3 && RADIX_DIVISOR16_INDEX[23] == 12167;
    assert Divisor32(23) == [55601, 2258];
    assert Pow(23, 6) == 148035889 && Pow(23, 3) == 12167;
    TableEntry(23, 55601, 2258, 6, 148035889, 3, 12167);
  }

  lemma {:induction false} TableRow24()
    ensures TableRow(24)
  {
    assert RADIX_INT32_INDEX[24] == 6 && RADIX_INT16_INDEX[24] == 3 && RADIX_DIVISOR16_INDEX[24] == 13824;
    assert Divisor32(24) == [0, 2916];
    assert Pow(24, 6) == 191102976 && Pow(24, 3) == 13824;
    TableEntry(24, 0, 2916, 6, 191102976, 3, 13824);
  }

  lemma {:induction false} TableRow25()
    ensures TableRow(25)
  {
    assert RADIX_INT32_INDEX[25] == 6 && RADIX_INT16_INDEX[25] == 3 && RADIX_DIVISOR16_INDEX[25] == 15625;
    assert Divisor32(25) == [19025, 3725];
    assert Pow(25, 6) == 244140625 && Pow(25, 3) == 15625;
    TableEntry(25, 19025, 3725, 6, 244140625, 3, 15625);
  }

  lemma {:induction false} TableRow26()
    ensures TableRow(26)
  {
    assert RADIX_INT32_INDEX[26] == 6 && RADIX_INT16_INDEX[26] == 3 && RADIX_DIVISOR16_INDEX[26] == 17576;
    assert Divisor32(26) == [44608, 4713];
    assert Pow(26, 6) == 308915776 && Pow(26, 3) == 17576;
    TableEntry(26, 44608, 4713, 6, 308915776, 3, 17576);
  }

  lemma {:induction false} TableRow27()
    ensures TableRow(27)
  {
    assert RADIX_INT32_INDEX[27] == 6 && RADIX_INT16_INDEX[27] == 3 && RADIX_DIVISOR16_INDEX[27] == 19683;
    assert Divisor32(27) == [37193, 5911];
    assert Pow(27, 6) == 387420489 && Pow(27, 3) == 19683;
    TableEntry(27, 37193, 5911, 6, 387420489, 3, 19683);
  }

  lemma {:induction false} TableRow28()
    ensures TableRow(28)
  {
    assert RADIX_INT32_INDEX[28] == 6 && RADIX_INT16_INDEX[28] == 3 && RADIX_DIVISOR16_INDEX[28] == 21952;
    assert Divisor32(28) == [4096, 7353];
    assert Pow(28, 6) == 481890304 && Pow(28, 3) == 21952;
    TableEntry(28, 4096, 7353, 6, 481890304, 3, 21952);
  }

  lemma {:induction false} TableRow29()
    ensures TableRow(29)
  {
    assert RADIX_INT32_INDEX[29] == 6 && RADIX_INT16_INDEX[29] == 3 && RADIX_DIVISOR16_INDEX[29] == 24389;
    assert Divisor32(29) == [18585, 9076];
    assert Pow(29, 6) == 594823321 && Pow(29, 3) == 24389;
    TableEntry(29, 18585, 9076, 6, 594823321, 3, 24389);
  }

  lemma {:induction false} TableRow30()
    ensures TableRow(30)
  {
    assert RADIX_INT32_INDEX[30] == 6 && RADIX_INT16_INDEX[30] == 3 && RADIX_DIVISOR16_INDEX[30] == 27000;
    assert Divisor32(30) == [43072, 11123];
    assert Pow(30, 6) == 729000000 && Pow(30, 3) == 27000;
    TableEntry(30, 43072, 11123, 6, 729000000, 3, 27000);
  }

  lemma {:induction false} TableRow31()
    ensures TableRow(31)
  {
    assert RADIX_INT32_INDEX[31] == 6 && RADIX_INT16_INDEX[31] == 3 && RADIX_DIVISOR16_INDEX[31] == 29791;
    assert Divisor32(31) == [15169, 13542];
    assert Pow(31, 6) == 887503681 && Pow(31, 3) == 29791;
    TableEntry(31, 15169, 13542, 6, 887503681, 3, 29791);
  }

  lemma {:induction false} TableRow32()
    ensures TableRow(32)
  {
    assert RADIX_INT32_INDEX[32] == 6 && RADIX_INT16_INDEX[32] == 2 && RADIX_DIVISOR16_INDEX[32] == 1024;
    assert Divisor32(32) == [0, 16384];
    assert Pow(32, 6) == 1073741824 && Pow(32, 2) == 1024;
    TableEntry(32, 0, 16384, 6, 1073741824, 2, 1024);
  }

  lemma {:induction false} TableRow33()
    ensures TableRow(33)
  {
    assert RADIX_INT32_INDEX[33] == 6 && RADIX_INT16_INDEX[33] == 2 && RADIX_DIVISOR16_INDEX[33] == 1089;
    assert Divisor32(33) == [15553, 19706];
    assert Pow(33, 6) == 1291467969 && Pow(33, 2) == 1089;
    TableEntry(33, 15553, 19706, 6, 1291467969, 2, 1089);
  }

  lemma {:induction false} TableRow34()
    ensures TableRow(34)
  {
    assert RADIX_INT32_INDEX[34] == 6 && RADIX_INT16_INDEX[34] == 2 && RADIX_DIVISOR16_INDEX[34] == 1156;
    assert Divisor32(34) == [55360, 23571];
    assert Pow(34, 6) == 1544804416 && Pow(34, 2) == 1156;
    TableEntry(34, 55360, 23571, 6, 1544804416, 2, 1156);
  }

  lemma {:induction false} TableRow35()
    ensures TableRow(35)
  {
    assert RADIX_INT32_INDEX[35] == 6 && RADIX_INT16_INDEX[35] == 2 && RADIX_DIVISOR16_INDEX[35] == 1225;
    assert Divisor32(35) == [46361, 28049];
    assert Pow(35, 6) == 1838265625 && Pow(35, 2) == 1225;
    TableEntry(35, 46361, 28049, 6, 1838265625, 2, 1225);
  }

  lemma {:induction false} TableRow36()
    ensures TableRow(36)
  {
    assert RADIX_INT32_INDEX[36] == 5 && RADIX_INT16_INDEX[36] == 2 && RADIX_DIVISOR16_INDEX[36] == 1296;
    assert Divisor32(36) == [41984, 922];
    assert Pow(36, 5) == 60466176 && Pow(36, 2) == 1296;
    TableEntry(36, 41984, 922, 5, 60466176, 2, 1296);
  }

  /** One radix of the tables, from the literal values of its entries. */
  lemma {:induction false} TableEntry(r: nat, lo: Limb, hi: Limb, k32: nat, p32: nat, k16: nat, p16: nat)
    requires 2 <= r <= 36 && hi != 0 && 1 <= k32 <= 30 && 1 <= k16
    requires Divisor32(r) == [lo, hi] && lo + BASE * hi == p32
    requires RADIX_INT32_INDEX[r] == k32 && Pow(r, k32) == p32 && p32 < 0x8000_0000 <= r * p32
    requires RADIX_INT16_INDEX[r] == k16 && RADIX_DIVISOR16_INDEX[r] == p16 && Pow(r, k16) == p16 && p16 < 0x8000 <= r * p16
    ensures TableRow(r)
  {
    ValPair(lo, hi);
  }

  lemma {:induction false} ValPair(x: Limb, y: Limb)
    ensures Val([x, y]) == x + BASE * y
  {
    assert [x, y][1..] == [y];
    ValSingle(y);
  }
}
