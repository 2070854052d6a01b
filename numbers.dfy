/**
 * Natural-number facts shared by the magnitude engine: powers, bit lengths,
 * trailing-zero counts, greatest common divisors and modular congruence.
 */
module Numbers {

  /** The sign of x: 1, 0 or -1. */
  function Sign(x: int): int
  {
    if x > 0 then 1 else if x < 0 then -1 else 0
  }

  /** b raised to the e-th power. */
  function Pow(b: nat, e: nat): nat
  {
    if e == 0 then 1 else b * Pow(b, e - 1)
  }

  lemma {:induction false} PowPositive(b: nat, e: nat)
    requires b > 0
    ensures Pow(b, e) > 0
  {
    if e > 0 { PowPositive(b, e - 1); }
  }

  lemma {:induction false} PowAdd(b: nat, m: nat, n: nat)
    ensures Pow(b, m + n) == Pow(b, m) * Pow(b, n)
  {
    if m > 0 {
      PowAdd(b, m - 1, n);
      assert Pow(b, m + n) == b * Pow(b, m - 1 + n);
      MulAssociates(b, Pow(b, m - 1), Pow(b, n));
    }
  }

  lemma {:induction false} PowMul(b: nat, m: nat, n: nat)
    ensures Pow(b, m * n) == Pow(Pow(b, m), n)
  {
    if n > 0 {
      var rest := m * (n - 1);
      assert m * n == m * (n - 1) + m * 1;
      calc {
        Pow(b, m * n);
        Pow(b, m + rest);
        { PowAdd(b, m, rest); }
        Pow(b, m) * Pow(b, rest);
        { PowMul(b, m, n - 1); }
        Pow(b, m) * Pow(Pow(b, m), n - 1);
      }
    }
  }

  lemma {:induction false} PowMonotone(b: nat, m: nat, n: nat)
    requires b >= 1 && m <= n
    ensures Pow(b, m) <= Pow(b, n)
  {
    if m < n {
      PowMonotone(b, m, n - 1);
      PowPositive(b, n - 1);
      MulAtLeast(b, Pow(b, n - 1));
    }
  }

  lemma {:induction false} PowStrict(b: nat, m: nat, n: nat)
    requires b >= 2 && m < n
    ensures Pow(b, m) < Pow(b, n)
  {
    PowMonotone(b, m, n - 1);
    PowPositive(b, n - 1);
  }

  lemma {:induction false} PowOfProduct(x: nat, y: nat, e: nat)
    ensures Pow(x * y, e) == Pow(x, e) * Pow(y, e)
  {
    if e > 0 {
      PowOfProduct(x, y, e - 1);
      var px, py := Pow(x, e - 1), Pow(y, e - 1);
      calc {
        Pow(x * y, e);
        (x * y) * Pow(x * y, e - 1);
        (x * y) * (px * py);
        { MulRearrange(x, y, px, py); }
        (x * px) * (y * py);
      }
    }
  }

  lemma {:induction false} MulRearrange(a: int, b: int, c: int, d: int)
    ensures (a * b) * (c * d) == (a * c) * (b * d)
  {
  }

  lemma {:induction false} PowOfOne(e: nat)
    ensures Pow(1, e) == 1
  {
    if e > 0 { PowOfOne(e - 1); }
  }

  lemma {:induction false} PowOfZero(e: nat)
    requires e > 0
    ensures Pow(0, e) == 0
  {
  }

  /** The number of binary digits of n (0 for 0). */
  function BitLen(n: nat): nat
  {
    if n == 0 then 0 else 1 + BitLen(n / 2)
  }

  lemma {:induction false} BitLenBounds(n: nat)
    requires n > 0
    ensures BitLen(n) >= 1
    ensures Pow(2, BitLen(n) - 1) <= n < Pow(2, BitLen(n))
  {
    if n == 1 {
      assert Pow(2, 0) == 1 && Pow(2, 1) == 2;
    } else {
      var h := n / 2;
      BitLenBounds(h);
      var l := BitLen(h);
      PowStep(l - 1);
      PowStep(l);
      assert BitLen(n) == l + 1;
    }
  }

  lemma {:induction false} PowStep(k: nat)
    ensures Pow(2, k + 1) == 2 * Pow(2, k)
  {
  }

  lemma {:induction false} BitLenUnique(n: nat, k: nat)
    requires k >= 1 && Pow(2, k - 1) <= n < Pow(2, k)
    ensures BitLen(n) == k
  {
    if k > 1 {
      assert Pow(2, k - 2) <= n / 2 < Pow(2, k - 1);
      BitLenUnique(n / 2, k - 1);
    }
  }

  lemma {:induction false} BitLenBelow(n: nat, k: nat)
    requires n < Pow(2, k)
    ensures BitLen(n) <= k
  {
    if n > 0 {
      BitLenBounds(n);
      if BitLen(n) > k {
        PowMonotone(2, k, BitLen(n) - 1);
      }
    }
  }

  lemma {:induction false} BitLenAtLeast(n: nat, k: nat)
    requires Pow(2, k) <= n
    ensures BitLen(n) > k
  {
    PowPositive(2, k);
    BitLenBounds(n);
    if BitLen(n) <= k {
      PowMonotone(2, BitLen(n), k);
    }
  }

  /** k bits suffice for n exactly when n is below 2^k. */
  lemma {:induction false} BitLenBelowIff(n: nat, k: nat)
    ensures n < Pow(2, k) <==> BitLen(n) <= k
  {
    if n < Pow(2, k) {
      BitLenBelow(n, k);
    } else {
      BitLenAtLeast(n, k);
    }
  }

  /** Placing top above m low bits adds m to its bit length. */
  lemma {:induction false} BitLenShifted(lo: nat, top: nat, m: nat)
    requires top > 0 && lo < Pow(2, m)
    ensures BitLen(lo + Pow(2, m) * top) == m + BitLen(top)
  {
    BitLenBounds(top);
    var l := BitLen(top);
    PowAdd(2, m, l - 1);
    PowAdd(2, m, l);
    ShiftedBounds(lo, top, Pow(2, m), Pow(2, l - 1), Pow(2, l));
    BitLenUnique(lo + Pow(2, m) * top, m + l);
  }

  /** lo + p * top lies between p * a and p * b when a <= top < b and lo < p. */
  lemma ShiftedBounds(lo: nat, top: nat, p: nat, a: nat, b: nat)
    requires lo < p && a <= top < b
    ensures p * a <= lo + p * top < p * b
  {
    MulLe(a, top, p);
    MulLe(top + 1, b, p);
    assert p * (top + 1) == p * top + p;
  }

  lemma {:induction false} MulLe(a: int, b: int, c: int)
    requires a <= b && c >= 0
    ensures c * a <= c * b
  {
    MulNonNegative(c, b - a);
    assert c * (b - a) == c * b - c * a;
  }

  /** Trailing zeros of top shifted left by m bits. */
  lemma {:induction false} TrailingZerosShifted(top: nat, m: nat)
    requires top > 0
    ensures Pow(2, m) * top > 0
    ensures TrailingZeros(Pow(2, m) * top) == m + TrailingZeros(top)
  {
    PowPositive(2, m);
    MulAtLeast(top, Pow(2, m));
    if m > 0 {
      var q := Pow(2, m - 1) * top;
      assert Pow(2, m) * top == 2 * q;
      TrailingZerosShifted(top, m - 1);
      assert (2 * q) / 2 == q;
    }
  }

  /** Bits above the lowest set bit do not change the trailing-zero count. */
  lemma {:induction false} TrailingZerosLow(x: nat, y: nat, m: nat)
    requires 0 < x < Pow(2, m)
    ensures x + Pow(2, m) * y > 0
    ensures TrailingZeros(x + Pow(2, m) * y) == TrailingZeros(x)
  {
    PowPositive(2, m);
    MulNonNegative(Pow(2, m), y);
    var n := x + Pow(2, m) * y;
    assert m > 0;
    var h := Pow(2, m - 1) * y;
    assert n == x + 2 * h;
    if x % 2 == 0 {
      assert n / 2 == x / 2 + h;
      TrailingZerosLow(x / 2, y, m - 1);
    }
  }

  lemma {:induction false} Pow2Values()
    ensures Pow(2, 1) == 2 && Pow(2, 2) == 4 && Pow(2, 4) == 16 && Pow(2, 8) == 0x100
    ensures Pow(2, 12) == 0x1000 && Pow(2, 14) == 0x4000 && Pow(2, 15) == 0x8000
    ensures Pow(2, 16) == 0x1_0000
  {
    assert Pow(2, 4) == 16;
    PowAdd(2, 4, 4);
    PowAdd(2, 8, 4);
    PowAdd(2, 12, 2);
    PowAdd(2, 14, 1);
    PowAdd(2, 15, 1);
  }

  /** A number not divisible by 2^s has fewer than s trailing zeros. */
  lemma {:induction false} TrailingZerosBelow(a: nat, s: nat)
    requires a > 0 && Pow(2, s) > 0 && a % Pow(2, s) != 0
    ensures TrailingZeros(a) < s
  {
    var t := TrailingZeros(a);
    TrailingZerosSpec(a);
    if t >= s {
      var odd := a / Pow(2, t);
      assert a == Pow(2, t) * odd;
      PowAdd(2, s, t - s);
      MulAssociates(Pow(2, s), Pow(2, t - s), odd);
      DivOfMultiple(a, Pow(2, s), Pow(2, t - s) * odd);
    }
  }

  /** The exponent of the largest power of 2 dividing a positive n. */
  function TrailingZeros(n: nat): nat
    requires n > 0
  {
    if n % 2 == 1 then 0 else 1 + TrailingZeros(n / 2)
  }

  lemma {:induction false} TrailingZerosSpec(n: nat)
    requires n > 0
    ensures Pow(2, TrailingZeros(n)) > 0
    ensures n % Pow(2, TrailingZeros(n)) == 0
    ensures (n / Pow(2, TrailingZeros(n))) % 2 == 1
  {
    PowPositive(2, TrailingZeros(n));
    if n % 2 == 0 {
      var h := n / 2;
      TrailingZerosSpec(h);
      PowStep(TrailingZeros(h));
      assert n == 2 * h;
      OddPartDoubled(h, Pow(2, TrailingZeros(h)));
    } else {
      assert n / 1 == n;
    }
  }

  /** Doubling a number doubles the power of 2 that leaves an odd quotient. */
  lemma {:induction false} OddPartDoubled(h: nat, p: nat)
    requires p > 0 && h % p == 0 && (h / p) % 2 == 1
    ensures (2 * h) % (2 * p) == 0 && ((2 * h) / (2 * p)) % 2 == 1
  {
    var o := h / p;
    DivMod(h, p);
    assert 2 * h == o * (2 * p);
    ModUnique(2 * h, 2 * p, o, 0);
  }

  lemma {:induction false} TrailingZerosUnique(n: nat, k: nat)
    requires n > 0
    requires Pow(2, k) > 0 && n % Pow(2, k) == 0 && (n / Pow(2, k)) % 2 == 1
    ensures TrailingZeros(n) == k
  {
    if k > 0 {
      var p := Pow(2, k - 1);
      var q := n / Pow(2, k);
      PowPositive(2, k - 1);
      assert n == (2 * p) * q;
      assert n == 2 * (p * q);
      DivOfMultiple(n, 2, p * q);
      DivOfMultiple(n / 2, p, q);
      TrailingZerosUnique(n / 2, k - 1);
    } else {
      assert n / 1 == n;
    }
  }

  lemma {:induction false} DivOfMultiple(n: int, p: int, q: int)
    requires p > 0 && n == p * q
    ensures n % p == 0 && n / p == q
  {
    ModUnique(n, p, q, 0);
  }

  /** Greatest common divisor by Euclid's recursion. */
  function Gcd(a: nat, b: nat): nat
    decreases b
  {
    if b == 0 then a else Gcd(b, a % b)
  }

  /** d divides n. */
  predicate Divides(d: nat, n: nat)
  {
    if d == 0 then n == 0 else n % d == 0
  }

  lemma {:induction false} DividesLinear(d: nat, x: nat, y: nat, k: int)
    requires Divides(d, x) && Divides(d, y)
    requires x + k * y >= 0
    ensures Divides(d, x + k * y)
  {
    if d > 0 {
      var i := x / d;
      var j := y / d;
      assert x == d * i;
      assert y == d * j;
      assert x + k * y == d * (i + k * j);
      DivOfMultiple(x + k * y, d, i + k * j);
    }
  }

  lemma {:induction false} GcdDivides(a: nat, b: nat)
    ensures Divides(Gcd(a, b), a) && Divides(Gcd(a, b), b)
    decreases b
  {
    if b > 0 {
      GcdDivides(b, a % b);
      DivMod(a, b);
      DividesLinear(Gcd(a, b), a % b, b, a / b);
    }
  }

  /** Euclidean division of a by a positive b. */
  lemma {:induction false} DivMod(a: nat, b: nat)
    requires b > 0
    ensures a == a % b + (a / b) * b && 0 <= a % b < b && a / b >= 0
  {
    DivBounds(a, b);
  }

  /** A common divisor of a and b divides the remainder a - q * b. */
  lemma {:induction false} DividesRemainder(c: nat, a: nat, b: nat, q: int, r: nat)
    requires Divides(c, a) && Divides(c, b) && a == r + q * b
    ensures Divides(c, r)
  {
    assert r == a + (-q) * b;
    DividesLinear(c, a, b, -q);
  }

  lemma {:induction false} GcdGreatest(a: nat, b: nat, c: nat)
    requires Divides(c, a) && Divides(c, b)
    ensures Divides(c, Gcd(a, b))
    decreases b
  {
    if b > 0 {
      DivMod(a, b);
      DividesRemainder(c, a, b, a / b, a % b);
      GcdGreatest(b, a % b, c);
    }
  }

  lemma {:induction false} DividesAntisymmetric(x: nat, y: nat)
    requires Divides(x, y) && Divides(y, x)
    ensures x == y
  {
    if x > 0 && y > 0 {
      DividesLe(x, y);
      DividesLe(y, x);
    }
  }

  lemma {:induction false} DividesLe(d: nat, n: nat)
    requires n > 0 && Divides(d, n)
    ensures d <= n
  {
    if d > 0 {
      var k := n / d;
      assert n == k * d;
      if k <= 0 {
        MulNonPositive(k, d);
      } else {
        MulAtLeast(k, d);
      }
    }
  }

  /** Two pairs with the same common divisors have the same gcd. */
  lemma {:induction false} GcdEqual(a: nat, b: nat, c: nat, d: nat)
    requires Divides(Gcd(a, b), c) && Divides(Gcd(a, b), d)
    requires Divides(Gcd(c, d), a) && Divides(Gcd(c, d), b)
    ensures Gcd(a, b) == Gcd(c, d)
  {
    GcdGreatest(c, d, Gcd(a, b));
    GcdGreatest(a, b, Gcd(c, d));
    DividesAntisymmetric(Gcd(a, b), Gcd(c, d));
  }

  lemma {:induction false} GcdSymmetric(a: nat, b: nat)
    ensures Gcd(a, b) == Gcd(b, a)
  {
    GcdDivides(a, b);
    GcdDivides(b, a);
    GcdEqual(a, b, b, a);
  }

  lemma {:induction false} GcdSubtract(a: nat, b: nat)
    requires a >= b
    ensures Gcd(a, b) == Gcd(a - b, b)
  {
    GcdDivides(a, b);
    GcdDivides(a - b, b);
    DividesLinear(Gcd(a, b), a, b, -1);
    DividesLinear(Gcd(a - b, b), a - b, b, 1);
    GcdEqual(a, b, a - b, b);
  }

  lemma {:induction false} GcdZero(a: nat)
    ensures Gcd(a, 0) == a && Gcd(0, a) == a
  {
    GcdSymmetric(0, a);
  }

  lemma {:induction false} OddDividesDouble(g: nat, x: nat)
    requires g % 2 == 1 && Divides(g, 2 * x)
    ensures Divides(g, x)
  {
    var k := (2 * x) / g;
    assert 2 * x == g * k;
    if k % 2 == 1 {
      assert (g * k) % 2 == 1 by { OddProduct(g, k); }
    }
    assert k == 2 * (k / 2);
    assert x == g * (k / 2);
    DivOfMultiple(x, g, k / 2);
  }

  lemma {:induction false} OddProduct(x: int, y: int)
    requires x % 2 == 1 && y % 2 == 1
    ensures (x * y) % 2 == 1
  {
    var i := x / 2;
    var j := y / 2;
    assert x == 2 * i + 1;
    assert y == 2 * j + 1;
    assert x * y == 2 * (2 * i * j + i + j) + 1;
  }

  /** Halving one argument keeps an odd gcd. */
  lemma {:induction false} GcdHalve(a: nat, b: nat)
    requires a % 2 == 0 && Gcd(a, b) % 2 == 1
    ensures Gcd(a / 2, b) == Gcd(a, b)
  {
    GcdDivides(a, b);
    assert a == 2 * (a / 2);
    OddDividesDouble(Gcd(a, b), a / 2);
    GcdDivides(a / 2, b);
    DividesLinear(Gcd(a / 2, b), 0, a / 2, 2);
    GcdEqual(a, b, a / 2, b);
  }

  /** Halving against an odd partner keeps the gcd. */
  lemma {:induction false} GcdHalveOdd(a: nat, b: nat)
    requires a % 2 == 0 && b % 2 == 1
    ensures Gcd(a / 2, b) == Gcd(a, b)
  {
    GcdDivides(a, b);
    var g := Gcd(a, b);
    if g > 0 {
      var k := b / g;
      assert b == g * k;
      ParityOfProduct(g, k);
    }
    GcdHalve(a, b);
  }

  lemma {:induction false} ParityOfProduct(x: int, y: int)
    ensures (x * y) % 2 == ((x % 2) * (y % 2)) % 2
  {
    var i, j := x / 2, y / 2;
    var s, t := x % 2, y % 2;
    assert x == 2 * i + s;
    assert y == 2 * j + t;
    assert x * y == 2 * (2 * i * j + i * t + s * j) + s * t;
    ModUnique(x * y, 2, 2 * i * j + i * t + s * j, s * t);
  }

  lemma {:induction false} GcdScale(c: nat, a: nat, b: nat)
    requires c > 0
    ensures Gcd(c * a, c * b) == c * Gcd(a, b)
    decreases b
  {
    if b > 0 {
      ModScale(c, a, b);
      GcdScale(c, b, a % b);
    }
  }

  lemma {:induction false} ModScale(c: nat, a: nat, b: nat)
    requires c > 0 && b > 0
    ensures (c * a) % (c * b) == c * (a % b)
  {
    var q := a / b;
    var r := a % b;
    assert a == q * b + r;
    assert c * a == q * (c * b) + c * r;
    assert 0 <= c * r < c * b;
    ModUnique(c * a, c * b, q, c * r);
  }

  /** A quotient of a non-negative number by a positive one stays between 0 and it. */
  lemma {:induction false} DivBounds(a: int, b: int)
    requires a >= 0 && b > 0
    ensures 0 <= a / b <= a
  {
    var q, r := a / b, a % b;
    assert a == q * b + r && 0 <= r < b;
    if q < 0 {
      MulAtLeast(-q, b);
    } else {
      MulNonNegative(q, b - 1);
      assert q * b == q + q * (b - 1);
    }
  }

  /** A non-negative number below the divisor has quotient 0 and is its own remainder. */
  lemma {:induction false} DivSmall(a: int, b: int)
    requires 0 <= a < b
    ensures a / b == 0 && a % b == a
  {
    ModUnique(a, b, 0, a);
  }

  /** The remainder by b * p from the remainders by b and then by p. */
  lemma {:induction false} ModOfProduct(n: nat, b: nat, p: nat)
    requires b > 0 && p > 0
    ensures b * p > 0
    ensures n % (b * p) == n % b + b * ((n / b) % p)
  {
    MulAtLeast(p, b);
    DivMod(n, b);
    DivMod(n / b, p);
    var q1, r1 := n / b, n % b;
    var q2, r2 := q1 / p, q1 % p;
    ModOfProductArith(n, b, p, q1, r1, q2, r2);
  }

  lemma {:induction false} ModOfProductArith(n: int, b: int, p: int, q1: int, r1: int, q2: int, r2: int)
    requires b > 0 && p > 0
    requires n == r1 + q1 * b && 0 <= r1 < b
    requires q1 == r2 + q2 * p && 0 <= r2 < p
    ensures n % (b * p) == r1 + b * r2
  {
    assert q1 * b == r2 * b + q2 * (p * b) by {
      MulDistributes(b, r2, q2 * p);
      MulAssociates(q2, p, b);
    }
    MulLe(r2, p - 1, b);
    MulDistributes(b, p, -1);
    ModUnique(n, b * p, q2, r1 + b * r2);
  }

  lemma {:induction false} ModUnique(n: int, d: int, q: int, r: int)
    requires d > 0 && n == q * d + r && 0 <= r < d
    ensures n % d == r && n / d == q
  {
    var q0, r0 := n / d, n % d;
    assert n == q0 * d + r0;
    assert (q - q0) * d == r0 - r;
    MulSmallZero(q - q0, d, r0 - r);
  }

  lemma {:induction false} MulSmallZero(k: int, d: int, x: int)
    requires d > 0 && k * d == x && -d < x < d
    ensures k == 0
  {
    if k >= 1 {
      MulAtLeast(k, d);
    } else if k <= -1 {
      MulAtLeast(-k, d);
    }
  }

  lemma {:induction false} MulAtLeast(k: int, d: int)
    requires k >= 1 && d > 0
    ensures k * d >= d
  {
    assert k * d == d + (k - 1) * d;
    MulNonNegative(k - 1, d);
  }

  lemma {:induction false} MulDistributes(a: int, b: int, c: int)
    ensures a * (b + c) == a * b + a * c
  {
  }

  lemma {:induction false} MulAssociates(a: int, b: int, c: int)
    ensures a * (b * c) == (a * b) * c
  {
  }

  lemma {:induction false} MulCommutes(x: int, y: int)
    ensures x * y == y * x
  {
  }

  lemma {:induction false} MulNonNegative(a: int, b: int)
    requires a >= 0 && b >= 0
    ensures a * b >= 0
  {
  }

  lemma {:induction false} MulNonPositive(k: int, d: int)
    requires k <= 0 && d > 0
    ensures k * d <= 0
  {
    MulNonNegative(-k, d);
    assert (-k) * d == -(k * d);
  }

  /** x and y are congruent modulo m (m > 0 assumed by the callers). */
  predicate Congruent(x: int, y: int, m: nat)
  {
    m > 0 && (x - y) % m == 0
  }

  lemma {:induction false} CongruentOfMod(x: int, m: nat)
    requires m > 0
    ensures Congruent(x % m, x, m)
  {
    assert x == (x / m) * m + x % m;
    DivOfMultiple(x % m - x, m, -(x / m));
  }

  lemma {:induction false} CongruentModEq(x: int, y: int, m: nat)
    requires Congruent(x, y, m)
    ensures x % m == y % m
  {
    var k := (x - y) / m;
    assert x - y == k * m;
    assert x == y + k * m;
    assert y == (y / m) * m + y % m;
    assert x == (y / m + k) * m + y % m;
    ModUnique(x, m, y / m + k, y % m);
  }

  lemma {:induction false} CongruentByMod(x: int, y: int, m: nat)
    requires m > 0 && x % m == y % m
    ensures Congruent(x, y, m)
  {
    assert x == (x / m) * m + x % m;
    assert y == (y / m) * m + y % m;
    assert x - y == (x / m - y / m) * m;
    DivOfMultiple(x - y, m, x / m - y / m);
  }

  lemma {:induction false} CongruentTrans(x: int, y: int, z: int, m: nat)
    requires Congruent(x, y, m) && Congruent(y, z, m)
    ensures Congruent(x, z, m)
  {
    var i := (x - y) / m;
    var j := (y - z) / m;
    assert x - y == i * m;
    assert y - z == j * m;
    assert x - z == (i + j) * m;
    DivOfMultiple(x - z, m, i + j);
  }

  lemma {:induction false} CongruentSym(x: int, y: int, m: nat)
    requires Congruent(x, y, m)
    ensures Congruent(y, x, m)
  {
    var i := (x - y) / m;
    assert x - y == i * m;
    assert y - x == (-i) * m;
    DivOfMultiple(y - x, m, -i);
  }

  lemma {:induction false} CongruentMul(x: int, y: int, x': int, y': int, m: nat)
    requires Congruent(x, x', m) && Congruent(y, y', m)
    ensures Congruent(x * y, x' * y', m)
  {
    var i := (x - x') / m;
    var j := (y - y') / m;
    assert x == x' + i * m;
    assert y == y' + j * m;
    assert x * y - x' * y' == (i * y' + x' * j + i * j * m) * m;
    DivOfMultiple(x * y - x' * y', m, i * y' + x' * j + i * j * m);
  }

  lemma {:induction false} CongruentAdd(x: int, y: int, x': int, y': int, m: nat)
    requires Congruent(x, x', m) && Congruent(y, y', m)
    ensures Congruent(x + y, x' + y', m)
  {
    var i := (x - x') / m;
    var j := (y - y') / m;
    assert x - x' == i * m;
    assert y - y' == j * m;
    assert (x + y) - (x' + y') == (i + j) * m;
    DivOfMultiple((x + y) - (x' + y'), m, i + j);
  }

  lemma {:induction false} CongruentMultiple(x: int, k: int, m: nat)
    requires m > 0
    ensures Congruent(x + k * m, x, m)
  {
    DivOfMultiple(k * m, m, k);
  }

  lemma {:induction false} CongruentPow(x: nat, y: nat, e: nat, m: nat)
    requires Congruent(x, y, m)
    ensures Congruent(Pow(x, e), Pow(y, e), m)
  {
    if e == 0 {
      DivOfMultiple(0, m, 0);
    } else {
      CongruentPow(x, y, e - 1, m);
      CongruentMul(x, Pow(x, e - 1), y, Pow(y, e - 1), m);
    }
  }

  lemma {:induction false} DivDiv(x: nat, a: nat, b: nat)
    requires a > 0 && b > 0
    ensures a * b > 0 && (x / a) / b == x / (a * b)
  {
    var q1, r1 := x / a, x % a;
    var q2, r2 := q1 / b, q1 % b;
    assert x == a * q1 + r1;
    assert q1 == b * q2 + r2;
    assert x == (a * b) * q2 + (a * r2 + r1) by {
      MulDistributes(a, b * q2, r2);
      MulAssociates(a, b, q2);
    }
    assert a * r2 + r1 < a * b by {
      MulLe(r2, b - 1, a);
    }
    MulNonNegative(a, r2);
    ModUnique(x, a * b, q2, a * r2 + r1);
  }

  /** Multiplying both operands by the same positive factor keeps the quotient. */
  lemma {:induction false} DivCancel(x: nat, c: nat, d: nat)
    requires c > 0 && d > 0
    ensures c * d > 0 && (c * x) / (c * d) == x / d
  {
    var q, r := x / d, x % d;
    assert x == d * q + r;
    assert c * x == (c * d) * q + c * r by {
      MulDistributes(c, d * q, r);
      MulAssociates(c, d, q);
    }
    MulLe(r, d - 1, c);
    MulNonNegative(c, r);
    ModUnique(c * x, c * d, q, c * r);
  }
}
