/**
 * Java's fixed-width integers and integer division, and `MathUtil.gcd`.
 *
 * Dafny's `/` and `%` are Euclidean; Java's truncate toward zero, so the
 * remainder takes the sign of the dividend. `JavaDiv` and `JavaRem` write
 * Java's operators out. `EuclidGcd` is the `gcd` loop as a recursive
 * function (one call per iteration), and `Gcd` is the loop itself.
 */
module MathUtil {

  const IntMin: int := -0x8000_0000
  const IntMax: int := 0x7FFF_FFFF
  const LongMin: int := -0x8000_0000_0000_0000
  const LongMax: int := 0x7FFF_FFFF_FFFF_FFFF

  /** x is a value of Java's 32-bit `int` */
  predicate IsInt(x: int) { IntMin <= x <= IntMax }

  /** x is a value of Java's 64-bit `long` */
  predicate IsLong(x: int) { LongMin <= x <= LongMax }

  /** Java's `int` arithmetic: the exact value wrapped into 32 bits (two's complement). */
  function WrapInt(x: int): (w: int)
    ensures IsInt(w)
    ensures (w - x) % 0x1_0000_0000 == 0
    ensures IsInt(x) ==> w == x
  {
    (x - IntMin) % 0x1_0000_0000 + IntMin
  }

  /** Java's `long` arithmetic: the exact value wrapped into 64 bits (two's complement). */
  function WrapLong(x: int): (w: int)
    ensures IsLong(w)
    ensures (w - x) % 0x1_0000_0000_0000_0000 == 0
    ensures IsLong(x) ==> w == x
  {
    (x - LongMin) % 0x1_0000_0000_0000_0000 + LongMin
  }

  function Abs(x: int): nat { if x < 0 then -x else x }

  /** Java's `a / b`: the quotient of the magnitudes, negated when the signs differ. */
  function JavaDiv(a: int, b: int): (q: int)
    requires b != 0
    ensures Abs(q) == Abs(a) / Abs(b)
    ensures (a < 0) == (b < 0) ==> q >= 0
    ensures (a < 0) != (b < 0) ==> q <= 0
  {
    var m := Abs(a) / Abs(b);
    DivNonNegative(Abs(a), Abs(b));
    if (a < 0) == (b < 0) then m else -m
  }

  lemma DivNonNegative(x: nat, y: nat)
    requires y > 0
    ensures x / y >= 0
  {
  }

  /** Java's `a % b`: the remainder of the magnitudes, with the sign of `a`. */
  function JavaRem(a: int, b: int): (r: int)
    requires b != 0
    // the identity section 15.17.3 of the Java Language Specification demands
    ensures JavaDiv(a, b) * b + r == a
    ensures Abs(r) < Abs(b)
    ensures a >= 0 ==> r >= 0
    ensures a <= 0 ==> r <= 0
  {
    var m := Abs(a) % Abs(b);
    assert Abs(a) == Abs(b) * (Abs(a) / Abs(b)) + m;
    if a >= 0 then m else -m
  }

  /** For a non-negative dividend and positive divisor Java and Dafny agree. */
  lemma JavaDivRemNonNegative(a: int, b: int)
    requires a >= 0 && b > 0
    ensures JavaDiv(a, b) == a / b && JavaRem(a, b) == a % b
  {
  }

  /** The division a / d is exact: n == d * k for the quotient k. */
  lemma {:induction false} DivModUnique(n: int, d: int, k: int, r: int)
    requires d > 0 && 0 <= r < d && n == d * k + r
    ensures n / d == k && n % d == r
  {
    var k', r' := n / d, n % d;
    assert n == d * k' + r';
    var e := k - k';
    assert d * e == r' - r by {
      assert d * k - d * k' == d * (k - k');
    }
    if e >= 1 {
      MulMonotonic(d, e);
    } else if e <= -1 {
      MulMonotonic(d, -e);
    }
  }

  lemma MulMonotonic(d: int, e: int)
    requires d > 0 && e >= 1
    ensures d * e >= d
  {
    assert d * e == d * (e - 1) + d;
  }

  /** `d` divides `n` (zero divides only zero). */
  predicate Divides(d: nat, n: int)
  {
    if d == 0 then n == 0 else n % d == 0
  }

  /** `g` is a greatest common divisor of `a` and `b`: a common divisor that every common divisor divides. */
  ghost predicate IsGcd(g: nat, a: nat, b: nat)
  {
    && Divides(g, a)
    && Divides(g, b)
    && forall d: nat :: Divides(d, a) && Divides(d, b) ==> Divides(d, g)
  }

  lemma {:induction false} DividesMultiple(d: nat, k: int)
    ensures Divides(d, d * k)
  {
    if d > 0 {
      DivModUnique(d * k, d, k, 0);
    }
  }

  lemma {:induction false} DividesCombination(d: nat, a: int, b: int, t: int)
    requires Divides(d, a) && Divides(d, b)
    ensures Divides(d, a + b * t)
  {
    if d > 0 {
      var x, y := a / d, b / d;
      assert a == d * x && b == d * y;
      assert a + b * t == d * (x + y * t);
      DividesMultiple(d, x + y * t);
    }
  }

  /**
   * `MathUtil.gcd(p, q)` as recursion: while `q != 0` the loop moves to
   * `(q, p % q)` with Java's remainder, whose magnitude is below `|q|`.
   */
  function EuclidGcd(p: int, q: int): int
    decreases Abs(q)
  {
    if q == 0 then p else EuclidGcd(q, JavaRem(p, q))
  }

  /** `MathUtil.gcd`: the Euclidean loop, updating its two locals in place. */
  method Gcd(p: int, q: int) returns (g: int)
    requires IsInt(p) && IsInt(q)
    ensures g == EuclidGcd(p, q)
    ensures IsGcd(Abs(g), Abs(p), Abs(q))
    ensures p >= 0 && q >= 0 ==> g >= 0
  {
    var x, y := p, q;
    while y != 0
      invariant EuclidGcd(x, y) == EuclidGcd(p, q)
      decreases Abs(y)
    {
      var r := y;
      y := JavaRem(x, y);
      x := r;
    }
    g := x;
    GcdIsGcd(p, q);
    if p >= 0 && q >= 0 {
      GcdNonNegative(p, q);
    }
  }

  /** With non-negative inputs every step stays non-negative, so the result is. */
  lemma {:induction false} GcdNonNegative(p: int, q: int)
    requires p >= 0 && q >= 0
    ensures EuclidGcd(p, q) >= 0
    decreases q
  {
    if q != 0 {
      GcdNonNegative(q, JavaRem(p, q));
    }
  }

  /** The magnitude of the result does not depend on the signs of the inputs. */
  lemma {:induction false} GcdOfMagnitudes(p: int, q: int)
    ensures Abs(EuclidGcd(p, q)) == EuclidGcd(Abs(p), Abs(q))
    decreases Abs(q)
  {
    if q != 0 {
      var r := JavaRem(p, q);
      GcdOfMagnitudes(q, r);
      assert Abs(r) == Abs(p) % Abs(q);
      JavaDivRemNonNegative(Abs(p), Abs(q));
      assert EuclidGcd(Abs(p), Abs(q)) == EuclidGcd(Abs(q), Abs(p) % Abs(q));
    }
  }

  lemma {:induction false} GcdDividesBoth(a: nat, b: nat)
    ensures EuclidGcd(a, b) >= 0
    ensures Divides(EuclidGcd(a, b), a) && Divides(EuclidGcd(a, b), b)
    decreases b
  {
    if b == 0 {
      DividesMultiple(a, 0);
      assert a * 1 == a;
      DividesMultiple(a, 1);
    } else {
      JavaDivRemNonNegative(a, b);
      var g := EuclidGcd(a, b);
      GcdDividesBoth(b, a % b);
      assert g == EuclidGcd(b, a % b);
      DividesCombination(g, a % b, b, a / b);
      assert a == a % b + b * (a / b);
    }
  }

  lemma {:induction false} CommonDivisorDividesGcd(a: nat, b: nat, d: nat)
    requires Divides(d, a) && Divides(d, b)
    ensures Divides(d, EuclidGcd(a, b))
    decreases b
  {
    if b != 0 {
      JavaDivRemNonNegative(a, b);
      DividesCombination(d, a, b, -(a / b));
      assert a % b == a + b * -(a / b);
      CommonDivisorDividesGcd(b, a % b, d);
    }
  }

  /** The absolute value of `gcd(p, q)` is the greatest common divisor of `|p|` and `|q|`. */
  lemma GcdIsGcd(p: int, q: int)
    ensures IsGcd(Abs(EuclidGcd(p, q)), Abs(p), Abs(q))
  {
    GcdOfMagnitudes(p, q);
    GcdDividesBoth(Abs(p), Abs(q));
    forall d: nat | Divides(d, Abs(p)) && Divides(d, Abs(q))
      ensures Divides(d, Abs(EuclidGcd(p, q)))
    {
      CommonDivisorDividesGcd(Abs(p), Abs(q), d);
    }
  }

  /** Scaling both inputs by k > 0 scales the gcd by k. */
  lemma {:induction false} GcdScale(k: nat, a: nat, b: nat)
    requires k > 0
    ensures EuclidGcd(k * a, k * b) == k * EuclidGcd(a, b)
    decreases b
  {
    if b != 0 {
      var t, m := a / b, a % b;
      ScaledDivision(k, a, b, t, m);
      JavaDivRemNonNegative(a, b);
      JavaDivRemNonNegative(k * a, k * b);
      GcdScale(k, b, m);
    }
  }

  /** Scaling dividend and divisor by k keeps the quotient and scales the remainder. */
  lemma ScaledDivision(k: nat, a: nat, b: nat, t: int, m: int)
    requires k > 0 && b > 0 && 0 <= m < b && a == b * t + m
    ensures k * b > 0 && (k * a) / (k * b) == t && (k * a) % (k * b) == k * m
  {
    MulMonotonic(k, b);
    assert k * a == (k * b) * t + k * m by {
      assert k * (b * t + m) == (k * b) * t + k * m;
    }
    assert k * m < k * b by {
      assert k * b - k * m == k * (b - m);
      MulMonotonic(k, b - m);
    }
    DivModUnique(k * a, k * b, t, k * m);
  }

  /** Dividing both inputs by their gcd leaves a pair whose gcd is 1. */
  lemma GcdOfQuotients(a: nat, b: nat)
    requires EuclidGcd(a, b) > 0
    ensures Divides(EuclidGcd(a, b), a) && Divides(EuclidGcd(a, b), b)
    ensures EuclidGcd(a / EuclidGcd(a, b), b / EuclidGcd(a, b)) == 1
  {
    var g := EuclidGcd(a, b);
    GcdDividesBoth(a, b);
    ExactQuotient(g, a);
    ExactQuotient(g, b);
    CoprimeAfterScale(g, a / g, b / g);
  }

  lemma CoprimeAfterScale(g: nat, x: nat, y: nat)
    requires g > 0 && EuclidGcd(g * x, g * y) == g
    ensures EuclidGcd(x, y) == 1
  {
    GcdScale(g, x, y);
    assert g * EuclidGcd(x, y) == g * 1;
    MulCancel(g, EuclidGcd(x, y), 1);
  }

  lemma ExactQuotient(d: nat, n: int)
    requires d > 0 && Divides(d, n)
    ensures d * (n / d) == n
  {
  }

  lemma MulCancel(g: int, x: int, y: int)
    requires g > 0 && g * x == g * y
    ensures x == y
  {
    if x < y {
      assert g * y - g * x == g * (y - x);
      MulMonotonic(g, y - x);
    } else if x > y {
      assert g * x - g * y == g * (x - y);
      MulMonotonic(g, x - y);
    }
  }

  /** `m` and `n` have no common divisor but 1. */
  ghost predicate Coprime(m: nat, n: nat)
  {
    forall d: nat :: Divides(d, m) && Divides(d, n) ==> d == 1
  }

  /** For a positive `n`, being coprime is having gcd 1. */
  lemma CoprimeIff(m: nat, n: nat)
    requires n > 0
    ensures Coprime(m, n) <==> EuclidGcd(m, n) == 1
  {
    GcdDividesBoth(m, n);
    var g := EuclidGcd(m, n);
    if EuclidGcd(m, n) == 1 {
      forall d: nat | Divides(d, m) && Divides(d, n)
        ensures d == 1
      {
        CommonDivisorDividesGcd(m, n, d);
        assert 1 % d == 0;
      }
    }
  }

  /** `gcd(p, 0) == p` and `gcd(0, q) == q`. */
  lemma GcdWithZero(p: int, q: int)
    ensures EuclidGcd(p, 0) == p
    ensures EuclidGcd(0, q) == q
  {
    if q != 0 {
      assert EuclidGcd(0, q) == EuclidGcd(q, 0);
    }
  }

  /** For x >= 0, `gcd(x, x) == x` and `gcd(x, 2x) == x`. */
  lemma GcdSelfAndDouble(x: int)
    requires x >= 0
    ensures EuclidGcd(x, x) == x
    ensures EuclidGcd(x, 2 * x) == x
  {
    if x != 0 {
      JavaDivRemNonNegative(x, x);
      DivModUnique(x, x, 1, 0);
      assert EuclidGcd(x, x) == EuclidGcd(x, 0);
      JavaDivRemNonNegative(x, 2 * x);
      DivModUnique(x, 2 * x, 0, x);
      JavaDivRemNonNegative(2 * x, x);
      DivModUnique(2 * x, x, 2, 0);
      assert EuclidGcd(x, 2 * x) == EuclidGcd(2 * x, x) == EuclidGcd(x, 0);
    }
  }

  /** The test in MathUtilTest.java expects `gcd(-a, b) == -gcd(a, b)`; with Java's remainder `gcd(-4, 6)` is 2, not -2. */
  lemma NegatedGcdCounterexample()
    ensures EuclidGcd(-4, 6) == 2 && -EuclidGcd(4, 6) == -2
  {
    assert JavaRem(-4, 6) == -4;
    assert JavaRem(6, -4) == 2;
    assert JavaRem(-4, 2) == 0;
    assert EuclidGcd(-4, 6) == EuclidGcd(6, -4) == EuclidGcd(-4, 2) == EuclidGcd(2, 0) == 2;
    assert JavaRem(4, 6) == 4;
    assert JavaRem(6, 4) == 2;
    assert JavaRem(4, 2) == 0;
    assert EuclidGcd(4, 6) == EuclidGcd(6, 4) == EuclidGcd(4, 2) == EuclidGcd(2, 0) == 2;
  }

  /** What holds instead: negating an input leaves the magnitude of the gcd unchanged. */
  lemma GcdIgnoresSign(a: int, b: int)
    ensures Abs(EuclidGcd(-a, b)) == Abs(EuclidGcd(a, b))
  {
    GcdOfMagnitudes(-a, b);
    GcdOfMagnitudes(a, b);
  }
}
