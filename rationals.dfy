/**
 * `Rational`: an exact fraction p/q over Java `int`s, kept in canonical form
 * (q > 0, the sign in p, gcd(|p|, q) == 1). Every operation rebuilds its
 * result through the normalising constructor.
 *
 * `Val` gives the number a Rational denotes; each operation's contract says
 * what it does to that number. Java's `int` arithmetic is modelled by
 * preconditions that every intermediate value fits in 32 bits.
 */
module Rationals {
  import opened MathUtil
  import opened Results

  /** The two fields of a `Rational`: the numerator `p` (which carries the sign) and the denominator `q`. */
  datatype Fraction = Fraction(p: int, q: int)

  /** The invariant every constructed `Rational` has. */
  ghost predicate Canonical(f: Fraction)
  {
    && IsInt(f.p) && IsInt(f.q)
    && f.q > 0
    && Coprime(Abs(f.p), f.q)
  }

  type Rational = f: Fraction | Canonical(f) witness Fraction(0, 1)

  const NegativeOne: Rational := FromInt(-1)
  const NegativeHalf: Rational := Normalize(-1, 2)
  const Zero: Rational := FromInt(0)
  const Half: Rational := Normalize(1, 2)
  const One: Rational := FromInt(1)

  /** The number p/q. */
  ghost function Value(p: int, q: int): real
    requires q != 0
  {
    p as real / q as real
  }

  /** The number a Rational denotes. */
  ghost function Val(r: Rational): real
  {
    Value(r.p, r.q)
  }

  // ---------------------------------------------------------------------
  // Construction

  /** The constructor's own arithmetic (negating p and q when q < 0) stays inside `int`. */
  predicate ConstructorFits(p: int, q: int)
  {
    IsInt(p) && IsInt(q) && (q < 0 ==> p != IntMin && q != IntMin)
  }

  /** `new Rational(p, q)` once `q == 0` is ruled out: move the sign to `p`, then divide both by their gcd. */
  function Normalize(p: int, q: int): (r: Rational)
    requires ConstructorFits(p, q) && q != 0
    ensures Val(r) == Value(p, q)
  {
    var p1 := if q < 0 then -p else p;
    var q1 := if q < 0 then -q else q;
    var g := Abs(EuclidGcd(p1, q1));
    ReduceIsCanonical(p1, q1);
    NormalizeValue(p, q, p1, q1, g);
    Fraction(JavaDiv(p1, g), JavaDiv(q1, g))
  }

  /** `new Rational(p, q)`: fails exactly when the denominator is zero. */
  function Of(p: int, q: int): (r: Result<Rational>)
    requires ConstructorFits(p, q)
    ensures r.Failure? <==> q == 0
    ensures r.Failure? ==> r.error == ZeroDenominator
    ensures r.Success? ==> Val(r.value) == Value(p, q)
  {
    if q == 0 then Failure(ZeroDenominator) else Success(Normalize(p, q))
  }

  /** `new Rational(p)`, that is `new Rational(p, 1)`. */
  function FromInt(n: int): (r: Rational)
    requires IsInt(n)
    ensures Val(r) == n as real
    ensures r == Fraction(n, 1)
  {
    var r := Normalize(n, 1);
    CoprimeWithOne(Abs(n));
    assert Val(Fraction(n, 1)) == n as real;
    ValInjective(r, Fraction(n, 1));
    r
  }

  // ---------------------------------------------------------------------
  // Queries

  /**
   * `getNumerator()`: the magnitude of the numerator, through Java's `Math.abs`,
   * which leaves `Integer.MIN_VALUE` negative.
   */
  function GetNumerator(a: Rational): (n: int)
    ensures a.p != IntMin ==> n >= 0 && (n == a.p || n == -a.p)
    ensures a.p != IntMin ==> n as real == Abs0(Val(a)) * a.q as real
    ensures a.p == IntMin ==> n == IntMin
  {
    if a.p == IntMin then IntMin else Abs(a.p)
  }

  /** `getDenominator()`: always positive. */
  function GetDenominator(a: Rational): (d: int)
    ensures d > 0
    ensures Val(a) * d as real == a.p as real
  {
    a.q
  }

  /** `isNegative()`: the numerator is negative. */
  function IsNegative(a: Rational): (b: bool)
    ensures b <==> Val(a) < 0.0
  {
    a.p < 0
  }

  /** `signum()`: the sign of the number. */
  function Signum(a: Rational): (s: int)
    ensures s == -1 || s == 0 || s == 1
    ensures s == -1 <==> Val(a) < 0.0
    ensures s == 0 <==> a == Zero
    ensures s == 1 <==> Val(a) > 0.0
  {
    ZeroIff(a);
    ValueZero(a);
    if a.p == 0 then 0
    else if a.p < 0 then -1 else 1
  }

  /** `equals`: the pairs are compared field by field, and that is equality of the numbers. */
  function Equals(a: Rational, b: Rational): (e: bool)
    ensures e <==> Val(a) == Val(b)
  {
    ValEqualIff(a, b);
    a.p == b.p && a.q == b.q
  }

  /**
   * `compareTo` as its `long` locals intend: the cross products compared
   * without overflow. The code as written multiplies in `int` first; see
   * `CompareToAsWritten`.
   */
  function CompareTo(a: Rational, b: Rational): (c: int)
    ensures c == -1 || c == 0 || c == 1
    ensures c < 0 <==> Val(a) < Val(b)
    ensures c == 0 <==> a == b
    ensures c > 0 <==> Val(a) > Val(b)
  {
    var lhs := a.p * b.q;
    var rhs := a.q * b.p;
    ValueOrder(a.p, a.q, b.p, b.q);
    if lhs < rhs then -1
    else if lhs > rhs then 1
    else ValInjective(a, b); 0
  }

  /** `compareTo` as written: the two cross products are computed in `int`, wrapped, and only then widened to `long`. */
  function CompareToAsWritten(a: Rational, b: Rational): (c: int)
    ensures c == -1 || c == 0 || c == 1
  {
    var lhs := WrapInt(a.p * b.q);
    var rhs := WrapInt(a.q * b.p);
    if lhs < rhs then -1 else if lhs > rhs then 1 else 0
  }

  /** While no product overflows, the code as written agrees with the intended comparison. */
  lemma CompareToAsWrittenWithinInt(a: Rational, b: Rational)
    requires IsInt(a.p * b.q) && IsInt(a.q * b.p)
    ensures CompareToAsWritten(a, b) == CompareTo(a, b)
  {
  }

  /** 65536 compared with 1/65536: `65536 * 65536` wraps to 0, and the code as written answers "less". */
  lemma CompareToAsWrittenOverflows()
    ensures Canonical(Fraction(65536, 1)) && Canonical(Fraction(1, 65536))
    ensures Val(Fraction(65536, 1)) > Val(Fraction(1, 65536))
    ensures CompareToAsWritten(Fraction(65536, 1), Fraction(1, 65536)) == -1
  {
    CoprimeWithOne(65536);
    ValueOrder(1, 65536, 65536, 1);
    assert WrapInt(65536 * 65536) == 0;
  }

  // ---------------------------------------------------------------------
  // Arithmetic

  predicate AddFits(a: Rational, b: Rational)
  {
    IsInt(a.p * b.q) && IsInt(b.p * a.q) && IsInt(a.p * b.q + b.p * a.q) && IsInt(a.q * b.q)
  }

  /** `add(Rational r)`: the cross-multiplied sum over the product of the denominators. */
  function Add(a: Rational, b: Rational): (r: Rational)
    requires AddFits(a, b)
    ensures Val(r) == Val(a) + Val(b)
  {
    PositiveProduct(a.q, b.q);
    ValueSum(a.p, a.q, b.p, b.q);
    Normalize(a.p * b.q + b.p * a.q, a.q * b.q)
  }

  predicate AddIntFits(a: Rational, n: int)
  {
    IsInt(n) && IsInt(n * a.q) && IsInt(a.p + n * a.q)
  }

  /** `add(int n)`: the sum with n/1, built the same way. */
  function AddInt(a: Rational, n: int): (r: Rational)
    requires AddIntFits(a, n)
    ensures Val(r) == Val(a) + n as real
  {
    ValueSum(a.p, a.q, n, 1);
    Normalize(a.p * 1 + n * a.q, a.q * 1)
  }

  predicate SubtractFits(a: Rational, b: Rational)
  {
    IsInt(a.p * b.q) && IsInt(b.p * a.q) && IsInt(a.p * b.q - b.p * a.q) && IsInt(a.q * b.q)
  }

  /** `subtract(Rational r)`: the cross-multiplied difference over the product of the denominators. */
  function Subtract(a: Rational, b: Rational): (r: Rational)
    requires SubtractFits(a, b)
    ensures Val(r) == Val(a) - Val(b)
  {
    ValueDifference(a.p, a.q, b.p, b.q);
    Normalize(a.p * b.q - b.p * a.q, a.q * b.q)
  }

  predicate SubtractIntFits(a: Rational, n: int)
  {
    IsInt(n) && IsInt(n * a.q) && IsInt(a.p - n * a.q)
  }

  /** `subtract(int n)`: the difference with n/1, built the same way. */
  function SubtractInt(a: Rational, n: int): (r: Rational)
    requires SubtractIntFits(a, n)
    ensures Val(r) == Val(a) - n as real
  {
    ValueDifference(a.p, a.q, n, 1);
    Normalize(a.p * 1 - n * a.q, a.q * 1)
  }

  predicate MultiplyFits(a: Rational, b: Rational)
  {
    IsInt(a.p * b.p) && IsInt(a.q * b.q)
  }

  /** `multiply(Rational r)`: numerators and denominators multiplied. */
  function Multiply(a: Rational, b: Rational): (r: Rational)
    requires MultiplyFits(a, b)
    ensures Val(r) == Val(a) * Val(b)
  {
    PositiveProduct(a.q, b.q);
    ValueProduct(a.p, a.q, b.p, b.q);
    Normalize(a.p * b.p, a.q * b.q)
  }

  predicate MultiplyIntFits(a: Rational, n: int)
  {
    IsInt(n) && IsInt(a.p * n)
  }

  /** `multiply(int n)`: the numerator multiplied by n. */
  function MultiplyInt(a: Rational, n: int): (r: Rational)
    requires MultiplyIntFits(a, n)
    ensures Val(r) == Val(a) * n as real
  {
    ValueProduct(a.p, a.q, n, 1);
    Normalize(a.p * n, a.q)
  }

  predicate DivideIntFits(a: Rational, n: int)
  {
    IsInt(n) && ConstructorFits(a.p, a.q * n)
  }

  /** `divide(int n)`: the denominator multiplied by n; dividing by 0 fails through the constructor's zero-denominator check. */
  function DivideInt(a: Rational, n: int): (r: Result<Rational>)
    requires DivideIntFits(a, n)
    ensures r.Failure? <==> n == 0
    ensures r.Failure? ==> r.error == ZeroDenominator
    ensures r.Success? ==> Val(r.value) == Val(a) / n as real
  {
    if n == 0 then Of(a.p, a.q * n)
    else
      ValueQuotient(a.p, a.q, n, 1);
      Of(a.p, a.q * n)
  }

  predicate DivideFits(a: Rational, b: Rational)
  {
    ConstructorFits(a.p * b.q, a.q * b.p)
  }

  /** `divide(Rational r)`: multiplication by the swapped fraction; dividing by zero fails through the zero-denominator check. */
  function Divide(a: Rational, b: Rational): (r: Result<Rational>)
    requires DivideFits(a, b)
    ensures r.Failure? <==> Val(b) == 0.0
    ensures r.Failure? ==> r.error == ZeroDenominator
    ensures r.Success? ==> Val(r.value) == Val(a) / Val(b)
  {
    ValueZero(b);
    if b.p == 0 then Of(a.p * b.q, a.q * b.p)
    else
      ValueQuotient(a.p, a.q, b.p, b.q);
      Of(a.p * b.q, a.q * b.p)
  }

  /** `inverse()`: numerator and denominator swapped; zero has no inverse and fails through the zero-denominator check. */
  function Inverse(a: Rational): (r: Result<Rational>)
    requires a.p != IntMin
    ensures r.Failure? <==> a == Zero
    ensures r.Failure? ==> r.error == ZeroDenominator
    ensures r.Success? ==> Val(a) != 0.0 && Val(r.value) == 1.0 / Val(a)
    ensures r.Success? ==> r.value.p != IntMin && GetNumerator(r.value) == a.q && GetDenominator(r.value) == Abs(a.p)
    ensures r.Success? ==> Signum(r.value) == Signum(a)
  {
    ZeroIff(a);
    if a.p == 0 then Of(a.q, a.p)
    else
      InverseFields(a);
      Of(a.q, a.p)
  }

  /** `negate()`: the numerator negated in `int`, so `Integer.MIN_VALUE` stays as it is. */
  function Negate(a: Rational): (r: Rational)
    ensures a.p != IntMin ==> Val(r) == -Val(a)
    ensures a.p == IntMin ==> r == a
  {
    var p := if a.p == IntMin then IntMin else -a.p;
    if a.p == IntMin then
      ValInjective(Normalize(a.p, a.q), a);
      Normalize(p, a.q)
    else
      ValueNegate(a.p, a.q);
      Normalize(p, a.q)
  }

  /** `absolute()`: the negation of a negative number, otherwise the number itself. */
  function Absolute(a: Rational): (r: Rational)
    ensures a.p != IntMin ==> Val(r) == Abs0(Val(a))
    ensures a.p != IntMin ==> (r == a <==> !IsNegative(a))
    ensures a.p == IntMin ==> r == a
    ensures r == Normalize(GetNumerator(a), GetDenominator(a))
  {
    var r := if a.p < 0 then Negate(a) else a;
    var n := Normalize(GetNumerator(a), GetDenominator(a));
    if a.p == IntMin then
      ValInjective(n, a);
      r
    else
      assert Val(n) == Abs0(Val(a)) by {
        ValueNegate(a.p, a.q);
        ValueZero(a);
      }
      ValInjective(r, n);
      r
  }

  predicate MediantFits(a: Rational, b: Rational)
  {
    IsInt(a.p + b.p) && IsInt(a.q + b.q)
  }

  /** `mediant(Rational r)`: the sum of the numerators over the sum of the denominators. */
  function Mediant(a: Rational, b: Rational): (r: Rational)
    requires MediantFits(a, b)
    ensures Val(r) == Value(a.p + b.p, a.q + b.q)
    ensures Val(a) <= Val(b) ==> Val(a) <= Val(r) <= Val(b)
    ensures Val(b) <= Val(a) ==> Val(b) <= Val(r) <= Val(a)
  {
    MediantBetween(a.p, a.q, b.p, b.q);
    Normalize(a.p + b.p, a.q + b.q)
  }

  // ---------------------------------------------------------------------
  // Properties

  /** Canonical form is unique: two Rationals that denote the same number are the same pair. */
  lemma ValInjective(a: Rational, b: Rational)
    requires Val(a) == Val(b)
    ensures a == b
  {
    ValueOrder(a.p, a.q, b.p, b.q);
    CrossEqual(a.p, a.q, b.p, b.q);
  }

  lemma ValEqualIff(a: Rational, b: Rational)
    ensures Val(a) == Val(b) <==> a == b
  {
    if Val(a) == Val(b) {
      ValInjective(a, b);
    }
  }

  /** The constants in lowest terms. */
  lemma ConstantFields()
    ensures Zero == Fraction(0, 1) && One == Fraction(1, 1) && NegativeOne == Fraction(-1, 1)
    ensures Half == Fraction(1, 2) && NegativeHalf == Fraction(-1, 2)
  {
    CoprimeWithOne(2);
    ValInjective(Half, Fraction(1, 2));
    ValInjective(NegativeHalf, Fraction(-1, 2));
  }

  /** `Rational(2, 4)` is 1/2, `Rational(3, -6)` is -1/2, and zero over any denominator is 0/1. */
  lemma ConstructorExamples(q: int)
    requires q != 0 && ConstructorFits(0, q)
    ensures Of(2, 4) == Success(Fraction(1, 2))
    ensures Of(3, -6) == Success(Fraction(-1, 2))
    ensures Of(0, q) == Success(Fraction(0, 1))
  {
    ConstantFields();
    assert Value(2, 4) == Val(Half);
    ValInjective(Of(2, 4).value, Half);
    assert Value(3, -6) == Val(NegativeHalf);
    ValInjective(Of(3, -6).value, NegativeHalf);
    ValInjective(Of(0, q).value, Zero);
  }

  lemma AddCommutative(a: Rational, b: Rational)
    requires AddFits(a, b)
    ensures AddFits(b, a) && Add(a, b) == Add(b, a)
  {
    ValInjective(Add(a, b), Add(b, a));
  }

  lemma MultiplyCommutative(a: Rational, b: Rational)
    requires MultiplyFits(a, b)
    ensures MultiplyFits(b, a) && Multiply(a, b) == Multiply(b, a)
  {
    assert b.p * a.p == a.p * b.p && b.q * a.q == a.q * b.q;
    assert Val(Multiply(a, b)) == Val(a) * Val(b) == Val(b) * Val(a) == Val(Multiply(b, a));
    ValInjective(Multiply(a, b), Multiply(b, a));
  }

  /** Adding zero changes nothing. */
  lemma AddZero(a: Rational)
    ensures AddFits(a, Zero) && Add(a, Zero) == a
  {
    ConstantFields();
    assert a.p * 1 == a.p && 0 * a.q == 0 && a.q * 1 == a.q;
    ValInjective(Add(a, Zero), a);
  }

  /** A number minus itself is zero. */
  lemma SubtractSelf(a: Rational)
    requires SubtractFits(a, a)
    ensures SubtractFits(a, a) && Subtract(a, a) == Zero
  {
    ConstantFields();
    ValInjective(Subtract(a, a), Zero);
  }

  /** `add(int n)` is `add(new Rational(n))`. */
  lemma AddIntIsAdd(a: Rational, n: int)
    requires AddIntFits(a, n)
    ensures AddFits(a, FromInt(n)) && AddInt(a, n) == Add(a, FromInt(n))
  {
    assert a.p * 1 == a.p && a.q * 1 == a.q;
    ValInjective(AddInt(a, n), Add(a, FromInt(n)));
  }

  /** `subtract(int n)` is `subtract(new Rational(n))`. */
  lemma SubtractIntIsSubtract(a: Rational, n: int)
    requires SubtractIntFits(a, n)
    ensures SubtractFits(a, FromInt(n)) && SubtractInt(a, n) == Subtract(a, FromInt(n))
  {
    assert a.p * 1 == a.p && a.q * 1 == a.q;
    ValInjective(SubtractInt(a, n), Subtract(a, FromInt(n)));
  }

  /** `a.subtract(n) == a.add(-n)`. */
  lemma SubtractIntIsAddNegated(a: Rational, n: int)
    requires SubtractIntFits(a, n) && AddIntFits(a, -n)
    ensures SubtractInt(a, n) == AddInt(a, -n)
  {
    ValInjective(SubtractInt(a, n), AddInt(a, -n));
  }

  /** `multiply(int n)` is `multiply(new Rational(n))`. */
  lemma MultiplyIntIsMultiply(a: Rational, n: int)
    requires MultiplyIntFits(a, n)
    ensures MultiplyFits(a, FromInt(n)) && MultiplyInt(a, n) == Multiply(a, FromInt(n))
  {
    assert a.q * 1 == a.q;
    ValInjective(MultiplyInt(a, n), Multiply(a, FromInt(n)));
  }

  /** `divide(int n)` is `divide(new Rational(n))`. */
  lemma DivideIntIsDivide(a: Rational, n: int)
    requires DivideIntFits(a, n)
    ensures DivideFits(a, FromInt(n)) && DivideInt(a, n) == Divide(a, FromInt(n))
  {
    assert a.p * 1 == a.p;
    if n != 0 {
      ValInjective(DivideInt(a, n).value, Divide(a, FromInt(n)).value);
    }
  }

  /** `multiply(1)` and `divide(1)` change nothing; `multiply(0)` is zero. */
  lemma MultiplyByOneAndZero(a: Rational)
    ensures MultiplyInt(a, 1) == a && DivideInt(a, 1) == Success(a)
    ensures MultiplyInt(a, 0) == Zero
  {
    ConstantFields();
    ValInjective(MultiplyInt(a, 1), a);
    ValInjective(DivideInt(a, 1).value, a);
    ValInjective(MultiplyInt(a, 0), Zero);
  }

  /** `negate()` is `multiply(-1)`. */
  lemma NegateIsMultiplyNegativeOne(a: Rational)
    requires a.p != IntMin
    ensures MultiplyIntFits(a, -1) && Negate(a) == MultiplyInt(a, -1)
  {
    ValInjective(Negate(a), MultiplyInt(a, -1));
  }

  /** A nonzero number times its inverse is one. */
  lemma MultiplyByInverse(a: Rational, b: Rational)
    requires a.p != IntMin && Inverse(a) == Success(b)
    requires MultiplyFits(a, b)
    ensures Multiply(a, b) == One
  {
    InverseProduct(a, b);
    ProductIsOne(a, b);
  }

  lemma InverseProduct(a: Rational, b: Rational)
    requires Val(a) != 0.0 && Val(b) == 1.0 / Val(a)
    ensures Val(a) * Val(b) == 1.0
  {
    Reciprocal(Val(a));
  }

  lemma ProductIsOne(a: Rational, b: Rational)
    requires MultiplyFits(a, b) && Val(a) * Val(b) == 1.0
    ensures Multiply(a, b) == One
  {
    ConstantFields();
    ValInjective(Multiply(a, b), One);
  }

  /** Every number is less than itself plus one and greater than itself minus one. */
  lemma CompareWithNeighbours(a: Rational)
    requires AddIntFits(a, 1) && SubtractIntFits(a, 1)
    ensures CompareTo(a, AddInt(a, 1)) == -1
    ensures CompareTo(a, SubtractInt(a, 1)) == 1
  {
  }

  /** `a.add(a) == a.multiply(2)`, and for a positive `a` the sum is larger (zero is its own double). */
  lemma AddSelf(a: Rational)
    requires AddFits(a, a) && MultiplyIntFits(a, 2)
    ensures Add(a, a) == MultiplyInt(a, 2)
    ensures Val(a) > 0.0 <==> CompareTo(a, Add(a, a)) == -1
  {
    ValInjective(Add(a, a), MultiplyInt(a, 2));
  }

  /** Doubling moves away from zero, halving moves towards it; zero stays put. */
  lemma ScaleByTwo(a: Rational)
    requires MultiplyIntFits(a, 2) && DivideIntFits(a, 2)
    ensures IsNegative(a) ==> CompareTo(MultiplyInt(a, 2), a) == -1 && CompareTo(DivideInt(a, 2).value, a) == 1
    ensures Val(a) > 0.0 ==> CompareTo(MultiplyInt(a, 2), a) == 1 && CompareTo(DivideInt(a, 2).value, a) == -1
    ensures a == Zero ==> MultiplyInt(a, 2) == a && DivideInt(a, 2) == Success(a)
  {
    ZeroIff(a);
    ValueZero(a);
    if a == Zero {
      ValInjective(MultiplyInt(a, 2), a);
      ValInjective(DivideInt(a, 2).value, a);
    }
  }

  /** `a.subtract(ZERO) == a` and `a.subtract(a).subtract(a) == a.negate()`. */
  lemma SubtractIdentities(a: Rational)
    requires a.p != IntMin && SubtractFits(a, a)
    ensures SubtractFits(a, Zero) && Subtract(a, Zero) == a
    ensures SubtractFits(Subtract(a, a), a) && Subtract(Subtract(a, a), a) == Negate(a)
  {
    ConstantFields();
    assert a.p * 1 == a.p && 0 * a.q == 0 && a.q * 1 == a.q;
    ValInjective(Subtract(a, Zero), a);
    SubtractSelf(a);
    assert Subtract(a, a) == Fraction(0, 1);
    ValInjective(Subtract(Subtract(a, a), a), Negate(a));
  }

  // ---------------------------------------------------------------------
  // Helpers

  ghost function Abs0(x: real): real { if x < 0.0 then -x else x }

  lemma Reciprocal(x: real)
    requires x != 0.0
    ensures x * (1.0 / x) == 1.0
  {
  }

  lemma PositiveProduct(x: int, y: int)
    requires x > 0 && y > 0
    ensures x * y > 0
  {
    MulMonotonic(x, y);
  }

  lemma NonZeroProduct(x: int, y: int)
    requires x > 0 && y != 0
    ensures x * y != 0
  {
    if y > 0 {
      MulMonotonic(x, y);
    } else {
      MulMonotonic(x, -y);
      assert x * -y == -(x * y);
    }
  }

  lemma ValueZero(a: Rational)
    ensures Val(a) == 0.0 <==> a.p == 0
  {
    assert Val(a) * a.q as real == a.p as real;
  }

  lemma ValueScale(p: int, q: int, k: int)
    requires q != 0 && k != 0
    ensures Value(k * p, k * q) == Value(p, q)
  {
    assert (k * p) as real == k as real * p as real;
    assert (k * q) as real == k as real * q as real;
  }

  lemma ValueNegate(p: int, q: int)
    requires q != 0
    ensures Value(-p, q) == -Value(p, q)
  {
  }

  lemma ValueDifference(p1: int, q1: int, p2: int, q2: int)
    requires q1 > 0 && q2 > 0
    ensures q1 * q2 > 0
    ensures Value(p1 * q2 - p2 * q1, q1 * q2) == Value(p1, q1) - Value(p2, q2)
  {
    PositiveProduct(q1, q2);
    assert (p1 * q2 - p2 * q1) as real == p1 as real * q2 as real - p2 as real * q1 as real;
    assert (q1 * q2) as real == q1 as real * q2 as real;
  }

  lemma ValueSum(p1: int, q1: int, p2: int, q2: int)
    requires q1 > 0 && q2 > 0
    ensures q1 * q2 > 0
    ensures Value(p1 * q2 + p2 * q1, q1 * q2) == Value(p1, q1) + Value(p2, q2)
  {
    PositiveProduct(q1, q2);
    assert (p1 * q2 + p2 * q1) as real == p1 as real * q2 as real + p2 as real * q1 as real;
    assert (q1 * q2) as real == q1 as real * q2 as real;
  }

  lemma ValueProduct(p1: int, q1: int, p2: int, q2: int)
    requires q1 > 0 && q2 > 0
    ensures q1 * q2 > 0
    ensures Value(p1 * p2, q1 * q2) == Value(p1, q1) * Value(p2, q2)
  {
    PositiveProduct(q1, q2);
    assert (p1 * p2) as real == p1 as real * p2 as real;
    assert (q1 * q2) as real == q1 as real * q2 as real;
  }

  lemma ValueQuotient(p1: int, q1: int, p2: int, q2: int)
    requires q1 > 0 && q2 > 0 && p2 != 0
    ensures q1 * p2 != 0
    ensures Value(p1 * q2, q1 * p2) == Value(p1, q1) / Value(p2, q2)
  {
    NonZeroProduct(q1, p2);
    assert (p1 * q2) as real == p1 as real * q2 as real;
    assert (q1 * p2) as real == q1 as real * p2 as real;
  }

  lemma ValueOrder(p1: int, q1: int, p2: int, q2: int)
    requires q1 > 0 && q2 > 0
    ensures Value(p1, q1) < Value(p2, q2) <==> p1 * q2 < q1 * p2
    ensures Value(p1, q1) == Value(p2, q2) <==> p1 * q2 == q1 * p2
  {
    assert (p1 * q2) as real == p1 as real * q2 as real;
    assert (q1 * p2) as real == q1 as real * p2 as real;
    var x, y := Value(p1, q1), Value(p2, q2);
    assert x * q1 as real == p1 as real;
    assert y * q2 as real == p2 as real;
  }

  lemma MediantBetween(p1: int, q1: int, p2: int, q2: int)
    requires q1 > 0 && q2 > 0
    ensures Value(p1, q1) <= Value(p2, q2) ==> Value(p1, q1) <= Value(p1 + p2, q1 + q2) <= Value(p2, q2)
    ensures Value(p2, q2) <= Value(p1, q1) ==> Value(p2, q2) <= Value(p1 + p2, q1 + q2) <= Value(p1, q1)
  {
    ValueOrder(p1, q1, p2, q2);
    ValueOrder(p1, q1, p1 + p2, q1 + q2);
    ValueOrder(p1 + p2, q1 + q2, p2, q2);
    ValueOrder(p2, q2, p1 + p2, q1 + q2);
    ValueOrder(p1 + p2, q1 + q2, p1, q1);
    ValueOrder(p2, q2, p1, q1);
  }

  /** Dividing a sign-normalised pair by the magnitude of its gcd gives a canonical pair. */
  lemma ReduceIsCanonical(p: int, q: int)
    requires IsInt(p) && IsInt(q) && q > 0
    ensures Abs(EuclidGcd(p, q)) > 0
    ensures Canonical(Fraction(JavaDiv(p, Abs(EuclidGcd(p, q))), JavaDiv(q, Abs(EuclidGcd(p, q)))))
    ensures Abs(EuclidGcd(p, q)) * JavaDiv(p, Abs(EuclidGcd(p, q))) == p
    ensures Abs(EuclidGcd(p, q)) * JavaDiv(q, Abs(EuclidGcd(p, q))) == q
  {
    GcdOfMagnitudes(p, q);
    var g := Abs(EuclidGcd(p, q));
    ReduceMagnitudes(Abs(p), q);
    SignedQuotient(p, g);
    assert JavaDiv(q, g) == q / g;
    CoprimeIff(Abs(p) / g, q / g);
  }

  /** The magnitudes divided by their gcd: coprime, no larger, and exact. */
  lemma ReduceMagnitudes(m: nat, q: nat)
    requires q > 0
    ensures EuclidGcd(m, q) > 0
    ensures EuclidGcd(m / EuclidGcd(m, q), q / EuclidGcd(m, q)) == 1
    ensures m / EuclidGcd(m, q) <= m && 0 < q / EuclidGcd(m, q) <= q
    ensures EuclidGcd(m, q) * (m / EuclidGcd(m, q)) == m
    ensures EuclidGcd(m, q) * (q / EuclidGcd(m, q)) == q
  {
    GcdDividesBoth(m, q);
    var g := EuclidGcd(m, q);
    assert g != 0;
    GcdOfQuotients(m, q);
    ExactQuotient(g, m);
    ExactQuotient(g, q);
    QuotientAtMost(m, g);
    QuotientAtMost(q, g);
    QuotientPositive(q, g);
  }

  lemma QuotientPositive(n: nat, g: int)
    requires n > 0 && g > 0 && g * (n / g) == n
    ensures n / g > 0
  {
  }

  /** Java's quotient by a positive divisor that divides exactly. */
  lemma SignedQuotient(p: int, g: int)
    requires g > 0 && g * (Abs(p) / g) == Abs(p)
    ensures Abs(JavaDiv(p, g)) == Abs(p) / g
    ensures g * JavaDiv(p, g) == p
  {
    var k := Abs(p) / g;
    if p < 0 {
      assert JavaDiv(p, g) == -k;
      assert g * -k == -(g * k);
    }
  }

  lemma QuotientAtMost(n: nat, g: int)
    requires g > 0
    ensures n / g <= n
  {
    if n / g > n {
      assert n == g * (n / g) + n % g;
      MulMonotonic(g, n / g);
    }
  }

  lemma NormalizeValue(p: int, q: int, p1: int, q1: int, g: int)
    requires q != 0 && g > 0
    requires p1 == (if q < 0 then -p else p) && q1 == (if q < 0 then -q else q)
    requires g * JavaDiv(p1, g) == p1 && g * JavaDiv(q1, g) == q1 && JavaDiv(q1, g) != 0
    ensures Value(JavaDiv(p1, g), JavaDiv(q1, g)) == Value(p, q)
  {
    ValueScale(JavaDiv(p1, g), JavaDiv(q1, g), g);
    if q < 0 {
      ValueScale(p, q, -1);
    }
  }

  /** Two coprime pairs with positive denominators and equal cross products are the same pair. */
  lemma CrossEqual(p1: int, q1: int, p2: int, q2: int)
    requires q1 > 0 && q2 > 0
    requires Coprime(Abs(p1), q1) && Coprime(Abs(p2), q2)
    requires p1 * q2 == q1 * p2
    ensures p1 == p2 && q1 == q2
  {
    AbsProduct(p1, q2);
    AbsProduct(p2, q1);
    assert Abs(p1) * q2 == Abs(p2) * q1 by {
      assert p1 * q2 == p2 * q1;
    }
    SameDenominator(Abs(p1), q1, Abs(p2), q2);
    assert q1 * p1 == q1 * p2;
    MulCancel(q1, p1, p2);
  }

  lemma SameDenominator(m: nat, q1: nat, n: nat, q2: nat)
    requires q1 > 0 && q2 > 0
    requires Coprime(m, q1) && Coprime(n, q2)
    requires m * q2 == n * q1
    ensures q1 == q2
  {
    CoprimeIff(m, q1);
    CoprimeIff(n, q2);
    GcdScale(q2, m, q1);
    GcdScale(q1, n, q2);
    assert q2 * m == q1 * n;
    assert q2 * q1 == q1 * q2;
  }

  lemma AbsProduct(x: int, y: int)
    requires y > 0
    ensures Abs(x * y) == Abs(x) * y
  {
    if x < 0 {
      assert x * y == -(Abs(x) * y);
      MulMonotonic(y, Abs(x));
    }
  }

  /** The constructor applied to `(q, p)` swaps the magnitudes and keeps the sign. */
  lemma InverseFields(a: Rational)
    requires a.p != 0 && a.p != IntMin
    ensures Normalize(a.q, a.p).p == (if a.p < 0 then -a.q else a.q)
    ensures Normalize(a.q, a.p).q == Abs(a.p)
    ensures Val(Normalize(a.q, a.p)) == 1.0 / Val(a)
  {
    ValueZero(a);
    ValueQuotient(1, 1, a.p, a.q);
    InverseIsCanonical(a);
    var s := if a.p < 0 then -1 else 1;
    var expected: Rational := Fraction(s * a.q, Abs(a.p));
    assert Val(expected) == Value(a.q, a.p) by {
      assert s * a.p == Abs(a.p);
      ValueScale(a.q, a.p, s);
    }
    ValInjective(Normalize(a.q, a.p), expected);
  }

  /** Zero is the only Rational with numerator 0. */
  lemma ZeroIff(a: Rational)
    ensures a == Zero <==> a.p == 0
  {
    ConstantFields();
    if a.p == 0 {
      ValInjective(a, Zero);
    }
  }

  lemma InverseIsCanonical(a: Rational)
    requires a.p != 0 && a.p != IntMin
    ensures Canonical(Fraction((if a.p < 0 then -1 else 1) * a.q, Abs(a.p)))
  {
    assert Abs((if a.p < 0 then -1 else 1) * a.q) == a.q;
  }

  /** Every number is coprime with one, in either order. */
  lemma CoprimeWithOne(m: nat)
    ensures Coprime(m, 1) && Coprime(1, m)
  {
    forall d: nat | Divides(d, 1)
      ensures d == 1
    {
      assert 1 % d == 0;
    }
  }
}
