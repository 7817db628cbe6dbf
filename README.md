# math-damon in Dafny

A Dafny model of the core of math-damon, a small Java library of immutable
mathematical values:

- `MathUtil.gcd`, the Euclidean algorithm over Java `int`s with Java's
  truncating remainder (`math_util.dfy`, module `MathUtil`, which also writes
  out Java's `int`/`long` wrap-around and its `/` and `%`);
- `Rational`, an exact fraction kept in canonical form: positive denominator,
  sign in the numerator, lowest terms (`rationals.dfy`, module `Rationals`);
- `AbstractRange`, an immutable closed interval over any `Comparable` type
  (`ranges.dfy`, module `Ranges`);
- `AbstractCountableRange`, a range whose type also supplies `add`,
  `subtract`, `half` and `isNegative`, giving `distance`, `shift`, `extend*`
  and `trim*` (`countable_ranges.dfy`, module `CountableRanges`);
- `IntegerRange` and `LongRange`, one module with the width as a parameter
  (`integer_ranges.dfy`, module `IntegerRanges`);
- `RationalRange` (`rational_ranges.dfy`, module `RationalRanges`).

Every class of the core is immutable: each operation returns a new object.
They are modelled as datatypes and functions. The one loop, `gcd`, is the
method `MathUtil.Gcd`, proved against the recursive `MathUtil.EuclidGcd`.

How Java behaviour is modelled:

- A thrown `IllegalArgumentException` or `UnsupportedOperationException` is
  a `Failure` of the `Results.Result` type, with the reason as an `Error`.
- A `Rational` is a `Fraction(p, q)` restricted by the subtype invariant
  `Canonical`. `Val` gives the real number it denotes, and each operation's
  contract says what the operation does to that number.
- `compareTo` is a parameter `cmp` of the range operations. The lemmas
  rely only on the laws of `compareTo`, as stated in `Ranges.IsTotalOrder`.

## Model

| member | source | states |
|---|---|---|
| MathUtil.WrapInt | src/main/java/com/actram/math/IntegerRange.java:24-26 | Java `int` arithmetic yields a 32-bit value congruent to the exact result modulo 2^32, and it is the exact result whenever that fits |
| MathUtil.WrapLong | src/main/java/com/actram/math/LongRange.java:24-26 | Java `long` arithmetic yields a 64-bit value congruent to the exact result modulo 2^64, and it is the exact result whenever that fits |
| MathUtil.JavaDiv | src/main/java/com/actram/math/Rational.java:44-45 | Java's `/` truncates: the magnitude of the quotient is `abs(a) / abs(b)`, and it is non-negative when the signs agree and non-positive when they differ |
| MathUtil.JavaRem | src/main/java/com/actram/math/MathUtil.java:22 | `p % q` satisfies Java's division identity, is smaller in magnitude than `q` and has the sign of `p` |
| MathUtil.Gcd | src/main/java/com/actram/math/MathUtil.java:19-26 | the loop computes the recursive Euclid function `MathUtil.EuclidGcd`, its magnitude is the greatest common divisor of `abs(p)` and `abs(q)`, and it is non-negative for non-negative inputs |
| MathUtil.GcdIsGcd | src/main/java/com/actram/math/MathUtil.java:19-26 | `abs(MathUtil.EuclidGcd(p, q))`, the value of `gcd(p, q)`, divides both `abs(p)` and `abs(q)`, and every common divisor divides it |
| MathUtil.GcdNonNegative | src/main/java/com/actram/math/MathUtil.java:19-26 | non-negative inputs give a non-negative gcd |
| MathUtil.GcdOfMagnitudes | src/main/java/com/actram/math/MathUtil.java:19-26 | the magnitude of the gcd does not depend on the signs of the inputs |
| MathUtil.GcdScale | src/main/java/com/actram/math/MathUtil.java:19-26 | `gcd(k*a, k*b) == k * gcd(a, b)` for `k > 0` |
| MathUtil.GcdOfQuotients | src/main/java/com/actram/math/Rational.java:43-45 | dividing two numbers by their gcd leaves a pair whose gcd is 1, which is why the constructor reduces to lowest terms |
| MathUtil.CoprimeIff | src/main/java/com/actram/math/Rational.java:43-45 | for a positive `n`, "no common divisor but 1" is the same as `gcd(m, n) == 1` |
| MathUtil.GcdWithZero | src/main/java/com/actram/math/MathUtil.java:20-25 | `gcd(p, 0) == p`, and `gcd(0, q) == q` |
| MathUtil.GcdSelfAndDouble | src/test/java/com/actram/math/test/MathUtilTest.java:37-38 | `gcd(x, x) == x` and `gcd(x, 2x) == x` |
| MathUtil.NegatedGcdCounterexample | src/test/java/com/actram/math/test/MathUtilTest.java:39 | `gcd(-4, 6)` is 2, while the negated `gcd(4, 6)` is -2 |
| MathUtil.GcdIgnoresSign | src/test/java/com/actram/math/test/MathUtilTest.java:39 | negating an input leaves the magnitude of the gcd unchanged |
| Rationals.Normalize | src/main/java/com/actram/math/Rational.java:31-46 | for a nonzero denominator, the constructor moves the sign and reduces, yields a canonical Rational, and the number denoted is p/q |
| Rationals.Of | src/main/java/com/actram/math/Rational.java:31-46 | the constructor fails with a zero-denominator error exactly when `q == 0`, and otherwise denotes p/q |
| Rationals.FromInt | src/main/java/com/actram/math/Rational.java:27-29 | `new Rational(n)` is n/1 and denotes n |
| Rationals.ConstantFields | src/main/java/com/actram/math/Rational.java:11-15 | the five constants are 0/1, 1/1, -1/1, 1/2 and -1/2 |
| Rationals.ConstructorExamples | src/main/java/com/actram/math/Rational.java:31-46 | 2/4 reduces to 1/2, 3/-6 to -1/2, and 0/q to 0/1 |
| Rationals.GetNumerator | src/main/java/com/actram/math/Rational.java:92-94 | the magnitude of the numerator, relating it to the absolute value of the number; `Math.abs` leaves `Integer.MIN_VALUE` as it is |
| Rationals.GetDenominator | src/main/java/com/actram/math/Rational.java:88-90 | the denominator is positive, and the number times it is the signed numerator |
| Rationals.IsNegative | src/main/java/com/actram/math/Rational.java:109-111 | true exactly when the number is below zero |
| Rationals.Signum | src/main/java/com/actram/math/Rational.java:133-135 | -1, 0 or 1 according to the sign of the number, and 0 exactly for `ZERO` |
| Rationals.Equals | src/main/java/com/actram/math/Rational.java:77-86 | comparing the fields is the same as comparing the numbers |
| Rationals.ValInjective | src/main/java/com/actram/math/Rational.java:36-45 | canonical form is unique: two Rationals denoting the same number are the same pair |
| Rationals.ValEqualIff | src/main/java/com/actram/math/Rational.java:77-86 | two Rationals are equal exactly when they denote the same number |
| Rationals.CompareTo | src/main/java/com/actram/math/Rational.java:60-67 | the corrected comparison: -1, 0 or 1, negative exactly when the number is smaller, 0 exactly for equal Rationals |
| Rationals.CompareToAsWritten | src/main/java/com/actram/math/Rational.java:60-67 | the comparison as written, with the cross products wrapped to `int`, answers -1, 0 or 1 |
| Rationals.CompareToAsWrittenWithinInt | src/main/java/com/actram/math/Rational.java:62-63 | while neither cross product overflows, the comparison as written is the intended one |
| Rationals.CompareToAsWrittenOverflows | src/main/java/com/actram/math/Rational.java:62-63 | 65536/1 is larger than 1/65536, but the comparison as written answers -1 |
| Rationals.Add | src/main/java/com/actram/math/Rational.java:56-58 | the sum denotes the sum of the numbers |
| Rationals.AddInt | src/main/java/com/actram/math/Rational.java:52-54 | `add(n)` denotes the number plus n |
| Rationals.Subtract | src/main/java/com/actram/math/Rational.java:141-143 | the difference denotes the difference of the numbers |
| Rationals.SubtractInt | src/main/java/com/actram/math/Rational.java:137-139 | `subtract(n)` denotes the number minus n |
| Rationals.Multiply | src/main/java/com/actram/math/Rational.java:121-123 | the product denotes the product of the numbers |
| Rationals.MultiplyInt | src/main/java/com/actram/math/Rational.java:117-119 | `multiply(n)` denotes the number times n |
| Rationals.DivideInt | src/main/java/com/actram/math/Rational.java:69-71 | `divide(n)` fails with a zero-denominator error exactly when n is 0, and otherwise denotes the number over n |
| Rationals.Divide | src/main/java/com/actram/math/Rational.java:73-75 | `divide(r)` fails exactly when r is zero, and otherwise denotes the quotient |
| Rationals.Inverse | src/main/java/com/actram/math/Rational.java:105-107 | fails exactly for zero; otherwise it denotes 1 over the number, keeps its sign, and swaps `getNumerator` and `getDenominator` |
| Rationals.Negate | src/main/java/com/actram/math/Rational.java:125-127 | denotes the negated number; a numerator of `Integer.MIN_VALUE` is left unchanged, as Java's `-p` does |
| Rationals.Absolute | src/main/java/com/actram/math/Rational.java:48-50 | denotes the absolute value, returns the number itself exactly when it is not negative, and equals `new Rational(getNumerator(), getDenominator())` |
| Rationals.Mediant | src/main/java/com/actram/math/Rational.java:113-115 | denotes (p1+p2)/(q1+q2), which lies between the two numbers |
| Rationals.AddCommutative | src/test/java/com/actram/math/test/RationalTest.java:61-63 | `a.add(b) == b.add(a)` |
| Rationals.MultiplyCommutative | src/test/java/com/actram/math/test/RationalTest.java:110-113 | `a.multiply(b) == b.multiply(a)` |
| Rationals.AddZero | src/test/java/com/actram/math/test/RationalTest.java:56 | adding `ZERO` gives the number back |
| Rationals.SubtractSelf | src/test/java/com/actram/math/test/RationalTest.java:131 | `a.subtract(a) == ZERO` |
| Rationals.AddIntIsAdd | src/test/java/com/actram/math/test/RationalTest.java:57 | `add(n)` is `add(new Rational(n))` |
| Rationals.SubtractIntIsSubtract | src/test/java/com/actram/math/test/RationalTest.java:136 | `subtract(n)` is `subtract(new Rational(n))` |
| Rationals.SubtractIntIsAddNegated | src/test/java/com/actram/math/test/RationalTest.java:134 | `subtract(n)` is `add(-n)` |
| Rationals.MultiplyIntIsMultiply | src/main/java/com/actram/math/Rational.java:117-123 | `multiply(n)` is `multiply(new Rational(n))` |
| Rationals.DivideIntIsDivide | src/main/java/com/actram/math/Rational.java:69-75 | `divide(n)` is `divide(new Rational(n))` |
| Rationals.MultiplyByOneAndZero | src/test/java/com/actram/math/test/RationalTest.java:100-102 | `multiply(1)` and `divide(1)` give the number back, and `multiply(0)` gives `ZERO` |
| Rationals.NegateIsMultiplyNegativeOne | src/test/java/com/actram/math/test/RationalTest.java:116-118 | `negate()` is `multiply(-1)` |
| Rationals.MultiplyByInverse | src/main/java/com/actram/math/Rational.java:105-107 | a nonzero number times its inverse is `ONE` |
| Rationals.ProductIsOne | src/main/java/com/actram/math/Rational.java:121-123 | a product denoting 1 is `ONE` |
| Rationals.CompareWithNeighbours | src/test/java/com/actram/math/test/RationalTest.java:65-68 | every number compares below itself plus one and above itself minus one |
| Rationals.AddSelf | src/test/java/com/actram/math/test/RationalTest.java:51-55 | `a.add(a) == a.multiply(2)`, and it is larger than `a` exactly when `a` is positive |
| Rationals.ScaleByTwo | src/test/java/com/actram/math/test/RationalTest.java:72-107 | doubling moves a nonzero number away from zero and halving moves it towards zero; zero is its own double and half |
| Rationals.SubtractIdentities | src/test/java/com/actram/math/test/RationalTest.java:132-135 | `a.subtract(ZERO) == a`, and `a.subtract(a).subtract(a) == a.negate()` |
| Ranges.Make | src/main/java/com/actram/math/AbstractRange.java:23-32 | the constructor fails with an invalid-range error exactly when the maximum is below the minimum, and otherwise keeps both ends |
| Ranges.SetValue | src/main/java/com/actram/math/AbstractRange.java:174-176 | `set(value)` is the one-point range [value, value] |
| Ranges.SafeSet | src/main/java/com/actram/math/AbstractRange.java:159-169 | the ends of the result are the two given values |
| Ranges.SetFrom | src/main/java/com/actram/math/AbstractRange.java:190-193 | keeps the maximum, sets the minimum, and fails exactly when the new minimum is above the maximum |
| Ranges.SetTo | src/main/java/com/actram/math/AbstractRange.java:203-206 | keeps the minimum, sets the maximum, and fails exactly when the new maximum is below the minimum |
| Ranges.Maximum | src/main/java/com/actram/math/AbstractRange.java:128-130 | the result is one of the two maxima |
| Ranges.Minimum | src/main/java/com/actram/math/AbstractRange.java:136-138 | the result is one of the two minima |
| Ranges.ContainsIff | src/main/java/com/actram/math/AbstractRange.java:57-60 | `contains(value)` (`Ranges.Contains`) holds exactly when `from <= value <= to` |
| Ranges.Trichotomy | src/main/java/com/actram/math/AbstractRange.java:111-122 | a value is over (`Ranges.IsOver`), in or under (`Ranges.IsUnder`) a valid range, and never both over and under |
| Ranges.Boundaries | src/main/java/com/actram/math/AbstractRange.java:103-106 | the ends are the boundaries (`Ranges.IsBoundary`), a boundary is contained, and a boundary is one of the ends |
| Ranges.ContainsRangeOrder | src/main/java/com/actram/math/AbstractRange.java:49-52 | `contains(range)` (`Ranges.ContainsRange`) is reflexive and transitive |
| Ranges.EqualsIffMutualContainment | src/main/java/com/actram/math/AbstractRange.java:63-75 | two valid ranges are `equals` (`Ranges.Equals`) exactly when each contains the other |
| Ranges.OverlapsIff | src/main/java/com/actram/math/AbstractRange.java:144-148 | overlap (`Ranges.Overlaps`) is symmetric, and holds exactly when the larger minimum lies in both ranges |
| Ranges.OverlapsWitness | src/main/java/com/actram/math/AbstractRange.java:144-148 | a common value, or containment, implies overlap |
| Ranges.MinimumMaximumBound | src/main/java/com/actram/math/AbstractRange.java:128-138 | `minimum` and `maximum` are the least minimum and the greatest maximum, and the range between them contains both ranges |
| Ranges.SetValueSucceeds | src/main/java/com/actram/math/AbstractRange.java:19-21 | the one-value constructor and `set(value)` never fail |
| Ranges.SafeSetProperties | src/main/java/com/actram/math/AbstractRange.java:159-169 | `safeSet` never fails, ignores the order of its arguments, and keeps an ordered pair as it is |
| Ranges.SetEnds | src/main/java/com/actram/math/AbstractRange.java:190-206 | setting an end to its own value gives the range back, and setting it to the other end gives a one-point range |
| CountableRanges.Shift | src/main/java/com/actram/math/AbstractCountableRange.java:112-116 | both ends moved by `add(_, amount)`; fails exactly when the moved maximum is below the moved minimum |
| CountableRanges.ExtendMinimum | src/main/java/com/actram/math/AbstractCountableRange.java:70-76 | rejects a negative amount; otherwise the minimum becomes `from - amount`, failing exactly when that is above the maximum |
| CountableRanges.ExtendMaximum | src/main/java/com/actram/math/AbstractCountableRange.java:57-63 | rejects a negative amount; otherwise the maximum becomes `to + amount`, failing exactly when that is below the minimum |
| CountableRanges.Extend | src/main/java/com/actram/math/AbstractCountableRange.java:44-50 | rejects a negative amount; a result has both ends moved out by the amount |
| CountableRanges.Trim | src/main/java/com/actram/math/AbstractCountableRange.java:135-151 | rejects a negative amount; moves both ends in, or collapses onto the midpoint when they would cross |
| CountableRanges.TrimMaximum | src/main/java/com/actram/math/AbstractCountableRange.java:164-175 | rejects a negative amount; keeps the minimum, and the new maximum is `to - amount` or the minimum |
| CountableRanges.TrimMinimum | src/main/java/com/actram/math/AbstractCountableRange.java:188-199 | rejects a negative amount; keeps the maximum, and the new minimum is `from + amount` or the maximum |
| CountableRanges.TrimsNeverFail | src/main/java/com/actram/math/AbstractCountableRange.java:135-199 | on a valid range and a non-negative amount, the three trims never fail |
| CountableRanges.TrimMinimumClamps | src/main/java/com/actram/math/AbstractCountableRange.java:188-199 | `trimMinimum` gives `setFrom(to)` exactly when the moved minimum passes the maximum, and otherwise the moved range |
| CountableRanges.TrimMaximumClamps | src/main/java/com/actram/math/AbstractCountableRange.java:164-175 | `trimMaximum` gives `setTo(from)` exactly when the moved maximum passes the minimum, and otherwise the moved range |
| IntegerRanges.Wrap | src/main/java/com/actram/math/IntegerRange.java:24-26 | `+` and `-` at the range's width give a value of that width, congruent to the exact result modulo 2^32 or 2^64, and exact when the exact result fits |
| IntegerRanges.Compare | src/main/java/com/actram/math/IntegerRange.java:10 | `Integer.compareTo`/`Long.compareTo`: -1, 0 or 1 following `<` and `==` |
| IntegerRanges.CompareIsTotalOrder | src/main/java/com/actram/math/IntegerRange.java:10 | the integer comparison satisfies the `compareTo` laws |
| IntegerRanges.Ops | src/main/java/com/actram/math/IntegerRange.java:23-61 | the abstract methods use the integer comparison |
| IntegerRanges.OpsArithmetic | src/main/java/com/actram/math/IntegerRange.java:23-61 | `add` and `subtract` wrap and are exact when the result fits, `half` is truncating `/ 2`, and `isNegative` is `< 0` |
| IntegerRanges.New | src/main/java/com/actram/math/IntegerRange.java:19-21 | `new IntegerRange(from, to)` succeeds exactly when `from <= to` |
| IntegerRanges.Single | src/main/java/com/actram/math/IntegerRange.java:15-17 | `new IntegerRange(value)` is [value, value] |
| IntegerRanges.Default | src/main/java/com/actram/math/IntegerRange.java:11-13 | `new IntegerRange()` is [0, 0] |
| IntegerRanges.Center | src/main/java/com/actram/math/IntegerRange.java:29-36 | `center()` as written; any range it builds is ordered |
| IntegerRanges.CenterWithinWidth | src/main/java/com/actram/math/IntegerRange.java:29-36 | where the distance fits, the center is the middle value or the middle two values: its ends sum to `from + to`, differ by at most 1, and lie inside the range |
| IntegerRanges.CenterExamples | src/main/java/com/actram/math/IntegerRange.java:29-36 | the center of [-5, 5] is [0, 0], and the center of [0, 5] is [2, 3] |
| IntegerRanges.CenterOverflows | src/main/java/com/actram/math/IntegerRange.java:30-32 | the center of [MIN_VALUE, MAX_VALUE] is [MIN_VALUE, MIN_VALUE + 1], outside the middle; the center of [MIN_VALUE, MAX_VALUE - 1] is [MAX_VALUE, MAX_VALUE], outside the range; and `center()` of [MIN_VALUE, MAX_VALUE - 2] throws, because its ends come out reversed |
| IntegerRanges.CenterExact | src/main/java/com/actram/math/IntegerRange.java:29-36 | the center over exact distances always succeeds and is the middle of the range |
| IntegerRanges.CenterExactAgrees | src/main/java/com/actram/math/IntegerRange.java:29-36 | the exact center equals `center()` wherever the distance does not wrap |
| IntegerRanges.DistanceWithinWidth | src/main/java/com/actram/math/AbstractCountableRange.java:36-38 | `distance()` (`CountableRanges.Distance`) is `to - from >= 0`, so `from + distance() == to` |
| IntegerRanges.ShiftWithinWidth | src/main/java/com/actram/math/AbstractCountableRange.java:112-116 | `shift(a)` is [from + a, to + a] when neither end wraps |
| IntegerRanges.ShiftBack | src/main/java/com/actram/math/AbstractCountableRange.java:112-116 | `shift(a).shift(-a)` gives the range back |
| IntegerRanges.ShiftOverflows | src/main/java/com/actram/math/AbstractCountableRange.java:115 | shifting [0, MAX_VALUE] by 1 wraps the maximum and the constructor rejects the range |
| IntegerRanges.ExtendWithinWidth | src/main/java/com/actram/math/AbstractCountableRange.java:44-76 | the three extends by `a >= 0` move the ends out by exactly `a` |
| IntegerRanges.NegativeAmountRejected | src/main/java/com/actram/math/AbstractCountableRange.java:44-199 | every extend and trim rejects a negative amount |
| IntegerRanges.TrimWithinWidth | src/main/java/com/actram/math/AbstractCountableRange.java:135-151 | `trim(a)` is [from + a, to - a] while the ends do not cross, and otherwise the one-point range at `from + (to - from) / 2`, inside the range |
| IntegerRanges.MidpointWithinWidth | src/main/java/com/actram/math/AbstractCountableRange.java:148 | the collapse point of `trim` (`CountableRanges.Midpoint`) is `from + (to - from) / 2` and lies in the range |
| IntegerRanges.TrimExamples | src/main/java/com/actram/math/AbstractCountableRange.java:135-151 | `[0, 10].trim(6)` is [5, 5], and `trim(2)` is [2, 8] |
| IntegerRanges.TrimMinimumWithinWidth | src/main/java/com/actram/math/AbstractCountableRange.java:188-199 | `trimMinimum(a)` raises the minimum by `a`, capped at the maximum |
| IntegerRanges.TrimMaximumWithinWidth | src/main/java/com/actram/math/AbstractCountableRange.java:164-175 | `trimMaximum(a)` lowers the maximum by `a`, capped at the minimum |
| IntegerRanges.TrimPastTheOtherEnd | src/test/java/com/actram/math/test/AbstractCountableRangeTest.java:111-122 | `trimMinimum(distance() + 1)` is `setFrom(to)`, and `trimMaximum(distance() + 1)` is `setTo(from)` |
| IntegerRanges.TrimMinimumOverflows | src/main/java/com/actram/math/AbstractCountableRange.java:194-198 | `[1, 10].trimMinimum(MAX_VALUE)` wraps and grows the range to [MIN_VALUE, 10] |
| IntegerRanges.TrimMaximumOverflows | src/main/java/com/actram/math/AbstractCountableRange.java:170-174 | `[-10, -2].trimMaximum(MAX_VALUE)` wraps and grows the range to [-10, MAX_VALUE] |
| IntegerRanges.TrimMinimumExact | src/main/java/com/actram/math/AbstractCountableRange.java:177-199 | the documented `trimMinimum`: rejects exactly the negative amounts, never fails otherwise, and its result lies inside the range with the same maximum |
| IntegerRanges.TrimMaximumExact | src/main/java/com/actram/math/AbstractCountableRange.java:153-175 | the documented `trimMaximum`: rejects exactly the negative amounts, never fails otherwise, and its result lies inside the range with the same minimum |
| IntegerRanges.TrimExactExamples | src/main/java/com/actram/math/AbstractCountableRange.java:164-199 | the documented trims clamp: `[1, 10].trimMinimum(MAX_VALUE)` is [10, 10], and `[-10, -2].trimMaximum(MAX_VALUE)` is [-10, -10] |
| IntegerRanges.TrimExactAgrees | src/main/java/com/actram/math/AbstractCountableRange.java:164-199 | the documented trims equal `trimMinimum`/`trimMaximum` wherever those do not wrap |
| RationalRanges.Ops | src/main/java/com/actram/math/RationalRange.java:23-56 | the abstract methods are `Rational`'s `compareTo` and `isNegative` |
| RationalRanges.CompareToIsTotalOrder | src/main/java/com/actram/math/Rational.java:60-67 | the corrected `compareTo` satisfies the `compareTo` laws |
| RationalRanges.ValidIff | src/main/java/com/actram/math/RationalRange.java:19-21 | a pair of Rationals is a valid range exactly when the first number is at most the second |
| RationalRanges.OpsArithmetic | src/main/java/com/actram/math/RationalRange.java:23-56 | `add`, `subtract` and `half` add, subtract and halve the numbers, and `isNegative` means below zero |
| RationalRanges.New | src/main/java/com/actram/math/RationalRange.java:19-21 | the constructor succeeds exactly when `from <= to` as numbers |
| RationalRanges.NewAsWrittenDiffers | src/main/java/com/actram/math/AbstractRange.java:23-32 | with the comparison as written, the constructor rejects [1/65536, 65536], which `RationalRanges.New` accepts |
| RationalRanges.Single | src/main/java/com/actram/math/RationalRange.java:15-17 | the one-point range |
| RationalRanges.NewFromFractions | src/main/java/com/actram/math/RationalRange.java:11-13 | fails with a zero-denominator error when either denominator is 0, otherwise succeeds exactly when p1/q1 <= p2/q2, with those ends |
| RationalRanges.Center | src/main/java/com/actram/math/RationalRange.java:28-31 | `center()` always fails as unsupported |
| RationalRanges.RandomValue | src/main/java/com/actram/math/RationalRange.java:43-46 | `random` always fails as unsupported, with the same failure as `center()` |
| RationalRanges.DistanceValue | src/main/java/com/actram/math/AbstractCountableRange.java:36-38 | the distance (`CountableRanges.Distance`) denotes `to - from`, which is non-negative |
| RationalRanges.ShiftValue | src/main/java/com/actram/math/AbstractCountableRange.java:112-116 | `shift(a)` succeeds and moves both ends by `a` |
| RationalRanges.ExtendValue | src/main/java/com/actram/math/AbstractCountableRange.java:44-50 | `extend(a)` fails exactly for a negative `a`, and otherwise moves both ends out by `a` |
| RationalRanges.MidpointValue | src/main/java/com/actram/math/AbstractCountableRange.java:148 | the collapse point of `trim` (`CountableRanges.Midpoint`) denotes the average of the ends |
| RationalRanges.TrimValue | src/main/java/com/actram/math/AbstractCountableRange.java:135-151 | `trim(a)` moves both ends in by `a`, or collapses onto the average of the ends when they would cross |
| RationalRanges.TrimMinimumValue | src/main/java/com/actram/math/AbstractCountableRange.java:188-199 | `trimMinimum(a)` raises the minimum by `a`, capped at the maximum |
| RationalRanges.TrimMaximumValue | src/main/java/com/actram/math/AbstractCountableRange.java:164-175 | `trimMaximum(a)` lowers the maximum by `a`, capped at the minimum |

## Left out

- `DoubleRange` is not part of this model; `double` arithmetic is floating point.
- `random(Random)` and `randomValue()` of `IntegerRange` and `LongRange` draw a random `double`. The randomness and the floating-point arithmetic are left out. `RationalRange`'s version always throws, and it is modelled.
- `Rational.toDouble`, `toInteger`, `toString`, `hashCode` and `approximate` are left out. `toDouble` and `toInteger` are floating point, `toString` is text, `hashCode` is a hash with no property of its own beyond agreeing with `equals` (which the canonical form gives), and `approximate` only throws. The range classes' `toString`, `hashCode`, `getFrom`/`getTo` and `cast` are left out too; the getters are the datatype's fields.
- Null checks (`Objects.requireNonNull`) are left out: Dafny values are never null. So is the `getClass()` comparison in `equals`. `IntegerRanges` models `IntegerRange` and `LongRange` as the same `Range<int>`, so `Ranges.Equals` holds between an `IntegerRange` and a `LongRange` with the same ends, where Java's `equals` answers false.
- `set(from, to)` is each subclass's constructor call. It is `Ranges.Make`, or `New` in the subclass modules.
- `Rationals.Normalize`: modelled only where `-p` and `-q` do not overflow when the denominator is negative. There Java's wrapped result is wrong: for `p == Integer.MIN_VALUE` and another negative `q`, `-p` stays `MIN_VALUE`, and the result is canonical but has the wrong sign; for `q == Integer.MIN_VALUE`, `-q` stays negative, and the result can keep a negative denominator.
- `Rationals.Of`: has the same precondition as `Normalize`.
- `Rationals.Add`: modelled only where no `int` product or sum overflows (`AddFits`). Java wraps silently there, and the wrapped result is not captured.
- `Rationals.AddInt`: modelled only without `int` overflow (`AddIntFits`).
- `Rationals.Subtract`: modelled only without `int` overflow (`SubtractFits`).
- `Rationals.SubtractInt`: modelled only without `int` overflow (`SubtractIntFits`).
- `Rationals.Multiply`: modelled only without `int` overflow (`MultiplyFits`).
- `Rationals.MultiplyInt`: modelled only without `int` overflow (`MultiplyIntFits`).
- `Rationals.Divide`: modelled only without `int` overflow (`DivideFits`).
- `Rationals.DivideInt`: modelled only without `int` overflow (`DivideIntFits`).
- `Rationals.Mediant`: modelled only without `int` overflow (`MediantFits`).
- `Rationals.Inverse`: requires a numerator other than `Integer.MIN_VALUE`. For a negative `p` Java negates it, and that would overflow.
- `Rationals.CompareTo`: compares the exact cross products. The code as written wraps them; that version is `Rationals.CompareToAsWritten`, under Findings.
- `RationalRanges.Ops`: its `add`, `subtract` and `half` are defined only where `Rational`'s arithmetic does not overflow. The RationalRanges lemmas carry the matching `Fits` preconditions.
- `RationalRanges.New`: orders the ends by the corrected comparison `Rationals.CompareTo`, and so do `RationalRanges.NewFromFractions`, `RationalRanges.Ops` and the `RationalRanges` lemmas about distance, shift, extend and trim. Java's constructor and trims call the wrapped `compareTo`, which differs once a cross product overflows `int`: there Java may reject a valid range or clamp at the wrong end (`RationalRanges.NewAsWrittenDiffers`).
- `MathUtil.GcdSelfAndDouble`: stated for `x >= 0`, the values the test draws.

## Findings

| source | as written | input that shows it | evidently intended | confidence | as-written member | corrected member |
|---|---|---|---|---|---|---|
| src/main/java/com/actram/math/Rational.java:62-63 | the cross products are `int` products, wrapped before being stored in `long` locals | 65536/1 compared with 1/65536: `65536 * 65536` wraps to 0, so the answer is -1 | compare the exact cross products, as the `long` locals suggest | high (not executed) | Rationals.CompareToAsWrittenOverflows, RationalRanges.NewAsWrittenDiffers | Rationals.CompareTo, RationalRanges.New |
| src/test/java/com/actram/math/test/MathUtilTest.java:39 | expects `gcd(-a, b) == -gcd(a, b)` | `gcd(-4, 6)` is 2 with Java's remainder, but `-gcd(4, 6)` is -2 | the magnitudes agree: `abs(gcd(-a, b)) == abs(gcd(a, b))` | high (not executed) | MathUtil.NegatedGcdCounterexample | MathUtil.GcdIgnoresSign |
| src/main/java/com/actram/math/IntegerRange.java:29-36 | `distance()` and `from + distance() / 2` are `int` arithmetic | [MIN_VALUE, MAX_VALUE]: the distance wraps to -1, and the center is [MIN_VALUE, MIN_VALUE + 1]; [MIN_VALUE, MAX_VALUE - 1] gives [MAX_VALUE, MAX_VALUE]; [MIN_VALUE, MAX_VALUE - 2] throws | the middle of the range, from exact arithmetic | high (not executed) | IntegerRanges.CenterOverflows | IntegerRanges.CenterExact |
| src/main/java/com/actram/math/AbstractCountableRange.java:188-199 | `from + amount` wraps before it is compared with `to` | `[1, 10].trimMinimum(MAX_VALUE)` gives [MIN_VALUE, 10], a larger range | the minimum clamped at the maximum, giving [10, 10] | high (not executed) | IntegerRanges.TrimMinimumOverflows | IntegerRanges.TrimMinimumExact, IntegerRanges.TrimExactExamples |
| src/main/java/com/actram/math/AbstractCountableRange.java:164-175 | `to - amount` wraps before it is compared with `from` | `[-10, -2].trimMaximum(MAX_VALUE)` gives [-10, MAX_VALUE], a larger range | the maximum clamped at the minimum, giving [-10, -10] | high (not executed) | IntegerRanges.TrimMaximumOverflows | IntegerRanges.TrimMaximumExact, IntegerRanges.TrimExactExamples |
