/**
 * `RationalRange`: a countable range of `Rational`s. Its abstract methods are
 * `Rational`'s own `add`, `subtract`, `divide(2)` and `isNegative`, ordered by
 * `compareTo`; `center()` and `random()` are unimplemented and throw.
 */
module RationalRanges {
  import opened MathUtil
  import opened Results
  import opened Rationals
  import opened Ranges
  import opened CountableRanges

  /** The abstract methods as `RationalRange` implements them, each defined where `Rational`'s arithmetic does not overflow. */
  function Ops(): (A: Arith<Rational>)
    ensures A.cmp == CompareTo && A.isNegative == IsNegative
  {
    Arith(
      CompareTo,
      (x: Rational, y: Rational) requires AddFits(x, y) => Add(x, y),
      (x: Rational, y: Rational) requires SubtractFits(x, y) => Subtract(x, y),
      (x: Rational) requires DivideIntFits(x, 2) => DivideInt(x, 2).value,
      IsNegative)
  }

  /** `Rational.compareTo` (with exact products) satisfies the laws of `compareTo`. */
  lemma CompareToIsTotalOrder()
    ensures IsTotalOrder(CompareTo)
  {
  }

  /** A pair of Rationals is a valid range exactly when the first number is at most the second. */
  lemma ValidIff(r: Range<Rational>)
    ensures IsValid(CompareTo, r) <==> Val(r.from) <= Val(r.to)
  {
  }

  /** The arithmetic of `Ops()` is `Rational`'s, so it adds, subtracts and halves the numbers. */
  lemma OpsArithmetic(x: Rational, y: Rational)
    ensures AddFits(x, y) ==> Ops().add.requires(x, y) && Val(Ops().add(x, y)) == Val(x) + Val(y)
    ensures SubtractFits(x, y) ==> Ops().subtract.requires(x, y) && Val(Ops().subtract(x, y)) == Val(x) - Val(y)
    ensures DivideIntFits(x, 2) ==> Ops().half.requires(x) && Val(Ops().half(x)) == Val(x) / 2.0
    ensures Ops().isNegative(x) <==> Val(x) < 0.0
  {
  }

  // ---------------------------------------------------------------------
  // Constructors and the unimplemented operations

  /** `new RationalRange(from, to)`: fails when `to` is the smaller number. */
  function New(from: Rational, to: Rational): (r: Result<Range<Rational>>)
    ensures r.Success? <==> Val(from) <= Val(to)
    ensures r.Failure? ==> r.error == InvalidRange
    ensures r.Success? ==> r.value == Range(from, to)
  {
    Make(CompareTo, from, to)
  }

  /**
   * The constructor as written orders by `compareTo` with wrapped products, and
   * rejects [1/65536, 65536] although 1/65536 is the smaller number; `New`
   * orders by the exact comparison and accepts it.
   */
  lemma NewAsWrittenDiffers()
    ensures Canonical(Fraction(1, 65536)) && Canonical(Fraction(65536, 1))
    ensures var lo: Rational, hi: Rational := Fraction(1, 65536), Fraction(65536, 1);
      Make<Rational>(CompareToAsWritten, lo, hi) == Failure(InvalidRange) && New(lo, hi).Success?
  {
    CompareToAsWrittenOverflows();
  }

  /** `new RationalRange(value)`: the one-point range; never fails. */
  function Single(value: Rational): (r: Result<Range<Rational>>)
    ensures r == Success(Range(value, value))
  {
    SetValue(CompareTo, value)
  }

  /** `new RationalRange(p1, q1, p2, q2)`: the range from p1/q1 to p2/q2; a zero denominator fails first. */
  function NewFromFractions(p1: int, q1: int, p2: int, q2: int): (r: Result<Range<Rational>>)
    requires ConstructorFits(p1, q1) && ConstructorFits(p2, q2)
    ensures q1 == 0 || q2 == 0 <==> r == Failure(ZeroDenominator)
    ensures r.Success? <==> q1 != 0 && q2 != 0 && Value(p1, q1) <= Value(p2, q2)
    ensures r.Success? ==> Val(r.value.from) == Value(p1, q1) && Val(r.value.to) == Value(p2, q2)
  {
    match Of(p1, q1)
    case Failure(e) => Failure(e)
    case Success(from) =>
      match Of(p2, q2)
      case Failure(e) => Failure(e)
      case Success(to) => New(from, to)
  }

  /** `center()` throws `UnsupportedOperationException`. */
  function Center(r: Range<Rational>): (c: Result<Range<Rational>>)
    ensures c == Failure(Unsupported)
  {
    Failure(Unsupported)
  }

  /** `random(Random)`, and so `randomValue()`, throws `UnsupportedOperationException`. */
  function RandomValue(r: Range<Rational>): (v: Result<Rational>)
    ensures v == Failure(Unsupported)
  {
    Failure(Unsupported)
  }

  // ---------------------------------------------------------------------
  // The countable-range operations on numbers

  /** `distance()` is the length of the range, never negative. */
  lemma DistanceValue(r: Range<Rational>)
    requires IsValid(CompareTo, r) && SubtractFits(r.to, r.from)
    ensures Ops().subtract.requires(r.to, r.from)
    ensures Val(Distance(Ops(), r)) == Val(r.to) - Val(r.from) >= 0.0
  {
    OpsArithmetic(r.to, r.from);
  }

  /** `shift(a)` moves both ends by the number `a` and always succeeds. */
  lemma ShiftValue(r: Range<Rational>, a: Rational)
    requires IsValid(CompareTo, r) && AddFits(r.from, a) && AddFits(r.to, a)
    ensures Ops().add.requires(r.from, a) && Ops().add.requires(r.to, a)
    ensures Shift(Ops(), r, a).Success?
    ensures var s := Shift(Ops(), r, a).value;
      Val(s.from) == Val(r.from) + Val(a) && Val(s.to) == Val(r.to) + Val(a)
  {
    OpsArithmetic(r.from, a);
    OpsArithmetic(r.to, a);
  }

  /** `extend(a)` widens both ends by a non-negative `a`, and rejects a negative one. */
  lemma ExtendValue(r: Range<Rational>, a: Rational)
    requires IsValid(CompareTo, r) && SubtractFits(r.from, a) && AddFits(r.to, a)
    ensures Ops().subtract.requires(r.from, a) && Ops().add.requires(r.to, a)
    ensures Val(a) < 0.0 <==> Extend(Ops(), r, a) == Failure(NegativeAmount)
    ensures Val(a) >= 0.0 ==> Extend(Ops(), r, a).Success?
    ensures var s := Extend(Ops(), r, a);
      s.Success? ==> Val(s.value.from) == Val(r.from) - Val(a) && Val(s.value.to) == Val(r.to) + Val(a)
  {
    OpsArithmetic(r.from, a);
    OpsArithmetic(r.to, a);
  }

  /** Where `trim` needs the midpoint, every step of computing it is defined. */
  predicate MidpointFits(r: Range<Rational>)
  {
    && SubtractFits(r.to, r.from)
    && DivideIntFits(Subtract(r.to, r.from), 2)
    && AddFits(r.from, DivideInt(Subtract(r.to, r.from), 2).value)
  }

  /** The midpoint `from + (to - from) / 2` is the average of the ends. */
  lemma MidpointValue(r: Range<Rational>)
    requires MidpointFits(r)
    ensures Ops().subtract.requires(r.to, r.from)
    ensures Ops().half.requires(Ops().subtract(r.to, r.from))
    ensures Ops().add.requires(r.from, Ops().half(Ops().subtract(r.to, r.from)))
    ensures Val(Midpoint(Ops(), r)) == (Val(r.from) + Val(r.to)) / 2.0
  {
    OpsArithmetic(r.to, r.from);
    var d := Subtract(r.to, r.from);
    OpsArithmetic(d, d);
    OpsArithmetic(r.from, DivideInt(d, 2).value);
  }

  /**
   * `trim(a)` moves both ends in by a non-negative `a`; when they would
   * cross, the range collapses onto the average of its ends.
   */
  lemma TrimValue(r: Range<Rational>, a: Rational)
    requires IsValid(CompareTo, r) && !IsNegative(a)
    requires AddFits(r.from, a) && SubtractFits(r.to, a) && MidpointFits(r)
    ensures TrimDefined(Ops(), r, a)
    ensures Trim(Ops(), r, a).Success?
    ensures var s := Trim(Ops(), r, a).value;
      if Val(r.from) + Val(a) <= Val(r.to) - Val(a) then
        Val(s.from) == Val(r.from) + Val(a) && Val(s.to) == Val(r.to) - Val(a)
      else
        s.from == s.to && Val(s.from) == (Val(r.from) + Val(r.to)) / 2.0
  {
    OpsArithmetic(r.from, a);
    OpsArithmetic(r.to, a);
    MidpointValue(r);
    CompareToIsTotalOrder();
    TrimsNeverFail(Ops(), r, a);
  }

  /** `trimMinimum(a)` raises the minimum by `a`, but not past the maximum. */
  lemma TrimMinimumValue(r: Range<Rational>, a: Rational)
    requires IsValid(CompareTo, r) && !IsNegative(a) && AddFits(r.from, a)
    ensures Ops().add.requires(r.from, a)
    ensures TrimMinimum(Ops(), r, a).Success?
    ensures var s := TrimMinimum(Ops(), r, a).value;
      s.to == r.to &&
      Val(s.from) == (if Val(r.from) + Val(a) <= Val(r.to) then Val(r.from) + Val(a) else Val(r.to))
  {
    OpsArithmetic(r.from, a);
  }

  /** `trimMaximum(a)` lowers the maximum by `a`, but not past the minimum. */
  lemma TrimMaximumValue(r: Range<Rational>, a: Rational)
    requires IsValid(CompareTo, r) && !IsNegative(a) && SubtractFits(r.to, a)
    ensures Ops().subtract.requires(r.to, a)
    ensures TrimMaximum(Ops(), r, a).Success?
    ensures var s := TrimMaximum(Ops(), r, a).value;
      s.from == r.from &&
      Val(s.to) == (if Val(r.from) <= Val(r.to) - Val(a) then Val(r.to) - Val(a) else Val(r.from))
  {
    OpsArithmetic(r.to, a);
  }
}
