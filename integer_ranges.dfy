/**
 * `IntegerRange` and `LongRange`: countable ranges over Java's `int` and
 * `long`. The two classes differ only in the width of their values, so one
 * module covers both, with the width as a parameter.
 *
 * Their `add` and `subtract` are Java's `+` and `-`, which wrap around
 * silently; `half` is Java's truncating `/ 2`. The lemmas give the exact
 * results where nothing wraps, and show what wrapping does at the edges.
 */
module IntegerRanges {
  import opened MathUtil
  import opened Results
  import opened Ranges
  import opened CountableRanges

  /** `IntegerRange` holds `int`s, `LongRange` holds `long`s. */
  datatype Width = Int | Long

  predicate InWidth(w: Width, x: int)
  {
    if w == Int then IsInt(x) else IsLong(x)
  }

  /** Java's `+` or `-` result at this width. */
  function Wrap(w: Width, x: int): (y: int)
    ensures InWidth(w, y)
    ensures w == Int ==> (y - x) % 0x1_0000_0000 == 0
    ensures w == Long ==> (y - x) % 0x1_0000_0000_0000_0000 == 0
    ensures InWidth(w, x) ==> y == x
  {
    if w == Int then WrapInt(x) else WrapLong(x)
  }

  /** A range whose ends are values of the width. */
  predicate IsRangeOf(w: Width, r: Range<int>)
  {
    InWidth(w, r.from) && InWidth(w, r.to)
  }

  /** `Integer.compareTo` and `Long.compareTo`: -1, 0 or 1. */
  function Compare(x: int, y: int): (c: int)
    ensures c == -1 || c == 0 || c == 1
    ensures c < 0 <==> x < y
    ensures c == 0 <==> x == y
  {
    if x < y then -1 else if x == y then 0 else 1
  }

  lemma CompareIsTotalOrder()
    ensures IsTotalOrder(Compare)
  {
  }

  /** The abstract methods as `IntegerRange` (width `Int`) and `LongRange` (width `Long`) implement them. */
  function Ops(w: Width): (A: Arith<int>)
    ensures A.cmp == Compare
  {
    Arith(
      Compare,
      (x: int, y: int) requires InWidth(w, x) && InWidth(w, y) => Wrap(w, x + y),
      (x: int, y: int) requires InWidth(w, x) && InWidth(w, y) => Wrap(w, x - y),
      (x: int) requires InWidth(w, x) => JavaDiv(x, 2),
      (x: int) => x < 0)
  }

  /** The arithmetic of the width: defined on its values, exact when the exact result fits. */
  lemma OpsArithmetic(w: Width, x: int, y: int)
    requires InWidth(w, x) && InWidth(w, y)
    ensures Ops(w).add.requires(x, y) && Ops(w).add(x, y) == Wrap(w, x + y)
    ensures Ops(w).subtract.requires(x, y) && Ops(w).subtract(x, y) == Wrap(w, x - y)
    ensures Ops(w).half.requires(x) && Ops(w).half(x) == JavaDiv(x, 2)
    ensures Ops(w).isNegative(y) <==> y < 0
    ensures InWidth(w, x + y) ==> Ops(w).add(x, y) == x + y
    ensures InWidth(w, x - y) ==> Ops(w).subtract(x, y) == x - y
  {
  }

  // ---------------------------------------------------------------------
  // Constructors

  /** `new IntegerRange(from, to)` / `new LongRange(from, to)`. */
  function New(from: int, to: int): (r: Result<Range<int>>)
    ensures r.Success? <==> from <= to
    ensures r.Failure? ==> r.error == InvalidRange
    ensures r.Success? ==> r.value == Range(from, to)
  {
    Make(Compare, from, to)
  }

  /** `new IntegerRange(value)`: the one-point range; never fails. */
  function Single(value: int): (r: Result<Range<int>>)
    ensures r == Success(Range(value, value))
  {
    SetValue(Compare, value)
  }

  /** `new IntegerRange()`: the range [0, 0]. */
  function Default(): (r: Result<Range<int>>)
    ensures r == Success(Range(0, 0))
  {
    Single(0)
  }

  // ---------------------------------------------------------------------
  // center()

  /**
   * `center()` as written: `min = from + distance() / 2`, and `max` is
   * `min + 1` when the distance is odd. Every step is width arithmetic.
   */
  function Center(w: Width, r: Range<int>): (c: Result<Range<int>>)
    requires IsRangeOf(w, r)
    ensures c.Success? ==> c.value.from <= c.value.to
  {
    var d := Wrap(w, r.to - r.from);
    var min := Wrap(w, r.from + JavaDiv(d, 2));
    var max := if JavaRem(d, 2) != 0 then Wrap(w, min + 1) else min;
    New(min, max)
  }

  /** Where the distance fits the width, `center()` is the middle one or two values of the range. */
  lemma CenterWithinWidth(w: Width, r: Range<int>)
    requires IsRangeOf(w, r) && r.from <= r.to && InWidth(w, r.to - r.from)
    ensures Center(w, r).Success?
    ensures var c := Center(w, r).value;
      && c.from + c.to == r.from + r.to
      && c.from <= c.to <= c.from + 1
      && r.from <= c.from && c.to <= r.to
  {
    var d := r.to - r.from;
    JavaDivRemNonNegative(d, 2);
  }

  /** `new IntegerRange(-5, 5).center()` is [0, 0] and `new IntegerRange(0, 5).center()` is [2, 3]. */
  lemma CenterExamples()
    ensures Center(Int, Range(-5, 5)) == Success(Range(0, 0))
    ensures Center(Int, Range(0, 5)) == Success(Range(2, 3))
  {
    CenterWithinWidth(Int, Range(-5, 5));
    CenterWithinWidth(Int, Range(0, 5));
  }

  /**
   * Where the distance wraps, `center()` leaves the middle: [MIN_VALUE, MAX_VALUE]
   * gives [MIN_VALUE, MIN_VALUE + 1], [MIN_VALUE, MAX_VALUE - 1] gives
   * [MAX_VALUE, MAX_VALUE], and for [MIN_VALUE, MAX_VALUE - 2] the new ends
   * come out reversed and the constructor throws.
   */
  lemma CenterOverflows()
    ensures Center(Int, Range(IntMin, IntMax)) == Success(Range(IntMin, IntMin + 1))
    ensures Center(Int, Range(IntMin, IntMax - 1)) == Success(Range(IntMax, IntMax))
    ensures Center(Int, Range(IntMin, IntMax - 2)) == Failure(InvalidRange)
  {
    assert WrapInt(IntMax - IntMin) == -1;
    assert JavaDiv(-1, 2) == 0;
    assert JavaRem(-1, 2) == -1;
    assert WrapInt(IntMax - 1 - IntMin) == -2;
    assert JavaDiv(-2, 2) == -1;
    assert JavaRem(-2, 2) == 0;
    assert WrapInt(IntMin + -1) == IntMax;
    assert WrapInt(IntMax - 2 - IntMin) == -3;
    assert JavaDiv(-3, 2) == -1;
    assert JavaRem(-3, 2) == -1;
    assert WrapInt(IntMax + 1) == IntMin;
  }

  /** The center computed with the exact distance, which always lies between the ends. */
  function CenterExact(r: Range<int>): (c: Result<Range<int>>)
    requires r.from <= r.to
    ensures c.Success?
    ensures c.value.from + c.value.to == r.from + r.to
    ensures c.value.from <= c.value.to <= c.value.from + 1
    ensures r.from <= c.value.from && c.value.to <= r.to
  {
    var d := r.to - r.from;
    var min := r.from + d / 2;
    New(min, min + d % 2)
  }

  /** The exact center agrees with `center()` wherever the distance does not wrap. */
  lemma CenterExactAgrees(w: Width, r: Range<int>)
    requires IsRangeOf(w, r) && r.from <= r.to && InWidth(w, r.to - r.from)
    ensures CenterExact(r) == Center(w, r)
  {
    CenterWithinWidth(w, r);
  }

  // ---------------------------------------------------------------------
  // The countable-range operations at a width

  /** `distance()` of a valid range is `to - from` when that fits, so `from + distance() == to`. */
  lemma DistanceWithinWidth(w: Width, r: Range<int>)
    requires IsRangeOf(w, r) && r.from <= r.to && InWidth(w, r.to - r.from)
    ensures Ops(w).subtract.requires(r.to, r.from)
    ensures Distance(Ops(w), r) == r.to - r.from >= 0
  {
    OpsArithmetic(w, r.to, r.from);
  }

  /** `shift(a)` moves both ends by `a` and keeps the distance, when neither end wraps. */
  lemma ShiftWithinWidth(w: Width, r: Range<int>, a: int)
    requires IsRangeOf(w, r) && r.from <= r.to && InWidth(w, a)
    requires InWidth(w, r.from + a) && InWidth(w, r.to + a)
    ensures Ops(w).add.requires(r.from, a) && Ops(w).add.requires(r.to, a)
    ensures Shift(Ops(w), r, a) == Success(Range(r.from + a, r.to + a))
  {
    OpsArithmetic(w, r.from, a);
    OpsArithmetic(w, r.to, a);
  }

  /** Shifting by `a` and then by `-a` gives the range back. */
  lemma ShiftBack(w: Width, r: Range<int>, a: int)
    requires IsRangeOf(w, r) && r.from <= r.to && InWidth(w, a) && InWidth(w, -a)
    requires InWidth(w, r.from + a) && InWidth(w, r.to + a)
    ensures Ops(w).add.requires(r.from, a) && Ops(w).add.requires(r.to, a)
    ensures var s := Shift(Ops(w), r, a).value;
      Ops(w).add.requires(s.from, -a) && Ops(w).add.requires(s.to, -a) &&
      Shift(Ops(w), s, -a) == Success(r)
  {
    ShiftWithinWidth(w, r, a);
    ShiftWithinWidth(w, Range(r.from + a, r.to + a), -a);
  }

  /** Shifting [0, MAX_VALUE] up by one wraps the maximum to MIN_VALUE, and the constructor rejects the result. */
  lemma ShiftOverflows()
    ensures Shift(Ops(Int), Range(0, IntMax), 1) == Failure(InvalidRange)
  {
    OpsArithmetic(Int, 0, 1);
    OpsArithmetic(Int, IntMax, 1);
    assert WrapInt(IntMax + 1) == IntMin;
  }

  /** `extendMinimum`, `extendMaximum` and `extend` by `a >= 0` move the ends out by `a`, when nothing wraps. */
  lemma ExtendWithinWidth(w: Width, r: Range<int>, a: int)
    requires IsRangeOf(w, r) && r.from <= r.to && InWidth(w, a) && a >= 0
    requires InWidth(w, r.from - a) && InWidth(w, r.to + a)
    ensures Ops(w).subtract.requires(r.from, a) && Ops(w).add.requires(r.to, a)
    ensures ExtendMinimum(Ops(w), r, a) == Success(Range(r.from - a, r.to))
    ensures ExtendMaximum(Ops(w), r, a) == Success(Range(r.from, r.to + a))
    ensures Extend(Ops(w), r, a) == Success(Range(r.from - a, r.to + a))
  {
    OpsArithmetic(w, r.from, a);
    OpsArithmetic(w, r.to, a);
    assert Ops(w).subtract(r.from, a) == r.from - a;
    assert Ops(w).add(r.to, a) == r.to + a;
  }

  /** Every extend and trim rejects a negative amount. */
  lemma NegativeAmountRejected(w: Width, r: Range<int>, a: int)
    requires IsRangeOf(w, r) && InWidth(w, a) && a < 0
    ensures ExtendMinimum(Ops(w), r, a) == Failure(NegativeAmount)
    ensures ExtendMaximum(Ops(w), r, a) == Failure(NegativeAmount)
    ensures Extend(Ops(w), r, a) == Failure(NegativeAmount)
    ensures Trim(Ops(w), r, a) == Failure(NegativeAmount)
    ensures TrimMinimum(Ops(w), r, a) == Failure(NegativeAmount)
    ensures TrimMaximum(Ops(w), r, a) == Failure(NegativeAmount)
  {
  }

  /**
   * `trim(a)` moves both ends in by `a` while they do not cross, and
   * otherwise collapses onto `from + (to - from) / 2`, when nothing wraps.
   */
  lemma TrimWithinWidth(w: Width, r: Range<int>, a: int)
    requires IsRangeOf(w, r) && r.from <= r.to && InWidth(w, a) && a >= 0
    requires InWidth(w, r.from + a) && InWidth(w, r.to - a) && InWidth(w, r.to - r.from)
    ensures TrimDefined(Ops(w), r, a)
    ensures r.from + a <= r.to - a ==> Trim(Ops(w), r, a) == Success(Range(r.from + a, r.to - a))
    ensures r.from + a > r.to - a ==>
      var mid := r.from + (r.to - r.from) / 2;
      r.from <= mid <= r.to && Trim(Ops(w), r, a) == Success(Range(mid, mid))
  {
    if r.from + a <= r.to - a {
      TrimMovesEnds(w, r, a);
    } else {
      TrimCollapses(w, r, a);
    }
  }

  lemma TrimMovesEnds(w: Width, r: Range<int>, a: int)
    requires IsRangeOf(w, r) && InWidth(w, a) && a >= 0
    requires InWidth(w, r.from + a) && InWidth(w, r.to - a) && r.from + a <= r.to - a
    ensures TrimDefined(Ops(w), r, a)
    ensures Trim(Ops(w), r, a) == Success(Range(r.from + a, r.to - a))
  {
    OpsArithmetic(w, r.from, a);
    OpsArithmetic(w, r.to, a);
    TrimInside(Ops(w), r, a);
  }

  lemma TrimCollapses(w: Width, r: Range<int>, a: int)
    requires IsRangeOf(w, r) && r.from <= r.to && InWidth(w, a) && a >= 0
    requires InWidth(w, r.from + a) && InWidth(w, r.to - a) && InWidth(w, r.to - r.from)
    requires r.from + a > r.to - a
    ensures TrimDefined(Ops(w), r, a)
    ensures Trim(Ops(w), r, a) == Success(Range(r.from + (r.to - r.from) / 2, r.from + (r.to - r.from) / 2))
  {
    OpsArithmetic(w, r.from, a);
    OpsArithmetic(w, r.to, a);
    MidpointWithinWidth(w, r);
    TrimAcross(Ops(w), r, a);
  }

  /** `add(from, half(subtract(to, from)))` is `from + (to - from) / 2`, a value of the range. */
  lemma MidpointWithinWidth(w: Width, r: Range<int>)
    requires IsRangeOf(w, r) && r.from <= r.to && InWidth(w, r.to - r.from)
    ensures Ops(w).subtract.requires(r.to, r.from)
    ensures Ops(w).half.requires(Ops(w).subtract(r.to, r.from))
    ensures Ops(w).add.requires(r.from, Ops(w).half(Ops(w).subtract(r.to, r.from)))
    ensures Midpoint(Ops(w), r) == r.from + (r.to - r.from) / 2
    ensures r.from <= Midpoint(Ops(w), r) <= r.to
  {
    var d := r.to - r.from;
    OpsArithmetic(w, r.to, r.from);
    assert Ops(w).subtract(r.to, r.from) == d;
    JavaDivRemNonNegative(d, 2);
    var h := d / 2;
    assert Ops(w).half(d) == h;
    assert r.from <= r.from + h <= r.to;
    OpsArithmetic(w, r.from, h);
    assert Ops(w).add(r.from, h) == r.from + h;
  }

  /** `new IntegerRange(0, 10).trim(6)` collapses to [5, 5]; `trim(2)` gives [2, 8]. */
  lemma TrimExamples()
    ensures Trim(Ops(Int), Range(0, 10), 6) == Success(Range(5, 5))
    ensures Trim(Ops(Int), Range(0, 10), 2) == Success(Range(2, 8))
  {
    assert IsRangeOf(Int, Range(0, 10)) && InWidth(Int, 6) && InWidth(Int, 2);
    TrimCollapses(Int, Range(0, 10), 6);
    TrimMovesEnds(Int, Range(0, 10), 2);
  }

  /** `trimMinimum(a)` raises the minimum by `a` but not past the maximum, when `from + a` does not wrap. */
  lemma TrimMinimumWithinWidth(w: Width, r: Range<int>, a: int)
    requires IsRangeOf(w, r) && r.from <= r.to && InWidth(w, a) && a >= 0
    requires InWidth(w, r.from + a)
    ensures Ops(w).add.requires(r.from, a)
    ensures TrimMinimum(Ops(w), r, a) == Success(Range(if r.from + a <= r.to then r.from + a else r.to, r.to))
  {
    OpsArithmetic(w, r.from, a);
  }

  /** `trimMaximum(a)` lowers the maximum by `a` but not past the minimum, when `to - a` does not wrap. */
  lemma TrimMaximumWithinWidth(w: Width, r: Range<int>, a: int)
    requires IsRangeOf(w, r) && r.from <= r.to && InWidth(w, a) && a >= 0
    requires InWidth(w, r.to - a)
    ensures Ops(w).subtract.requires(r.to, a)
    ensures TrimMaximum(Ops(w), r, a) == Success(Range(r.from, if r.from <= r.to - a then r.to - a else r.from))
  {
    OpsArithmetic(w, r.to, a);
  }

  /** `trimMinimum(distance() + 1)` is `setFrom(to)` and `trimMaximum(distance() + 1)` is `setTo(from)`. */
  lemma TrimPastTheOtherEnd(w: Width, r: Range<int>)
    requires IsRangeOf(w, r) && r.from <= r.to && InWidth(w, r.to - r.from + 1)
    requires InWidth(w, r.to + 1) && InWidth(w, r.from - 1)
    ensures TrimMinimum(Ops(w), r, r.to - r.from + 1) == SetFrom(Compare, r, r.to)
    ensures TrimMaximum(Ops(w), r, r.to - r.from + 1) == SetTo(Compare, r, r.from)
  {
    TrimMinimumWithinWidth(w, r, r.to - r.from + 1);
    TrimMaximumWithinWidth(w, r, r.to - r.from + 1);
  }

  /** `new IntegerRange(1, 10).trimMinimum(Integer.MAX_VALUE)`: `1 + MAX_VALUE` wraps to MIN_VALUE, and the range grows to [MIN_VALUE, 10]. */
  lemma TrimMinimumOverflows()
    ensures TrimMinimum(Ops(Int), Range(1, 10), IntMax) == Success(Range(IntMin, 10))
  {
    OpsArithmetic(Int, 1, IntMax);
    assert WrapInt(1 + IntMax) == IntMin;
  }

  /** `new IntegerRange(-10, -2).trimMaximum(Integer.MAX_VALUE)`: `-2 - MAX_VALUE` wraps to MAX_VALUE, and the range grows to [-10, MAX_VALUE]. */
  lemma TrimMaximumOverflows()
    ensures TrimMaximum(Ops(Int), Range(-10, -2), IntMax) == Success(Range(-10, IntMax))
  {
    OpsArithmetic(Int, -2, IntMax);
    assert WrapInt(-2 - IntMax) == IntMax;
  }

  /** `trimMinimum` as documented: the new minimum is `from + a`, or the maximum once `a` exceeds the distance. */
  function TrimMinimumExact(r: Range<int>, a: int): (s: Result<Range<int>>)
    requires r.from <= r.to
    ensures a < 0 <==> s == Failure(NegativeAmount)
    ensures a >= 0 ==> s.Success?
    ensures s.Success? ==> ContainsRange(Compare, r, s.value) && s.value.to == r.to
    ensures s.Success? ==> s.value.from == r.from + a || (s.value.from == r.to && a > r.to - r.from)
  {
    if a < 0 then Failure(NegativeAmount)
    else SetFrom(Compare, r, if a > r.to - r.from then r.to else r.from + a)
  }

  /** `trimMaximum` as documented: the new maximum is `to - a`, or the minimum once `a` exceeds the distance. */
  function TrimMaximumExact(r: Range<int>, a: int): (s: Result<Range<int>>)
    requires r.from <= r.to
    ensures a < 0 <==> s == Failure(NegativeAmount)
    ensures a >= 0 ==> s.Success?
    ensures s.Success? ==> ContainsRange(Compare, r, s.value) && s.value.from == r.from
    ensures s.Success? ==> s.value.to == r.to - a || (s.value.to == r.from && a > r.to - r.from)
  {
    if a < 0 then Failure(NegativeAmount)
    else SetTo(Compare, r, if a > r.to - r.from then r.from else r.to - a)
  }

  /** The documented trims cap where the code as written wraps: [1, 10] trimmed below by MAX_VALUE is [10, 10], and [-10, -2] trimmed above by MAX_VALUE is [-10, -10]. */
  lemma TrimExactExamples()
    ensures TrimMinimumExact(Range(1, 10), IntMax) == Success(Range(10, 10))
    ensures TrimMaximumExact(Range(-10, -2), IntMax) == Success(Range(-10, -10))
  {
  }

  /** The documented trims agree with `trimMinimum` and `trimMaximum` wherever those do not wrap. */
  lemma TrimExactAgrees(w: Width, r: Range<int>, a: int)
    requires IsRangeOf(w, r) && r.from <= r.to && InWidth(w, a)
    ensures InWidth(w, r.from + a) ==> TrimMinimumExact(r, a) == TrimMinimum(Ops(w), r, a)
    ensures InWidth(w, r.to - a) ==> TrimMaximumExact(r, a) == TrimMaximum(Ops(w), r, a)
  {
    if a >= 0 && InWidth(w, r.from + a) {
      TrimMinimumWithinWidth(w, r, a);
    }
    if a >= 0 && InWidth(w, r.to - a) {
      TrimMaximumWithinWidth(w, r, a);
    }
  }
}
