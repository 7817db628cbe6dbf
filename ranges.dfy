/**
 * `AbstractRange`: an immutable closed interval [from, to] over a type
 * ordered by its `compareTo`. The comparison is a parameter `cmp` of every
 * operation, so `IntegerRange`, `LongRange` and `RationalRange` all use this
 * one module.
 *
 * `set(from, to)`, which subclasses implement by calling their constructor,
 * is `Make`; a constructor that throws is a `Failure`.
 */
module Ranges {
  import opened Results

  datatype Range<T> = Range(from: T, to: T)

  /** The laws `compareTo` promises (and that `equals` agrees with it): the ordering the lemmas rely on. */
  ghost predicate IsTotalOrder<T(!new)>(cmp: (T, T) -> int)
  {
    && (forall x: T, y: T :: cmp(x, y) == 0 <==> x == y)
    && (forall x: T, y: T :: cmp(x, y) < 0 <==> cmp(y, x) > 0)
    && (forall x: T, y: T, z: T :: cmp(x, y) <= 0 && cmp(y, z) <= 0 ==> cmp(x, z) <= 0)
  }

  /** x is at most y */
  predicate Le<T>(cmp: (T, T) -> int, x: T, y: T) { cmp(x, y) <= 0 }

  /** x is strictly below y */
  predicate Lt<T>(cmp: (T, T) -> int, x: T, y: T) { cmp(x, y) < 0 }

  /** What the constructor checks: the maximum is not below the minimum. */
  predicate IsValid<T>(cmp: (T, T) -> int, r: Range<T>)
  {
    cmp(r.to, r.from) >= 0
  }

  // ---------------------------------------------------------------------
  // Construction

  /** The constructor, and so `set(from, to)`: rejects a maximum below the minimum. */
  function Make<T>(cmp: (T, T) -> int, from: T, to: T): (r: Result<Range<T>>)
    ensures r.Success? <==> !Lt(cmp, to, from)
    ensures r.Failure? ==> r.error == InvalidRange
    ensures r.Success? ==> r.value.from == from && r.value.to == to && IsValid(cmp, r.value)
  {
    if cmp(to, from) < 0 then Failure(InvalidRange) else Success(Range(from, to))
  }

  /** `set(value)`: the one-point range [value, value]. */
  function SetValue<T>(cmp: (T, T) -> int, value: T): (r: Result<Range<T>>)
    ensures r.Success? ==> r.value.from == value && r.value.to == value
  {
    Make(cmp, value, value)
  }

  /** `safeSet(value1, value2)`: orders the two values before building the range. */
  function SafeSet<T>(cmp: (T, T) -> int, value1: T, value2: T): (r: Result<Range<T>>)
    ensures r.Success? ==> {r.value.from, r.value.to} == {value1, value2}
  {
    if cmp(value2, value1) < 0 then Make(cmp, value2, value1) else Make(cmp, value1, value2)
  }

  /** `setFrom(from)`: the range with a new minimum and the same maximum. */
  function SetFrom<T>(cmp: (T, T) -> int, r: Range<T>, from: T): (s: Result<Range<T>>)
    ensures s.Success? <==> !Lt(cmp, r.to, from)
    ensures s.Success? ==> s.value.from == from && s.value.to == r.to
  {
    Make(cmp, from, r.to)
  }

  /** `setTo(to)`: the range with the same minimum and a new maximum. */
  function SetTo<T>(cmp: (T, T) -> int, r: Range<T>, to: T): (s: Result<Range<T>>)
    ensures s.Success? <==> !Lt(cmp, to, r.from)
    ensures s.Success? ==> s.value.from == r.from && s.value.to == to
  {
    Make(cmp, r.from, to)
  }

  // ---------------------------------------------------------------------
  // Queries

  /** `isOver(value)`: the minimum lies above the value. */
  predicate IsOver<T>(cmp: (T, T) -> int, r: Range<T>, value: T)
  {
    cmp(r.from, value) > 0
  }

  /** `isUnder(value)`: the maximum lies below the value. */
  predicate IsUnder<T>(cmp: (T, T) -> int, r: Range<T>, value: T)
  {
    cmp(r.to, value) < 0
  }

  /** `contains(value)`: neither under nor over. */
  predicate Contains<T>(cmp: (T, T) -> int, r: Range<T>, value: T)
  {
    !IsUnder(cmp, r, value) && !IsOver(cmp, r, value)
  }

  /** `contains(range)`: both ends of the other range lie in this one. */
  predicate ContainsRange<T>(cmp: (T, T) -> int, r: Range<T>, other: Range<T>)
  {
    Contains(cmp, r, other.from) && Contains(cmp, r, other.to)
  }

  /** `isBoundary(value)`: the value is one of the two ends. */
  predicate IsBoundary<T>(cmp: (T, T) -> int, r: Range<T>, value: T)
  {
    cmp(r.from, value) == 0 || cmp(r.to, value) == 0
  }

  /** `overlaps(range)`: neither range ends before the other starts. */
  predicate Overlaps<T>(cmp: (T, T) -> int, r: Range<T>, other: Range<T>)
  {
    !(cmp(r.to, other.from) < 0 || cmp(other.to, r.from) < 0)
  }

  /** `maximum(range)`: the larger of the two maxima. */
  function Maximum<T>(cmp: (T, T) -> int, r: Range<T>, other: Range<T>): (m: T)
    ensures m == r.to || m == other.to
  {
    if cmp(r.to, other.to) < 0 then other.to else r.to
  }

  /** `minimum(range)`: the smaller of the two minima. */
  function Minimum<T>(cmp: (T, T) -> int, r: Range<T>, other: Range<T>): (m: T)
    ensures m == r.from || m == other.from
  {
    if cmp(r.from, other.from) < 0 then r.from else other.from
  }

  /** `equals`: both ends are equal. */
  predicate Equals<T(==)>(r: Range<T>, other: Range<T>)
  {
    r.from == other.from && r.to == other.to
  }

  // ---------------------------------------------------------------------
  // Properties, under the `compareTo` laws

  /** A value is contained exactly when it lies between the ends. */
  lemma ContainsIff<T(!new)>(cmp: (T, T) -> int, r: Range<T>, v: T)
    requires IsTotalOrder(cmp)
    ensures Contains(cmp, r, v) <==> Le(cmp, r.from, v) && Le(cmp, v, r.to)
  {
  }

  /** For a valid range every value is over it, in it, or under it, and only one of these. */
  lemma Trichotomy<T(!new)>(cmp: (T, T) -> int, r: Range<T>, v: T)
    requires IsTotalOrder(cmp) && IsValid(cmp, r)
    ensures IsOver(cmp, r, v) || Contains(cmp, r, v) || IsUnder(cmp, r, v)
    ensures !(IsOver(cmp, r, v) && IsUnder(cmp, r, v))
  {
  }

  /** The ends of a valid range are its boundaries and are contained; a boundary is contained. */
  lemma Boundaries<T(!new)>(cmp: (T, T) -> int, r: Range<T>, v: T)
    requires IsTotalOrder(cmp) && IsValid(cmp, r)
    ensures IsBoundary(cmp, r, r.from) && IsBoundary(cmp, r, r.to)
    ensures IsBoundary(cmp, r, v) ==> Contains(cmp, r, v)
    ensures IsBoundary(cmp, r, v) <==> v == r.from || v == r.to
  {
  }

  /** Containment of ranges is reflexive and transitive on valid ranges. */
  lemma ContainsRangeOrder<T(!new)>(cmp: (T, T) -> int, r: Range<T>, s: Range<T>, t: Range<T>)
    requires IsTotalOrder(cmp) && IsValid(cmp, r)
    ensures ContainsRange(cmp, r, r)
    ensures ContainsRange(cmp, r, s) && ContainsRange(cmp, s, t) ==> ContainsRange(cmp, r, t)
  {
  }

  /** Two valid ranges are equal exactly when each contains the other. */
  lemma EqualsIffMutualContainment<T(!new)>(cmp: (T, T) -> int, r: Range<T>, s: Range<T>)
    requires IsTotalOrder(cmp) && IsValid(cmp, r) && IsValid(cmp, s)
    ensures Equals(r, s) <==> ContainsRange(cmp, r, s) && ContainsRange(cmp, s, r)
  {
  }

  /** Overlap is symmetric, and two ranges overlap exactly when the larger minimum lies in both. */
  lemma OverlapsIff<T(!new)>(cmp: (T, T) -> int, r: Range<T>, s: Range<T>)
    requires IsTotalOrder(cmp) && IsValid(cmp, r) && IsValid(cmp, s)
    ensures Overlaps(cmp, r, s) <==> Overlaps(cmp, s, r)
    ensures var m := if Lt(cmp, r.from, s.from) then s.from else r.from;
      Overlaps(cmp, r, s) <==> Contains(cmp, r, m) && Contains(cmp, s, m)
  {
  }

  /** A value inside both ranges makes them overlap; a range overlaps itself and every range inside it. */
  lemma OverlapsWitness<T(!new)>(cmp: (T, T) -> int, r: Range<T>, s: Range<T>, v: T)
    requires IsTotalOrder(cmp) && IsValid(cmp, s)
    ensures Contains(cmp, r, v) && Contains(cmp, s, v) ==> Overlaps(cmp, r, s)
    ensures ContainsRange(cmp, r, s) ==> Overlaps(cmp, r, s)
  {
  }

  /** `minimum` and `maximum` are the least minimum and the greatest maximum, and span both ranges. */
  lemma MinimumMaximumBound<T(!new)>(cmp: (T, T) -> int, r: Range<T>, s: Range<T>)
    requires IsTotalOrder(cmp) && IsValid(cmp, r) && IsValid(cmp, s)
    ensures Le(cmp, Minimum(cmp, r, s), r.from) && Le(cmp, Minimum(cmp, r, s), s.from)
    ensures Le(cmp, r.to, Maximum(cmp, r, s)) && Le(cmp, s.to, Maximum(cmp, r, s))
    ensures Make(cmp, Minimum(cmp, r, s), Maximum(cmp, r, s)).Success?
    ensures var h := Make(cmp, Minimum(cmp, r, s), Maximum(cmp, r, s)).value;
      ContainsRange(cmp, h, r) && ContainsRange(cmp, h, s)
  {
  }

  /** `set(value)` never fails. */
  lemma SetValueSucceeds<T(!new)>(cmp: (T, T) -> int, value: T)
    requires IsTotalOrder(cmp)
    ensures SetValue(cmp, value) == Success(Range(value, value))
  {
  }

  /** `safeSet` never fails, ignores the order of its arguments, and keeps an ordered pair as it is. */
  lemma SafeSetProperties<T(!new)>(cmp: (T, T) -> int, value1: T, value2: T)
    requires IsTotalOrder(cmp)
    ensures SafeSet(cmp, value1, value2).Success?
    ensures SafeSet(cmp, value1, value2) == SafeSet(cmp, value2, value1)
    ensures Le(cmp, value1, value2) ==> SafeSet(cmp, value1, value2) == Success(Range(value1, value2))
  {
  }

  /** Setting an end to its current value gives back the range, and collapsing it onto the other end gives a one-point range. */
  lemma SetEnds<T(!new)>(cmp: (T, T) -> int, r: Range<T>)
    requires IsTotalOrder(cmp) && IsValid(cmp, r)
    ensures Make(cmp, r.from, r.to) == Success(r)
    ensures SetFrom(cmp, r, r.from) == Success(r) && SetTo(cmp, r, r.to) == Success(r)
    ensures SetTo(cmp, r, r.from) == SetValue(cmp, r.from)
    ensures SetFrom(cmp, r, r.to) == SetValue(cmp, r.to)
  {
  }
}
