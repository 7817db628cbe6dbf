/**
 * `AbstractCountableRange`: a range whose type has arithmetic. The abstract
 * methods a subclass supplies (`compareTo`, `add`, `subtract`, `half`,
 * `isNegative`) are the fields of an `Arith` record. The arithmetic is
 * partial: each operation's precondition is the domain on which the subclass
 * computes it (for `Rational`, where no `int` overflows).
 *
 * `center()` and `randomValue()` are supplied by the subclasses and are
 * modelled in their modules.
 */
module CountableRanges {
  import opened Results
  import opened Ranges

  datatype Arith<!T> = Arith(
    cmp: (T, T) -> int,
    add: (T, T) --> T,
    subtract: (T, T) --> T,
    half: T --> T,
    isNegative: T -> bool)

  /** `distance()`: `subtract(to, from)`. */
  function Distance<T>(A: Arith<T>, r: Range<T>): (d: T)
    requires A.subtract.requires(r.to, r.from)
  {
    A.subtract(r.to, r.from)
  }

  /** `shift(amount)`: both ends moved by `add(_, amount)`; the new pair goes through the constructor. */
  function Shift<T>(A: Arith<T>, r: Range<T>, amount: T): (s: Result<Range<T>>)
    requires A.add.requires(r.from, amount) && A.add.requires(r.to, amount)
    ensures s.Success? <==> !Lt(A.cmp, A.add(r.to, amount), A.add(r.from, amount))
    ensures s.Success? ==> s.value == Range(A.add(r.from, amount), A.add(r.to, amount))
  {
    Make(A.cmp, A.add(r.from, amount), A.add(r.to, amount))
  }

  /** `extendMinimum(amount)`: a negative amount is rejected, otherwise the minimum becomes `subtract(from, amount)`. */
  function ExtendMinimum<T>(A: Arith<T>, r: Range<T>, amount: T): (s: Result<Range<T>>)
    requires !A.isNegative(amount) ==> A.subtract.requires(r.from, amount)
    ensures A.isNegative(amount) ==> s == Failure(NegativeAmount)
    ensures s.Success? ==> s.value == Range(A.subtract(r.from, amount), r.to)
    ensures !A.isNegative(amount) ==> (s.Success? <==> !Lt(A.cmp, r.to, A.subtract(r.from, amount)))
  {
    if A.isNegative(amount) then Failure(NegativeAmount)
    else SetFrom(A.cmp, r, A.subtract(r.from, amount))
  }

  /** `extendMaximum(amount)`: a negative amount is rejected, otherwise the maximum becomes `add(to, amount)`. */
  function ExtendMaximum<T>(A: Arith<T>, r: Range<T>, amount: T): (s: Result<Range<T>>)
    requires !A.isNegative(amount) ==> A.add.requires(r.to, amount)
    ensures A.isNegative(amount) ==> s == Failure(NegativeAmount)
    ensures s.Success? ==> s.value == Range(r.from, A.add(r.to, amount))
    ensures !A.isNegative(amount) ==> (s.Success? <==> !Lt(A.cmp, A.add(r.to, amount), r.from))
  {
    if A.isNegative(amount) then Failure(NegativeAmount)
    else SetTo(A.cmp, r, A.add(r.to, amount))
  }

  /** `extend(amount)`: `extendMinimum(amount).extendMaximum(amount)`, after its own check of the amount. */
  function Extend<T>(A: Arith<T>, r: Range<T>, amount: T): (s: Result<Range<T>>)
    requires !A.isNegative(amount) ==> A.subtract.requires(r.from, amount) && A.add.requires(r.to, amount)
    ensures A.isNegative(amount) ==> s == Failure(NegativeAmount)
    ensures s.Success? ==> s.value == Range(A.subtract(r.from, amount), A.add(r.to, amount))
  {
    if A.isNegative(amount) then Failure(NegativeAmount)
    else
      match ExtendMinimum(A, r, amount)
      case Failure(e) => Failure(e)
      case Success(r1) => ExtendMaximum(A, r1, amount)
  }

  /** Where `trim(amount)` computes only defined values: the new ends and, when they cross, the midpoint. */
  ghost predicate TrimDefined<T>(A: Arith<T>, r: Range<T>, amount: T)
  {
    !A.isNegative(amount) ==>
      && A.add.requires(r.from, amount)
      && A.subtract.requires(r.to, amount)
      && (A.cmp(A.add(r.from, amount), A.subtract(r.to, amount)) > 0 ==>
            && A.subtract.requires(r.to, r.from)
            && A.half.requires(A.subtract(r.to, r.from))
            && A.add.requires(r.from, A.half(A.subtract(r.to, r.from))))
  }

  /** The value both ends collapse to when `trim` would make them cross: `add(from, half(subtract(to, from)))`. */
  function Midpoint<T>(A: Arith<T>, r: Range<T>): (m: T)
    requires A.subtract.requires(r.to, r.from)
    requires A.half.requires(A.subtract(r.to, r.from))
    requires A.add.requires(r.from, A.half(A.subtract(r.to, r.from)))
  {
    A.add(r.from, A.half(A.subtract(r.to, r.from)))
  }

  /**
   * `trim(amount)`: the minimum moves up and the maximum down by `amount`;
   * when they would cross, both become the midpoint.
   */
  function Trim<T>(A: Arith<T>, r: Range<T>, amount: T): (s: Result<Range<T>>)
    requires TrimDefined(A, r, amount)
    ensures A.isNegative(amount) ==> s == Failure(NegativeAmount)
    ensures s.Success? && A.cmp(A.add(r.from, amount), A.subtract(r.to, amount)) <= 0 ==>
      s.value == Range(A.add(r.from, amount), A.subtract(r.to, amount))
    ensures s.Success? && !A.isNegative(amount) && A.cmp(A.add(r.from, amount), A.subtract(r.to, amount)) > 0 ==>
      s.value == Range(Midpoint(A, r), Midpoint(A, r))
  {
    if A.isNegative(amount) then Failure(NegativeAmount)
    else
      var min := A.add(r.from, amount);
      var max := A.subtract(r.to, amount);
      if A.cmp(min, max) > 0 then
        var mid := Midpoint(A, r);
        Make(A.cmp, mid, mid)
      else
        Make(A.cmp, min, max)
  }

  /** `trimMaximum(amount)`: the maximum moves down by `amount`, but not below the minimum. */
  function TrimMaximum<T>(A: Arith<T>, r: Range<T>, amount: T): (s: Result<Range<T>>)
    requires !A.isNegative(amount) ==> A.subtract.requires(r.to, amount)
    ensures A.isNegative(amount) ==> s == Failure(NegativeAmount)
    ensures s.Success? ==> s.value.from == r.from
    ensures s.Success? ==> s.value.to == A.subtract(r.to, amount) || s.value.to == r.from
  {
    if A.isNegative(amount) then Failure(NegativeAmount)
    else
      var newTo := A.subtract(r.to, amount);
      SetTo(A.cmp, r, if A.cmp(newTo, r.from) < 0 then r.from else newTo)
  }

  /** `trimMinimum(amount)`: the minimum moves up by `amount`, but not above the maximum. */
  function TrimMinimum<T>(A: Arith<T>, r: Range<T>, amount: T): (s: Result<Range<T>>)
    requires !A.isNegative(amount) ==> A.add.requires(r.from, amount)
    ensures A.isNegative(amount) ==> s == Failure(NegativeAmount)
    ensures s.Success? ==> s.value.to == r.to
    ensures s.Success? ==> s.value.from == A.add(r.from, amount) || s.value.from == r.to
  {
    if A.isNegative(amount) then Failure(NegativeAmount)
    else
      var newFrom := A.add(r.from, amount);
      SetFrom(A.cmp, r, if A.cmp(newFrom, r.to) > 0 then r.to else newFrom)
  }

  // ---------------------------------------------------------------------
  // Properties, under the `compareTo` laws

  /** The three trims never fail on a valid range and a non-negative amount: they clamp instead. */
  lemma TrimsNeverFail<T(!new)>(A: Arith<T>, r: Range<T>, amount: T)
    requires IsTotalOrder(A.cmp) && IsValid(A.cmp, r) && !A.isNegative(amount)
    requires TrimDefined(A, r, amount)
    ensures Trim(A, r, amount).Success?
    ensures TrimMinimum(A, r, amount).Success? && TrimMaximum(A, r, amount).Success?
  {
  }

  /** While the moved ends do not cross, `trim` is the constructor applied to them. */
  lemma TrimInside<T>(A: Arith<T>, r: Range<T>, amount: T)
    requires !A.isNegative(amount) && A.add.requires(r.from, amount) && A.subtract.requires(r.to, amount)
    requires A.cmp(A.add(r.from, amount), A.subtract(r.to, amount)) <= 0
    ensures TrimDefined(A, r, amount)
    ensures Trim(A, r, amount) == Make(A.cmp, A.add(r.from, amount), A.subtract(r.to, amount))
  {
  }

  /** When the moved ends cross, `trim` is the one-point range at the midpoint. */
  lemma TrimAcross<T>(A: Arith<T>, r: Range<T>, amount: T)
    requires !A.isNegative(amount) && A.add.requires(r.from, amount) && A.subtract.requires(r.to, amount)
    requires A.cmp(A.add(r.from, amount), A.subtract(r.to, amount)) > 0
    requires A.subtract.requires(r.to, r.from) && A.half.requires(A.subtract(r.to, r.from))
    requires A.add.requires(r.from, A.half(A.subtract(r.to, r.from)))
    ensures TrimDefined(A, r, amount)
    ensures Trim(A, r, amount) == Make(A.cmp, Midpoint(A, r), Midpoint(A, r))
  {
  }

  /** `trimMinimum` clamps onto the maximum exactly when the moved minimum passes it, giving `setFrom(to)`. */
  lemma TrimMinimumClamps<T(!new)>(A: Arith<T>, r: Range<T>, amount: T)
    requires IsTotalOrder(A.cmp) && IsValid(A.cmp, r) && !A.isNegative(amount)
    requires A.add.requires(r.from, amount)
    ensures Lt(A.cmp, r.to, A.add(r.from, amount)) ==> TrimMinimum(A, r, amount) == SetFrom(A.cmp, r, r.to)
    ensures !Lt(A.cmp, r.to, A.add(r.from, amount)) ==> TrimMinimum(A, r, amount) == Success(Range(A.add(r.from, amount), r.to))
  {
  }

  /** `trimMaximum` clamps onto the minimum exactly when the moved maximum passes it, giving `setTo(from)`. */
  lemma TrimMaximumClamps<T(!new)>(A: Arith<T>, r: Range<T>, amount: T)
    requires IsTotalOrder(A.cmp) && IsValid(A.cmp, r) && !A.isNegative(amount)
    requires A.subtract.requires(r.to, amount)
    ensures Lt(A.cmp, A.subtract(r.to, amount), r.from) ==> TrimMaximum(A, r, amount) == SetTo(A.cmp, r, r.from)
    ensures !Lt(A.cmp, A.subtract(r.to, amount), r.from) ==> TrimMaximum(A, r, amount) == Success(Range(r.from, A.subtract(r.to, amount)))
  {
  }
}
