/** The clamping functions `coerceAtLeast`, `coerceAtMost` and `coerceIn`.
    The Byte, Short, Int and Long overloads and the generic `Comparable`
    overloads share one body each; they are modelled once over `int`. Every
    result is one of the arguments, so it stays in the caller's type. */
module Coercions {
  import opened Primitives
  import opened Progressions
  import opened Ranges

  /** Absent Kotlin `null` bound, or a present one. */
  datatype Bound = Unbounded | Bounded(value: int)

  /** `x.coerceAtLeast(minimumValue)`: the larger of the two. Never fails. */
  function CoerceAtLeast(x: int, minimumValue: int): (r: int)
    ensures r >= minimumValue && r >= x
    ensures r == x || r == minimumValue
  {
    if x < minimumValue then minimumValue else x
  }

  /** `x.coerceAtMost(maximumValue)`: the smaller of the two. Never fails. */
  function CoerceAtMost(x: int, maximumValue: int): (r: int)
    ensures r <= maximumValue && r <= x
    ensures r == x || r == maximumValue
  {
    if x > maximumValue then maximumValue else x
  }

  /** `x.coerceIn(minimumValue, maximumValue)`: fails exactly when the bounds
      form an empty range; otherwise the value of [minimumValue, maximumValue]
      nearest to x, which is x itself when x already lies there. */
  function CoerceIn(x: int, minimumValue: int, maximumValue: int): (r: Result<int>)
    ensures r.IllegalArgument? <==> minimumValue > maximumValue
    ensures r.IllegalArgument? ==> r.reason == EmptyCoercionRange
    ensures r.Ok? ==> minimumValue <= r.value <= maximumValue
    ensures r.Ok? && minimumValue <= x <= maximumValue ==> r.value == x
    ensures r.Ok? ==> r.value == x || r.value == minimumValue || r.value == maximumValue
  {
    if minimumValue > maximumValue then IllegalArgument(EmptyCoercionRange)
    else if x < minimumValue then Ok(minimumValue)
    else if x > maximumValue then Ok(maximumValue)
    else Ok(x)
  }

  /** The generic `x.coerceIn(minimumValue?, maximumValue?)`: an absent bound
      does not constrain, and the bounds are checked against each other only
      when both are present. */
  function CoerceInNullable(x: int, minimumValue: Bound, maximumValue: Bound): (r: Result<int>)
    ensures r.IllegalArgument? <==> minimumValue.Bounded? && maximumValue.Bounded? && minimumValue.value > maximumValue.value
    ensures r.Ok? && minimumValue.Bounded? ==> r.value >= minimumValue.value
    ensures r.Ok? && maximumValue.Bounded? ==> r.value <= maximumValue.value
  {
    if minimumValue.Bounded? && maximumValue.Bounded? then
      if minimumValue.value > maximumValue.value then IllegalArgument(EmptyCoercionRange)
      else if x < minimumValue.value then Ok(minimumValue.value)
      else if x > maximumValue.value then Ok(maximumValue.value)
      else Ok(x)
    else if minimumValue.Bounded? && x < minimumValue.value then Ok(minimumValue.value)
    else if maximumValue.Bounded? && x > maximumValue.value then Ok(maximumValue.value)
    else Ok(x)
  }

  /** `x.coerceIn(range)` for an IntRange, LongRange or CharRange: fails
      exactly when the range is empty; otherwise the range's start when x lies
      below it, its endInclusive when x lies above it, and x otherwise. */
  function CoerceInRange(x: int, range: Range): (r: Result<int>)
    ensures r.IllegalArgument? <==> range.IsEmpty()
    ensures r.IllegalArgument? ==> r.reason == EmptyCoercionRange
    ensures r.Ok? ==> range.Contains(r.value)
    ensures r.Ok? && range.Contains(x) ==> r.value == x
  {
    if range.IsEmpty() then IllegalArgument(EmptyCoercionRange)
    else if x < range.Start() then Ok(range.Start())
    else if x > range.EndInclusive() then Ok(range.EndInclusive())
    else Ok(x)
  }

  function Distance(a: int, b: int): nat {
    if a < b then b - a else a - b
  }

  /** coerceIn picks the point of [lo, hi] closest to x, and no other. */
  lemma CoerceInIsNearest(x: int, lo: int, hi: int)
    requires lo <= hi
    ensures CoerceIn(x, lo, hi).Ok?
    ensures forall y :: lo <= y <= hi ==> Distance(CoerceIn(x, lo, hi).value, x) <= Distance(y, x)
    ensures forall y :: lo <= y <= hi && Distance(y, x) == Distance(CoerceIn(x, lo, hi).value, x) ==> y == CoerceIn(x, lo, hi).value
  {
  }

  /** Clamping twice is clamping once, for all three clamps. */
  lemma CoerceIdempotent(x: int, lo: int, hi: int)
    ensures CoerceAtLeast(CoerceAtLeast(x, lo), lo) == CoerceAtLeast(x, lo)
    ensures CoerceAtMost(CoerceAtMost(x, hi), hi) == CoerceAtMost(x, hi)
    ensures lo <= hi ==> CoerceIn(CoerceIn(x, lo, hi).value, lo, hi) == CoerceIn(x, lo, hi)
  {
  }

  /** Two-bound coerceIn is coerceAtLeast followed by coerceAtMost; raising a
      value to m and then capping it at m always gives m. */
  lemma CoerceInComposesClamps(x: int, lo: int, hi: int)
    ensures lo <= hi ==> CoerceIn(x, lo, hi) == Ok(CoerceAtMost(CoerceAtLeast(x, lo), hi))
    ensures CoerceAtMost(CoerceAtLeast(x, lo), lo) == lo
  {
  }

  /** The nullable-bounds overload agrees with the two-bound overload when
      both bounds are present, applies just the present bound otherwise, and
      so never fails when a bound is missing, even for reversed bounds. */
  lemma NullableAgreesWithOverloads(x: int, lo: int, hi: int)
    ensures CoerceInNullable(x, Bounded(lo), Bounded(hi)) == CoerceIn(x, lo, hi)
    ensures CoerceInNullable(x, Bounded(lo), Unbounded) == Ok(CoerceAtLeast(x, lo))
    ensures CoerceInNullable(x, Unbounded, Bounded(hi)) == Ok(CoerceAtMost(x, hi))
    ensures CoerceInNullable(x, Unbounded, Unbounded) == Ok(x)
  {
  }

  /** Coercing into a range is coercing between its start and endInclusive. */
  lemma RangeAgreesWithBounds(x: int, range: Range)
    ensures CoerceInRange(x, range) == CoerceIn(x, range.Start(), range.EndInclusive())
  {
  }
}
