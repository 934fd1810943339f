# Kotlin/Native integral ranges, clamps and progression factories in Dafny

This project models the integral part of the Kotlin/Native standard library
file `runtime/src/main/kotlin/kotlin/ranges/Ranges.kt`:

- the closed ranges `CharRange`, `IntRange` and `LongRange`: membership
  (`contains`), emptiness (`isEmpty`), equality that puts every empty range
  of a class in one equivalence class, the hash code that agrees with it, and
  the `EMPTY` constants;
- the clamps `coerceAtLeast`, `coerceAtMost` and `coerceIn`, in their
  two-bound, nullable-bound and `ClosedRange` forms;
- the progression factories `reversed`, infix `step` and the `downTo`
  overloads, with `checkStepIsPositive`.

Everything in the file is pure, so the model is datatypes, functions and
lemmas in five modules:

- `Primitives` (`primitives.dfy`): Kotlin's Byte, Short, Int, Long and Char
  as bounded integers (a Char is an unsigned 16-bit code unit, 0..65535),
  `toInt()` as 32-bit two's complement truncation, the 64-bit pattern of a
  Long as a `bv64`, and `Result`, which stands for a value or a thrown
  IllegalArgumentException (the message text is not modelled).
- `Progressions` (`progressions.dfy`): `CharProgression`, `IntProgression`
  and `LongProgression` as one datatype with a `Kind`, and
  `fromClosedRange`. The progression classes and `fromClosedRange` are not
  defined in Ranges.kt; they are defined here by the contract
  Ranges.kt relies on: the first element and the step are kept, and `last`
  is the final value actually reached from `first` towards the requested
  bound (the requested bound itself when no value is reached). `Walk` gives
  the elements a progression iterates.
- `Ranges` (`ranges.dfy`): the three range classes as one `Range` datatype
  with a `Kind`; `Equals` compares kinds first, which is the `other is
  IntRange` test of the source.
- `Coercions` (`coercions.dfy`): the clamps. The Byte, Short, Int, Long and
  generic `Comparable` overloads have identical bodies and are modelled once
  over `int`; each result is one of the arguments, so it stays in the
  caller's type. A `null` bound is `Unbounded`.
- `Factories` (`factories.dfy`): `reversed`, `step` and `downTo`.

Choices that follow the code where it differs from its documentation:

- `reversed()` negates the step in Int arithmetic. For a progression whose
  step is Int.MIN_VALUE, provided the progression constructor accepts that
  step, the negation overflows back to Int.MIN_VALUE and the reversed
  progression keeps its direction (`ReversedAtMinStep`); everywhere else
  reversing swaps first and last, negates the step and is its own inverse.
- The `downTo` documentation says the argument "has to be less than" the
  receiver, but no overload checks this: a reversed pair gives an empty
  progression, not a failure.
- Ranges.kt declares `downTo` for every pair of Byte, Short, Int and Long
  except a Short receiver with a Long argument; `DownTo` requires
  `HasDownToOverload`, which excludes that one pair.

## Model

| member | source | states |
|---|---|---|
| `Ranges.Range.Start` | runtime/src/main/kotlin/kotlin/ranges/Ranges.kt:49 | `start` is `first`, the least value the range contains, and is contained when the range is not empty |
| `Ranges.Range.EndInclusive` | runtime/src/main/kotlin/kotlin/ranges/Ranges.kt:50 | `endInclusive` is `last`, the greatest value the range contains, and is contained when the range is not empty |
| `Ranges.Range.Contains` | runtime/src/main/kotlin/kotlin/ranges/Ranges.kt:52 | a value is contained exactly when first <= value <= last; only a non-empty range contains anything, and it contains both bounds |
| `Ranges.Range.IsEmpty` | runtime/src/main/kotlin/kotlin/ranges/Ranges.kt:54 | an empty range (first > last) contains no value; a non-empty one contains its first and last |
| `Ranges.Range.Equals` | runtime/src/main/kotlin/kotlin/ranges/Ranges.kt:56-58 | equal ranges are of the same class, have equal hash codes, are both empty or both not, and non-empty equal ranges have the same bounds |
| `Ranges.Range.HashCode` | runtime/src/main/kotlin/kotlin/ranges/Ranges.kt:60-61 | the hash is an Int, -1 for every empty range, and for Char and Int ranges congruent to 31 * first + last modulo 2^32 |
| `Ranges.LongHash` | runtime/src/main/kotlin/kotlin/ranges/Ranges.kt:86-87 | the Long fold `31 * (first xor (first ushr 32)) + (last xor (last ushr 32))` in wrapping 64-bit arithmetic, truncated by `toInt()`, is an Int |
| `Ranges.Range.AsProgression` | runtime/src/main/kotlin/kotlin/ranges/Ranges.kt:48 | a range is the step-1 progression `fromClosedRange(start, endInclusive, 1)` builds |
| `Ranges.Empty` | runtime/src/main/kotlin/kotlin/ranges/Ranges.kt:65-68 | the `EMPTY` constant (1, 0) of each class belongs to that class and is a valid, empty range that contains no value |
| `Ranges.EmptyIffContainsNothing` | runtime/src/main/kotlin/kotlin/ranges/Ranges.kt:52-54 | a range is empty exactly when no value of its element type lies between first and last |
| `Ranges.EqualsIsEquivalence` | runtime/src/main/kotlin/kotlin/ranges/Ranges.kt:56-58 | range equality is reflexive, symmetric and transitive |
| `Ranges.EqualsIffSameMembers` | runtime/src/main/kotlin/kotlin/ranges/Ranges.kt:52-58 | two ranges are equal exactly when they are of the same class and contain the same values |
| `Ranges.EmptyRangesCollapse` | runtime/src/main/kotlin/kotlin/ranges/Ranges.kt:56-61 | all empty ranges of a class are equal to each other and to `EMPTY`, and all hash to -1 |
| `Ranges.CharHashIsExact` | runtime/src/main/kotlin/kotlin/ranges/Ranges.kt:34-35 | a non-empty CharRange's hash never wraps: it is exactly 31 * first + last |
| `Ranges.ContainsIffProgressionElement` | runtime/src/main/kotlin/kotlin/ranges/Ranges.kt:48-54 | a range contains a value exactly when its step-1 progression yields it, and is empty exactly when that progression is |
| `Ranges.RangeElements` | runtime/src/main/kotlin/kotlin/ranges/Ranges.kt:48-50 | a non-empty range yields first, first + 1, ..., last: last - first + 1 elements |
| `Progressions.FromClosedRange` | runtime/src/main/kotlin/kotlin/ranges/Ranges.kt:353-360 | the progression keeps kind, first and step; it is empty exactly when the bound lies behind the start (and then last is the bound); otherwise last lies within the bound, less than one step from it, a whole number of steps from first |
| `Progressions.FromClosedRangeElements` | runtime/src/main/kotlin/kotlin/ranges/Ranges.kt:358-377 | the progression yields exactly the values reached from the start by whole steps without passing the requested bound |
| `Coercions.CoerceAtLeast` | runtime/src/main/kotlin/kotlin/ranges/Ranges.kt:103-141 | the result is the larger of the value and the minimum: at least both, and one of them |
| `Coercions.CoerceAtMost` | runtime/src/main/kotlin/kotlin/ranges/Ranges.kt:166-204 | the result is the smaller of the value and the maximum: at most both, and one of them |
| `Coercions.CoerceIn` | runtime/src/main/kotlin/kotlin/ranges/Ranges.kt:247-288 | fails exactly when minimum > maximum; otherwise the result lies in [minimum, maximum], is the value itself when that lies there, and is always the value or a bound |
| `Coercions.CoerceInNullable` | runtime/src/main/kotlin/kotlin/ranges/Ranges.kt:229-240 | fails exactly when both bounds are present and minimum > maximum; every present bound is respected by the result |
| `Coercions.CoerceInRange` | runtime/src/main/kotlin/kotlin/ranges/Ranges.kt:319-342 | fails exactly when the range is empty; otherwise the result is in the range, and is the value itself when the range contains it |
| `Coercions.CoerceInIsNearest` | runtime/src/main/kotlin/kotlin/ranges/Ranges.kt:266-276 | for lo <= hi, coerceIn returns the one point of [lo, hi] nearest to the value |
| `Coercions.CoerceIdempotent` | runtime/src/main/kotlin/kotlin/ranges/Ranges.kt:130-132 | applying coerceAtLeast, coerceAtMost or (for lo <= hi) coerceIn twice gives the result of applying it once |
| `Coercions.CoerceInComposesClamps` | runtime/src/main/kotlin/kotlin/ranges/Ranges.kt:271-276 | for lo <= hi, coerceIn(lo, hi) equals coerceAtLeast(lo) then coerceAtMost(hi); coerceAtLeast(m) then coerceAtMost(m) always gives m |
| `Coercions.NullableAgreesWithOverloads` | runtime/src/main/kotlin/kotlin/ranges/Ranges.kt:229-240 | with both bounds the nullable form is two-bound coerceIn; with one bound it is coerceAtLeast or coerceAtMost and never fails; with none it returns the value |
| `Coercions.RangeAgreesWithBounds` | runtime/src/main/kotlin/kotlin/ranges/Ranges.kt:329-332 | coerceIn(range) equals coerceIn(range.start, range.endInclusive), failures included |
| `Factories.CheckStepIsPositive` | runtime/src/main/kotlin/kotlin/ranges/Ranges.kt:345-347 | succeeds exactly when the step was positive, and otherwise fails with the step error |
| `Factories.Reversed` | runtime/src/main/kotlin/kotlin/ranges/Ranges.kt:353 | the reversed progression is a valid, normalised IntProgression starting at the old last, with step -step in wrapping Int arithmetic; it is empty exactly when the old first lies behind the old last in the new direction (and then ends at the old first), and otherwise its last is the final value reached towards the old first, for every step including Int.MIN_VALUE |
| `Factories.Step` | runtime/src/main/kotlin/kotlin/ranges/Ranges.kt:358-377 | fails exactly when the new step is not positive; otherwise it is `fromClosedRange(first, last, ±n)`: it keeps kind, first and direction, has step size n, is normalised, walks the original first..last, and its last is the final value reached without passing the original last (the original last when empty); e.g. `(1..10) step 4` ends at 9 |
| `Factories.DownTo` | runtime/src/main/kotlin/kotlin/ranges/Ranges.kt:384-495 | a Long progression when either operand is Long and an Int progression otherwise, from the receiver to `to` with step -1; empty exactly when `to` is above the receiver, never a failure |
| `Factories.CharDownTo` | runtime/src/main/kotlin/kotlin/ranges/Ranges.kt:414 | a CharProgression from the receiver to `to` with step -1, empty exactly when `to` is above the receiver |
| `Factories.ReversedReversesElements` | runtime/src/main/kotlin/kotlin/ranges/Ranges.kt:350-353 | for a step other than Int.MIN_VALUE, reversing swaps first and last, negates the step, yields the same elements in reverse order, and reversing twice is the identity |
| `Factories.ReversedAtMinStep` | runtime/src/main/kotlin/kotlin/ranges/Ranges.kt:353 | with step Int.MIN_VALUE the reversed progression keeps step Int.MIN_VALUE, so its direction does not flip |
| `Factories.StepWalksSameRange` | runtime/src/main/kotlin/kotlin/ranges/Ranges.kt:355-361 | a progression after `step(n)` yields exactly the values between its first and last that are a multiple of n away from first |
| `Factories.DownToElements` | runtime/src/main/kotlin/kotlin/ranges/Ranges.kt:379-384 | `a downTo b` yields a, a - 1, ..., b: a - b + 1 elements, or none when b > a |
| `Factories.DownToExamples` | runtime/src/main/kotlin/kotlin/ranges/Ranges.kt:358-421 | `(5 downTo 1) step 2` yields 5, 3, 1; `1 downTo 5` yields nothing; `(1..10) step 0` fails |

## Left out

- The Float and Double overloads of the clamps, `ClosedFloatingPointRange`,
  `ClosedDoubleRange`, `ClosedFloatRange` and `Float/Double.rangeTo`:
  IEEE-754 floating point with NaN is outside this model.
- `Ranges.Range.Equals`: `equals(other: Any?)` is modelled only against
  another range; in Kotlin a null or non-range `other` simply gives false.
- `ComparableRange` equality and hash and the generic `rangeTo`: they call
  arbitrary `equals`/`hashCode` implementations of the element type.
- `toString` and the exception message texts: a failure is a `Result` with a
  reason, not a message.
- The progression classes (`IntProgression`, `LongProgression`,
  `CharProgression`), their iterators and `getProgressionLastElement` are not
  defined in Ranges.kt. `FromClosedRange` is defined from the contract
  above; its exception for a zero step is not modelled, because no caller in
  Ranges.kt can pass a zero step (`FromClosedRange` requires a non-zero step).
  The iterator is modelled by `Walk` rather than by its own state machine.
- `Ranges.LongHash`: only proved to be an Int and to agree with range
  equality; its relation to the Int hash of the same bounds is not proved,
  because the solver cannot reason cheaply about conversions between `bv64`
  and integers.
- `Factories.Reversed`: only `IntProgression.reversed()` is in the file; the
  Long and Char versions live elsewhere and are not modelled.
- The generic `Comparable<T>` overloads are modelled over `int` (a total
  order), not over an arbitrary `compareTo`.
