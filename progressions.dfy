/** The integral progressions the range factories build: CharProgression,
    IntProgression and LongProgression, with the factory `fromClosedRange`.
    Their class bodies live outside Ranges.kt; what is modelled here is the
    contract Ranges.kt relies on: a progression keeps the requested first
    element and step, and its last element is the final value actually
    reached when stepping from first towards the requested bound. */
module Progressions {
  import opened Primitives

  /** Which of the three progression (and range) classes a value belongs to. */
  datatype Kind = CharKind | IntKind | LongKind

  /** The element type of a progression of this kind. */
  predicate InDomain(kind: Kind, x: int) {
    match kind
    case CharKind => IsChar(x)
    case IntKind => IsInt(x)
    case LongKind => IsLong(x)
  }

  /** The step type: a CharProgression steps by an Int, the others by their own type. */
  predicate InStepDomain(kind: Kind, s: int) {
    if kind == LongKind then IsLong(s) else IsInt(s)
  }

  datatype Progression = Progression(kind: Kind, first: int, last: int, step: int) {

    /** What Kotlin's types and the progression constructor guarantee. */
    predicate Valid() {
      InDomain(kind, first) && InDomain(kind, last) && InStepDomain(kind, step) && step != 0
    }

    /** A progression is empty when its first element already lies beyond last. */
    predicate IsEmpty() {
      if step > 0 then first > last else first < last
    }

    /** `last` is reached from `first` by whole steps (or the progression is empty). */
    predicate Normalized() {
      if step > 0 then first <= last ==> (last - first) % step == 0
      else step < 0 && first >= last ==> (first - last) % -step == 0
    }

    /** The elements the progression's iterator yields, in order. */
    function Elements(): seq<int>
      requires step != 0
    {
      Walk(first, last, step)
    }
  }

  /** start, start + step, start + 2 * step, ... for as long as the value has
      not passed `bound` in the direction of `step`. */
  function Walk(start: int, bound: int, step: int): (s: seq<int>)
    requires step != 0
    ensures s == [] <==> (if step > 0 then start > bound else start < bound)
    decreases if step > 0 then bound - start else start - bound
  {
    if (step > 0 && start > bound) || (step < 0 && start < bound) then []
    else [start] + Walk(start + step, bound, step)
  }

  /** `getProgressionLastElement`: the last value reached from `start` towards
      `end` by `step`; `end` itself when no value is reached. */
  function LastElement(start: int, end: int, step: int): (last: int)
    requires step != 0
    ensures step > 0 && start <= end ==> start <= last <= end < last + step && (last - start) % step == 0
    ensures step < 0 && start >= end ==> last + step < end <= last <= start && (start - last) % -step == 0
    ensures (step > 0 && start > end) || (step < 0 && start < end) ==> last == end
  {
    if step > 0 then
      if start >= end then end
      else
        RemainderFacts(end - start, step);
        end - (end - start) % step
    else
      if start <= end then end
      else
        RemainderFacts(start - end, -step);
        end + (start - end) % -step
  }

  /** `XProgression.fromClosedRange(rangeStart, rangeEnd, step)`: the
      progression from rangeStart towards rangeEnd by step. It never fails for
      a bound that lies "behind" the start: the progression is then empty. */
  function FromClosedRange(kind: Kind, rangeStart: int, rangeEnd: int, step: int): (p: Progression)
    requires InDomain(kind, rangeStart) && InDomain(kind, rangeEnd)
    requires InStepDomain(kind, step) && step != 0
    ensures p.Valid() && p.Normalized()
    ensures p.kind == kind && p.first == rangeStart && p.step == step
    ensures p.IsEmpty() <==> (if step > 0 then rangeStart > rangeEnd else rangeStart < rangeEnd)
    ensures p.IsEmpty() ==> p.last == rangeEnd
    ensures step > 0 && !p.IsEmpty() ==> rangeStart <= p.last <= rangeEnd < p.last + step
    ensures step < 0 && !p.IsEmpty() ==> p.last + step < rangeEnd <= p.last <= rangeStart
  {
    var last := LastElement(rangeStart, rangeEnd, step);
    assert InDomain(kind, last) by {
      assert rangeStart <= last <= rangeEnd || rangeEnd <= last <= rangeStart;
    }
    Progression(kind, rangeStart, last, step)
  }

  /** Whether stepping from `start` by `step` hits `v` before passing `bound`. */
  predicate Reaches(start: int, bound: int, step: int, v: int)
    requires step != 0
  {
    if step > 0 then start <= v <= bound && (v - start) % step == 0
    else bound <= v <= start && (start - v) % -step == 0
  }

  // ----- Euclidean division facts used below -----

  /** Quotient and remainder are unique. */
  lemma DivModUnique(a: int, m: int, q: int, r: int)
    requires m > 0 && 0 <= r < m && a == q * m + r
    ensures a / m == q && a % m == r
  {
    var q', r' := a / m, a % m;
    assert a == q' * m + r';
    if q' < q {
      assert (q - q') * m == r' - r;
      MulAtLeast(q - q', m);
    } else if q' > q {
      assert (q' - q) * m == r - r';
      MulAtLeast(q' - q, m);
    }
  }

  lemma {:induction false} MulAtLeast(k: int, m: int)
    requires k >= 1 && m > 0
    ensures k * m >= m
    decreases k
  {
    if k > 1 {
      MulAtLeast(k - 1, m);
      assert k * m == (k - 1) * m + m;
    }
  }

  lemma ModShift(a: int, m: int)
    requires m > 0
    ensures (a + m) % m == a % m && (a - m) % m == a % m
  {
    DivModUnique(a + m, m, a / m + 1, a % m);
    DivModUnique(a - m, m, a / m - 1, a % m);
  }

  /** A positive multiple of m is at least m. */
  lemma ModGap(d: int, m: int)
    requires m > 0 && d > 0 && d % m == 0
    ensures d >= m
  {
    if d < m {
      DivModUnique(d, m, 0, d);
    }
  }

  lemma ModNeg(d: int, m: int)
    requires m > 0 && (-d) % m == 0
    ensures d % m == 0
  {
    DivModUnique(d, m, -((-d) / m), 0);
  }

  /** The remainder of a non-negative d lies in [0, min(d, m - 1)], and
      removing it leaves a multiple of m. */
  lemma RemainderFacts(d: int, m: int)
    requires m > 0 && d >= 0
    ensures 0 <= d % m < m && d % m <= d
    ensures (d - d % m) % m == 0
  {
    DivModUnique(d - d % m, m, d / m, 0);
    if d < m {
      DivModUnique(d, m, 0, d);
    }
  }

  // ----- Properties of progressions -----

  /** A value is an element of a walk exactly when the walk reaches it. */
  lemma {:induction false} WalkMembership(start: int, bound: int, step: int, v: int)
    requires step != 0
    ensures v in Walk(start, bound, step) <==> Reaches(start, bound, step, v)
    decreases if step > 0 then bound - start else start - bound
  {
    if (step > 0 && start > bound) || (step < 0 && start < bound) {
    } else {
      WalkMembership(start + step, bound, step, v);
      assert Walk(start, bound, step) == [start] + Walk(start + step, bound, step);
      if step > 0 {
        ModShift(v - start - step, step);
        if v != start && Reaches(start, bound, step, v) {
          ModGap(v - start, step);
        }
      } else {
        ModShift(start - v + step, -step);
        if v != start && Reaches(start, bound, step, v) {
          ModGap(start - v, -step);
        }
      }
    }
  }

  /** Walking to an aligned `last` yields the same elements as walking to any
      bound that lies less than one step beyond it. */
  lemma {:induction false} WalkToLast(start: int, last: int, bound: int, step: int)
    requires step != 0
    requires step > 0 ==> (last - start) % step == 0 && last <= bound < last + step
    requires step < 0 ==> (start - last) % -step == 0 && last + step < bound <= last
    ensures Walk(start, last, step) == Walk(start, bound, step)
    decreases if step > 0 then last - start + step else start - last - step
  {
    if step > 0 {
      if start > last {
        ModNeg(start - last, step);
        ModGap(start - last, step);
      } else {
        ModShift(last - start - step, step);
        WalkToLast(start + step, last, bound, step);
      }
    } else {
      if start < last {
        ModNeg(last - start, -step);
        ModGap(last - start, -step);
      } else {
        ModShift(start - last + step, -step);
        WalkToLast(start + step, last, bound, step);
      }
    }
  }

  /** The progression `fromClosedRange` builds yields exactly the values
      reached from rangeStart before passing rangeEnd. */
  lemma FromClosedRangeElements(kind: Kind, rangeStart: int, rangeEnd: int, step: int)
    requires InDomain(kind, rangeStart) && InDomain(kind, rangeEnd)
    requires InStepDomain(kind, step) && step != 0
    ensures FromClosedRange(kind, rangeStart, rangeEnd, step).Elements() == Walk(rangeStart, rangeEnd, step)
    ensures forall v :: v in FromClosedRange(kind, rangeStart, rangeEnd, step).Elements() <==> Reaches(rangeStart, rangeEnd, step, v)
  {
    var p := FromClosedRange(kind, rangeStart, rangeEnd, step);
    if !p.IsEmpty() {
      WalkToLast(rangeStart, p.last, rangeEnd, step);
    }
    forall v ensures v in p.Elements() <==> Reaches(rangeStart, rangeEnd, step, v) {
      WalkMembership(rangeStart, rangeEnd, step, v);
    }
  }

  /** The i-th element of a walk is start + i * step. */
  lemma {:induction false} WalkIndex(start: int, bound: int, step: int)
    requires step != 0
    ensures forall i :: 0 <= i < |Walk(start, bound, step)| ==> Walk(start, bound, step)[i] == start + i * step
    decreases if step > 0 then bound - start else start - bound
  {
    var w := Walk(start, bound, step);
    if w != [] {
      WalkIndex(start + step, bound, step);
      var rest := Walk(start + step, bound, step);
      assert w == [start] + rest;
      forall i | 1 <= i < |w| ensures w[i] == start + i * step {
        assert w[i] == rest[i - 1] == start + step + (i - 1) * step;
      }
    }
  }

  /** How many elements a walk has: the number of whole steps that fit
      between start and bound, plus one for start itself. */
  lemma {:induction false} WalkLength(start: int, bound: int, step: int)
    requires step > 0
    ensures |Walk(start, bound, step)| == (if start > bound then 0 else (bound - start) / step + 1)
    decreases bound - start
  {
    if start <= bound {
      WalkLength(start + step, bound, step);
      assert Walk(start, bound, step) == [start] + Walk(start + step, bound, step);
      if start + step <= bound {
        DivModUnique(bound - start, step, (bound - start - step) / step + 1, (bound - start - step) % step);
      } else {
        DivModUnique(bound - start, step, 0, bound - start);
      }
    }
  }

  /** The reverse of a sequence. */
  function Reverse(s: seq<int>): (r: seq<int>)
    ensures |r| == |s|
  {
    seq(|s|, i requires 0 <= i < |s| => s[|s| - 1 - i])
  }

  lemma {:induction false} WalkSnoc(start: int, last: int, step: int)
    requires step > 0 && start < last && (last - start) % step == 0
    ensures Walk(start, last, step) == Walk(start, last - step, step) + [last]
    decreases last - start
  {
    ModGap(last - start, step);
    ModShift(last - start - step, step);
    if start + step == last {
      assert Walk(start + step, last, step) == [last] + Walk(last + step, last, step);
    } else {
      ModGap(last - start - step, step);
      WalkSnoc(start + step, last, step);
    }
  }

  /** Walking back from an aligned `last` to `start` visits the same values in
      the opposite order. */
  lemma {:induction false} WalkBack(start: int, last: int, step: int)
    requires step > 0 && start <= last && (last - start) % step == 0
    ensures Walk(last, start, -step) == Reverse(Walk(start, last, step))
    decreases last - start
  {
    var back := Walk(last, start, -step);
    assert back == [last] + Walk(last - step, start, -step);
    if start == last {
      assert Walk(start, last, step) == [start] + Walk(start + step, last, step);
    } else {
      ModGap(last - start, step);
      ModShift(last - start - step, step);
      WalkBack(start, last - step, step);
      WalkSnoc(start, last, step);
      var fwd := Walk(start, last - step, step);
      assert Reverse(fwd + [last]) == [last] + Reverse(fwd);
    }
  }
}
