/** The progression factories of Ranges.kt: `reversed`, infix `step` and the
    `downTo` overloads, all of which build their result with
    `XProgression.fromClosedRange`. */
module Factories {
  import opened Primitives
  import opened Progressions

  /** `checkStepIsPositive(isPositive, step)`: throws unless the step was positive. */
  function CheckStepIsPositive(isPositive: bool): (r: Result<()>)
    ensures r.Ok? <==> isPositive
    ensures r.IllegalArgument? ==> r.reason == NonPositiveStep
  {
    if !isPositive then IllegalArgument(NonPositiveStep) else Ok(())
  }

  /** `IntProgression.reversed()`: `fromClosedRange(last, first, -step)`, with
      the negation in wrapping Int arithmetic. */
  function Reversed(p: Progression): (r: Progression)
    requires p.Valid() && p.kind == IntKind
    ensures r.Valid() && r.kind == IntKind && r.first == p.last
    ensures r.step == ToInt(-p.step)
    ensures r.Normalized()
    ensures r.IsEmpty() <==> (if r.step > 0 then p.last > p.first else p.last < p.first)
    ensures r.IsEmpty() ==> r.last == p.first
    ensures r.step > 0 && !r.IsEmpty() ==> p.last <= r.last <= p.first < r.last + r.step
    ensures r.step < 0 && !r.IsEmpty() ==> r.last + r.step < p.first <= r.last <= p.last
  {
    FromClosedRange(IntKind, p.last, p.first, ToInt(-p.step))
  }

  /** `IntProgression.step(n)`, `LongProgression.step(n)` and
      `CharProgression.step(n)`: the same closed range walked with step size
      n in the original direction; fails unless n is positive. */
  function Step(p: Progression, step: int): (r: Result<Progression>)
    requires p.Valid() && InStepDomain(p.kind, step)
    ensures r.IllegalArgument? <==> step <= 0
    ensures r.IllegalArgument? ==> r.reason == NonPositiveStep
    ensures r.Ok? ==> r.value.Valid() && r.value.kind == p.kind && r.value.first == p.first
    ensures r.Ok? ==> (r.value.step > 0 <==> p.step > 0)
    ensures r.Ok? ==> r.value.step == step || r.value.step == -step
    ensures r.Ok? ==> r.value.Elements() == Walk(p.first, p.last, r.value.step)
    ensures r.Ok? ==> r.value == FromClosedRange(p.kind, p.first, p.last, if p.step > 0 then step else -step)
    ensures r.Ok? ==> r.value.Normalized()
    ensures r.Ok? && r.value.IsEmpty() ==> r.value.last == p.last
    ensures r.Ok? && !r.value.IsEmpty() && p.step > 0 ==> p.first <= r.value.last <= p.last < r.value.last + step
    ensures r.Ok? && !r.value.IsEmpty() && p.step < 0 ==> r.value.last - step < p.last <= r.value.last <= p.first
  {
    var checked := CheckStepIsPositive(step > 0);
    if checked.IllegalArgument? then IllegalArgument(checked.reason)
    else
      var s := if p.step > 0 then step else -step;
      FromClosedRangeElements(p.kind, p.first, p.last, s);
      Ok(FromClosedRange(p.kind, p.first, p.last, s))
  }

  /** The Kotlin integral types a `downTo` receiver or argument may have. */
  datatype IntegralType = ByteType | ShortType | IntType | LongType

  predicate HasType(t: IntegralType, x: int) {
    match t
    case ByteType => IsByte(x)
    case ShortType => IsShort(x)
    case IntType => IsInt(x)
    case LongType => IsLong(x)
  }

  /** Ranges.kt declares `downTo` for every pair of integral types except a
      Short receiver with a Long argument. */
  predicate HasDownToOverload(receiverType: IntegralType, toType: IntegralType) {
    !(receiverType == ShortType && toType == LongType)
  }

  /** `receiver downTo to`: both operands widened to Long when either is a
      Long and to Int otherwise, then `fromClosedRange(receiver, to, -1)`.
      It never checks that `to` is below the receiver. */
  function DownTo(receiverType: IntegralType, receiver: int, toType: IntegralType, to: int): (p: Progression)
    requires HasType(receiverType, receiver) && HasType(toType, to)
    requires HasDownToOverload(receiverType, toType)
    ensures p.Valid()
    ensures p.kind == (if receiverType == LongType || toType == LongType then LongKind else IntKind)
    ensures p.first == receiver && p.last == to && p.step == -1
    ensures p.IsEmpty() <==> receiver < to
  {
    var kind := if receiverType == LongType || toType == LongType then LongKind else IntKind;
    FromClosedRange(kind, receiver, to, -1)
  }

  /** `Char.downTo(Char)`: a CharProgression from the receiver down to `to`. */
  function CharDownTo(receiver: int, to: int): (p: Progression)
    requires IsChar(receiver) && IsChar(to)
    ensures p.Valid() && p.kind == CharKind
    ensures p.first == receiver && p.last == to && p.step == -1
    ensures p.IsEmpty() <==> receiver < to
  {
    FromClosedRange(CharKind, receiver, to, -1)
  }

  /** Reversing a progression built by fromClosedRange swaps first and last
      and negates the step, and it iterates the same elements backwards;
      reversing twice gives the original back. Int.MIN_VALUE, whose negation
      wraps to itself, is the one step this does not hold for. */
  lemma ReversedReversesElements(p: Progression)
    requires p.Valid() && p.kind == IntKind && p.Normalized() && p.step != INT_MIN
    ensures Reversed(p) == Progression(IntKind, p.last, p.first, -p.step)
    ensures Reversed(p).Elements() == Reverse(p.Elements())
    ensures Reversed(Reversed(p)) == p
  {
    var r := Reversed(p);
    if p.step > 0 && p.first <= p.last {
      WalkBack(p.first, p.last, p.step);
    } else if p.step < 0 && p.first >= p.last {
      WalkBack(p.last, p.first, -p.step);
      var w := Walk(p.first, p.last, p.step);
      assert Reverse(Reverse(w)) == w;
    }
  }

  /** A progression whose step is Int.MIN_VALUE keeps its direction when
      reversed, because `-step` overflows back to Int.MIN_VALUE. */
  lemma ReversedAtMinStep(p: Progression)
    requires p.Valid() && p.kind == IntKind && p.step == INT_MIN
    ensures Reversed(p).step == INT_MIN
    ensures Reversed(p).first == p.last
  {
  }

  /** `step` keeps the progression's first element and direction and walks
      the same closed range: its elements are exactly the values reached from
      first by whole steps of the new size without passing last. */
  lemma StepWalksSameRange(p: Progression, n: int, v: int)
    requires p.Valid() && InStepDomain(p.kind, n) && n > 0
    ensures Step(p, n).Ok?
    ensures v in Step(p, n).value.Elements() <==>
      (if p.step > 0 then p.first <= v <= p.last else p.last <= v <= p.first) && (v - p.first) % n == 0
  {
    var s := Step(p, n).value.step;
    WalkMembership(p.first, p.last, s, v);
    if p.step < 0 {
      assert s == -n;
      assert (p.first - v) % n == 0 <==> (v - p.first) % n == 0 by {
        if (p.first - v) % n == 0 { ModNeg(v - p.first, n); }
        if (v - p.first) % n == 0 { ModNeg(p.first - v, n); }
      }
    }
  }

  /** `receiver downTo to` yields receiver, receiver - 1, ..., to: one element
      per value between the two, and none when `to` is above the receiver. */
  lemma DownToElements(receiverType: IntegralType, receiver: int, toType: IntegralType, to: int)
    requires HasType(receiverType, receiver) && HasType(toType, to)
    requires HasDownToOverload(receiverType, toType)
    ensures |DownTo(receiverType, receiver, toType, to).Elements()| == (if receiver < to then 0 else receiver - to + 1)
    ensures forall i :: 0 <= i < |DownTo(receiverType, receiver, toType, to).Elements()| ==>
      DownTo(receiverType, receiver, toType, to).Elements()[i] == receiver - i
  {
    DownWalkLength(receiver, to);
    WalkIndex(receiver, to, -1);
  }

  lemma {:induction false} DownWalkLength(start: int, bound: int)
    ensures |Walk(start, bound, -1)| == (if start < bound then 0 else start - bound + 1)
    decreases start - bound
  {
    if start >= bound {
      DownWalkLength(start - 1, bound);
    }
  }

  /** `(5 downTo 1) step 2` yields 5, 3, 1; `1 downTo 5` yields nothing and
      does not fail; `(1..10).step(0)` fails. */
  lemma DownToExamples()
    ensures Step(DownTo(IntType, 5, IntType, 1), 2).Ok?
    ensures Step(DownTo(IntType, 5, IntType, 1), 2).value.Elements() == [5, 3, 1]
    ensures DownTo(IntType, 1, IntType, 5).Elements() == []
    ensures Step(Progression(IntKind, 1, 10, 1), 0) == IllegalArgument(NonPositiveStep)
  {
    var p := Step(DownTo(IntType, 5, IntType, 1), 2).value;
    assert p == Progression(IntKind, 5, 1, -2);
    assert Walk(1, 1, -2) == [1] + Walk(-1, 1, -2);
    assert Walk(3, 1, -2) == [3] + Walk(1, 1, -2);
    assert Walk(5, 1, -2) == [5] + Walk(3, 1, -2);
  }
}
