/** CharRange, IntRange and LongRange: closed ranges with step 1, their
    membership test, emptiness, equality (all empty ranges of one class are
    equal) and the hash code that agrees with that equality. */
module Ranges {
  import opened Primitives
  import opened Progressions

  /** A CharRange, IntRange or LongRange, told apart by `kind`. The range
      classes extend the step-1 progression of their kind, so `start` and
      `endInclusive` are the progression's `first` and `last`. */
  datatype Range = Range(kind: Kind, first: int, last: int) {

    /** The bounds are values of the range's element type. */
    predicate Valid() {
      InDomain(kind, first) && InDomain(kind, last)
    }

    /** `start`: the progression's `first`, the least value the range contains. */
    function Start(): (s: int)
      ensures s == first
      ensures !IsEmpty() ==> Contains(s)
      ensures forall v :: Contains(v) ==> s <= v
    {
      first
    }

    /** `endInclusive`: the progression's `last`, the greatest value the range contains. */
    function EndInclusive(): (e: int)
      ensures e == last
      ensures !IsEmpty() ==> Contains(e)
      ensures forall v :: Contains(v) ==> v <= e
    {
      last
    }

    /** `contains(value)`: a contained value lies between the bounds, so an
        empty range contains nothing, and a non-empty one contains both. */
    function Contains(value: int): (c: bool)
      ensures c <==> first <= value <= last
      ensures c ==> first <= last
      ensures first <= last && (value == first || value == last) ==> c
    {
      first <= value && value <= last
    }

    /** `isEmpty()`: a range is empty exactly when it contains no value. */
    function IsEmpty(): (e: bool)
      ensures e ==> forall v :: !Contains(v)
      ensures !e ==> Contains(first) && Contains(last)
    {
      first > last
    }

    /** `equals(other)`: `other` is a range of the same class, and either both
        are empty or their bounds coincide. Equal ranges hash alike. */
    function Equals(other: Range): (eq: bool)
      requires Valid() && other.Valid()
      ensures eq ==> kind == other.kind
      ensures eq ==> HashCode() == other.HashCode()
      ensures eq ==> (IsEmpty() <==> other.IsEmpty())
      ensures eq && !IsEmpty() ==> first == other.first && last == other.last
    {
      kind == other.kind && ((IsEmpty() && other.IsEmpty()) || (first == other.first && last == other.last))
    }

    /** `hashCode()`: -1 for every empty range, otherwise 31 * first + last
        in Int arithmetic, with a Long bound first folded to 32 bits. */
    function HashCode(): (h: int)
      requires Valid()
      ensures IsInt(h)
      ensures IsEmpty() ==> h == -1
      ensures !IsEmpty() && kind != LongKind ==> (h - (31 * first + last)) % TWO_TO_32 == 0
    {
      if IsEmpty() then -1
      else match kind
        case CharKind => ToInt(31 * first + last)
        case IntKind => ToInt(31 * first + last)
        case LongKind => LongHash(first, last)
    }

    /** The step-1 progression the range class extends. */
    function AsProgression(): (p: Progression)
      requires Valid()
      ensures p == FromClosedRange(kind, first, last, 1)
    {
      Progression(kind, first, last, 1)
    }
  }

  /** LongRange's hash: `(31 * (first xor (first ushr 32)) + (last xor (last ushr 32))).toInt()`,
      computed in wrapping 64-bit arithmetic. */
  function LongHash(first: int, last: int): (h: int)
    requires IsLong(first) && IsLong(last)
    ensures IsInt(h)
  {
    ToInt((31 * LongFold(first) + LongFold(last)) as int)
  }

  /** `x xor (x ushr 32)` on the 64-bit pattern of a Long. */
  function LongFold(x: int): bv64
    requires IsLong(x)
  {
    LongBits(x) ^ (LongBits(x) >> 32)
  }

  /** The `EMPTY` companion constant of each range class: bounds (1, 0). */
  function Empty(kind: Kind): (r: Range)
    ensures r.kind == kind
    ensures r.Valid() && r.IsEmpty()
    ensures forall v :: !r.Contains(v)
  {
    Range(kind, 1, 0)
  }

  /** A range contains a value exactly when it lies between the bounds, and
      is empty exactly when it contains no value of its element type. */
  lemma EmptyIffContainsNothing(r: Range)
    requires r.Valid()
    ensures r.IsEmpty() <==> forall v :: InDomain(r.kind, v) ==> !r.Contains(v)
  {
    if !r.IsEmpty() {
      assert InDomain(r.kind, r.first) && r.Contains(r.first);
    }
  }

  /** Equality is an equivalence relation on ranges. */
  lemma EqualsIsEquivalence(a: Range, b: Range, c: Range)
    requires a.Valid() && b.Valid() && c.Valid()
    ensures a.Equals(a)
    ensures a.Equals(b) ==> b.Equals(a)
    ensures a.Equals(b) && b.Equals(c) ==> a.Equals(c)
  {
  }

  /** Two ranges are equal exactly when they are of one class and contain
      the same values of their element type: equality ignores the stored
      bounds of an empty range and nothing else. */
  lemma EqualsIffSameMembers(a: Range, b: Range)
    requires a.Valid() && b.Valid()
    ensures a.Equals(b) <==> a.kind == b.kind && forall v :: InDomain(a.kind, v) ==> (a.Contains(v) <==> b.Contains(v))
  {
    if !a.Equals(b) && a.kind == b.kind {
      if !a.IsEmpty() && (b.IsEmpty() || a.first < b.first || a.last > b.last) {
        var w := if b.IsEmpty() || a.first < b.first then a.first else a.last;
        assert InDomain(a.kind, w) && a.Contains(w) && !b.Contains(w);
      } else {
        var w := if a.IsEmpty() || b.first < a.first then b.first else b.last;
        assert InDomain(a.kind, w) && b.Contains(w) && !a.Contains(w);
      }
    }
  }

  /** All empty ranges of one class are equal and hash to -1, whatever their
      stored bounds; for example IntRange(5, 1) == IntRange.EMPTY. */
  lemma EmptyRangesCollapse(a: Range, b: Range)
    requires a.Valid() && b.Valid() && a.kind == b.kind && a.IsEmpty() && b.IsEmpty()
    ensures a.Equals(b) && a.Equals(Empty(a.kind))
    ensures a.HashCode() == b.HashCode() == -1
  {
  }

  /** A CharRange's hash never wraps: it is exactly 31 * first + last. */
  lemma CharHashIsExact(r: Range)
    requires r.Valid() && r.kind == CharKind && !r.IsEmpty()
    ensures r.HashCode() == 31 * r.first + r.last
    ensures 0 <= r.HashCode() <= 32 * CHAR_MAX
  {
  }

  /** A range contains exactly the elements of the step-1 progression it
      extends, and is empty exactly when that progression is. */
  lemma ContainsIffProgressionElement(r: Range, v: int)
    requires r.Valid()
    ensures r.Contains(v) <==> v in r.AsProgression().Elements()
    ensures r.IsEmpty() <==> r.AsProgression().IsEmpty()
  {
    WalkMembership(r.first, r.last, 1, v);
  }

  /** Walking a non-empty range yields first, first + 1, ..., last. */
  lemma RangeElements(r: Range)
    requires r.Valid() && !r.IsEmpty()
    ensures |r.AsProgression().Elements()| == r.last - r.first + 1
    ensures forall i :: 0 <= i < |r.AsProgression().Elements()| ==> r.AsProgression().Elements()[i] == r.first + i
  {
    WalkLength(r.first, r.last, 1);
    WalkIndex(r.first, r.last, 1);
  }
}
