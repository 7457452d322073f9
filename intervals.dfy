/**
 * The operand of the interval domain: a closed range [start, end] of Java ints, with
 * start <= end guaranteed by construction, and the two operators on it.
 */
module Intervals {
  import opened Wrappers
  import opened Decimal
  import Text

  datatype Bounds = Bounds(start: Int32, end: Int32)

  /** Every Interval object satisfies the invariant the constructor enforces. */
  type Interval = b: Bounds | b.start <= b.end witness Bounds(0, 0)

  /** new Interval(start, end): rejected exactly when start > end. */
  function MakeInterval(start: Int32, end: Int32): (r: Option<Interval>)
    ensures r.Some? <==> start <= end
    ensures r.Some? ==> r.value.start == start && r.value.end == end
  {
    if start > end then None else Some(Bounds(start, end))
  }

  /** What intersect returns for two intervals that share no point: [MIN_VALUE, MIN_VALUE]. */
  const NoOverlap: Interval := Bounds(-0x8000_0000, -0x8000_0000)

  function Min(a: int, b: int): int {
    if a <= b then a else b
  }

  function Max(a: int, b: int): int {
    if a <= b then b else a
  }

  /** The integer x lies in the interval. */
  predicate Contains(i: Interval, x: int) {
    i.start <= x <= i.end
  }

  /** Every point of i lies in j. */
  predicate Within(i: Interval, j: Interval) {
    j.start <= i.start && i.end <= j.end
  }

  /** The two intervals share at least one integer point. */
  ghost predicate Overlap(a: Interval, b: Interval) {
    exists x :: Contains(a, x) && Contains(b, x)
  }

  /**
   * intersect: [max of the starts, min of the ends] when the intervals share a point,
   * and NoOverlap otherwise (also when they are adjacent, like [1,3] and [4,6]).
   */
  function Intersect(a: Interval, b: Interval): (r: Interval)
    ensures Overlap(a, b) ==> r.start == Max(a.start, b.start) && r.end == Min(a.end, b.end)
    ensures !Overlap(a, b) ==> r == NoOverlap
  {
    var newStart := Max(a.start, b.start);
    var newEnd := Min(a.end, b.end);
    if newStart > newEnd then NoOverlap
    else
      assert Contains(a, newStart) && Contains(b, newStart);
      Bounds(newStart, newEnd)
  }

  /** union: the smallest interval that covers both operands; it never fails, even for disjoint operands. */
  function Union(a: Interval, b: Interval): (r: Interval)
    ensures Within(a, r) && Within(b, r)
    ensures forall c: Interval :: Within(a, c) && Within(b, c) ==> Within(r, c)
  {
    Bounds(Min(a.start, b.start), Max(a.end, b.end))
  }

  /** On overlapping intervals, intersect holds exactly the common points. */
  lemma IntersectPoints(a: Interval, b: Interval, x: int)
    requires Overlap(a, b)
    ensures Contains(Intersect(a, b), x) <==> Contains(a, x) && Contains(b, x)
  {
  }

  /** Adjacent intervals do not overlap: [1,3] and [4,6] intersect to NoOverlap. */
  lemma IntersectAdjacent(a: Interval, b: Interval)
    requires a.end < b.start
    ensures Intersect(a, b) == NoOverlap && Intersect(b, a) == NoOverlap
  {
  }

  lemma UnionCommutes(a: Interval, b: Interval)
    ensures Union(a, b) == Union(b, a)
  {
  }

  lemma IntersectCommutes(a: Interval, b: Interval)
    ensures Intersect(a, b) == Intersect(b, a)
  {
  }

  lemma UnionIdempotent(a: Interval)
    ensures Union(a, a) == a
  {
  }

  lemma IntersectIdempotent(a: Interval)
    ensures Intersect(a, a) == a
  {
    assert Contains(a, a.start);
  }

  lemma UnionAssociates(a: Interval, b: Interval, c: Interval)
    ensures Union(Union(a, b), c) == Union(a, Union(b, c))
  {
  }

  /** NoOverlap absorbs every further intersection. */
  lemma IntersectNoOverlap(a: Interval)
    ensures Intersect(NoOverlap, a) == NoOverlap
  {
  }

  lemma IntersectAssociates(a: Interval, b: Interval, c: Interval)
    ensures Intersect(Intersect(a, b), c) == Intersect(a, Intersect(b, c))
  {
    var lo := Max(Max(a.start, b.start), c.start);
    var hi := Min(Min(a.end, b.end), c.end);
    if lo <= hi {
      assert Contains(a, lo) && Contains(b, lo) && Contains(c, lo);
      assert Contains(Intersect(a, b), lo);
      assert Contains(Intersect(b, c), lo);
    } else {
      IntersectNoOverlap(c);
      IntersectNoOverlap(a);
      IntersectCommutes(a, NoOverlap);
    }
  }

  /** toString: the decimal start, a comma, the decimal end; a sign only on negative bounds. */
  function ToString(i: Interval): (r: string)
    ensures Text.IsWord(r)
    ensures multiset(r)[','] == 1
  {
    IntToStringSigned(i.start);
    IntToStringSigned(i.end);
    CommaJoin(IntToString(i.start), IntToString(i.end));
    IntToString(i.start) + "," + IntToString(i.end)
  }

  lemma CommaJoin(s: string, e: string)
    requires IsSignedDigits(s) && IsSignedDigits(e)
    ensures Text.IsWord(s + "," + e)
    ensures multiset(s + "," + e)[','] == 1
  {
    var r := s + "," + e;
    assert forall k :: 0 <= k < |r| ==> r[k] == (if k < |s| then s[k] else if k == |s| then ',' else e[k - |s| - 1]);
    assert ',' !in s by {
      forall k | 0 <= k < |s| ensures s[k] != ',' { }
    }
    assert ',' !in e by {
      forall k | 0 <= k < |e| ensures e[k] != ',' { }
    }
    assert multiset(s)[','] == 0 && multiset(e)[','] == 0;
    assert multiset(r) == multiset(s) + multiset{','} + multiset(e);
  }

  /** equals: same start and same end, which is value equality. */
  function Equals(a: Interval, b: Interval): (r: bool)
    ensures r <==> a == b
  {
    a.start == b.start && a.end == b.end
  }
}
