/** Half-open integer ranges and their intersection, as the solver uses them
    for the rows (or columns) two tiles can both reach. */
module Ranges {
  /** The half-open range [lo, hi). */
  datatype Span = Span(lo: int, hi: int) {
    predicate Contains(x: int) {
      lo <= x < hi
    }

    predicate IsEmpty() {
      hi <= lo
    }
  }

  /** The empty range the source returns for disjoint inputs. */
  const NO_SPAN: Span := Span(-1, -1)

  function Max(a: int, b: int): int { if a < b then b else a }

  function Min(a: int, b: int): int { if a < b then a else b }

  /** Orders the two ranges by their start and keeps what the second shares with the first. */
  function Intersection(s1: Span, s2: Span): (r: Span)
    ensures forall x :: r.Contains(x) <==> s1.Contains(x) && s2.Contains(x)
    ensures !r.IsEmpty() ==> r == Span(Max(s1.lo, s2.lo), Min(s1.hi, s2.hi))
    ensures !s1.IsEmpty() && !s2.IsEmpty() && (forall x :: !(s1.Contains(x) && s2.Contains(x))) ==> r == NO_SPAN
  {
    var (first, second) := if s1.lo > s2.lo then (s2, s1) else (s1, s2);
    if first.hi <= second.lo then NO_SPAN
    else
      assert !second.IsEmpty() ==> s1.Contains(second.lo) && s2.Contains(second.lo);
      Span(second.lo, Min(first.hi, second.hi))
  }

  /** As a set of integers the intersection does not depend on the argument
      order, and when it is not empty it is the very same range. */
  lemma IntersectionCommutes(s1: Span, s2: Span)
    ensures forall x :: Intersection(s1, s2).Contains(x) <==> Intersection(s2, s1).Contains(x)
    ensures Intersection(s1, s2).IsEmpty() <==> Intersection(s2, s1).IsEmpty()
    ensures !Intersection(s1, s2).IsEmpty() ==> Intersection(s1, s2) == Intersection(s2, s1)
  {
    var r, r' := Intersection(s1, s2), Intersection(s2, s1);
    if !r.IsEmpty() {
      assert r.Contains(r.lo);
    }
    if !r'.IsEmpty() {
      assert r'.Contains(r'.lo);
    }
  }
}
