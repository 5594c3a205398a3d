/** Half-open booking intervals [start, end) over integer timestamps, and the
    two ways of deciding whether a booked interval collides with a candidate:
    the three OR'd comparisons the conflict query uses, and the standard
    half-open overlap test. */
module Interval {

  /** The conflict query's test of a booked interval [a, b) against a
      candidate [s, e): three comparisons joined by OR. */
  predicate ThreeClause(a: int, b: int, s: int, e: int) {
    (a <= s && b > s) || (a < e && b >= e) || (a >= s && b <= e)
  }

  /** The standard half-open overlap test. */
  predicate Overlaps(a: int, b: int, s: int, e: int) {
    a < e && s < b
  }

  /** An interval is well formed when it starts strictly before it ends. */
  predicate WellFormed(start: int, end: int) {
    start < end
  }

  /** Instant t lies in the half-open interval [start, end). */
  predicate Within(t: int, start: int, end: int) {
    start <= t < end
  }

  /** Reference meaning of a collision: some instant is booked by both. */
  ghost predicate SharesInstant(a: int, b: int, s: int, e: int) {
    exists t :: Within(t, a, b) && Within(t, s, e)
  }

  /** Intervals that share an instant always pass the overlap test, well
      formed or not: the test never misses a real collision. */
  lemma SharesInstantImpliesOverlaps(a: int, b: int, s: int, e: int)
    ensures SharesInstant(a, b, s, e) ==> Overlaps(a, b, s, e)
  {
  }

  /** On well-formed intervals the overlap test decides exactly whether the
      two share an instant. */
  lemma OverlapsIffSharesInstant(a: int, b: int, s: int, e: int)
    requires WellFormed(a, b) && WellFormed(s, e)
    ensures Overlaps(a, b, s, e) <==> SharesInstant(a, b, s, e)
  {
    if Overlaps(a, b, s, e) {
      var t := if a < s then s else a;
      assert Within(t, a, b) && Within(t, s, e);
    }
    SharesInstantImpliesOverlaps(a, b, s, e);
  }

  /** Every genuine overlap is caught by the three-clause test, whatever
      the shape of either interval. */
  lemma OverlapsImpliesThreeClause(a: int, b: int, s: int, e: int)
    ensures Overlaps(a, b, s, e) ==> ThreeClause(a, b, s, e)
  {
  }

  /** On well-formed intervals the three-clause test is exactly the
      half-open overlap test. */
  lemma ThreeClauseIffOverlaps(a: int, b: int, s: int, e: int)
    requires WellFormed(a, b) && WellFormed(s, e)
    ensures ThreeClause(a, b, s, e) <==> Overlaps(a, b, s, e)
  {
  }

  /** Intervals that only touch at a boundary do not conflict, in either
      order. */
  lemma TouchingDoNotConflict(a: int, b: int, c: int)
    requires a < b < c
    ensures !ThreeClause(a, b, b, c) && !ThreeClause(b, c, a, b)
    ensures !SharesInstant(a, b, b, c) && !SharesInstant(b, c, a, b)
  {
  }

  /** Overlap does not depend on which interval is the booked one. */
  lemma OverlapsSymmetric(a: int, b: int, s: int, e: int)
    ensures Overlaps(a, b, s, e) <==> Overlaps(s, e, a, b)
  {
  }

  /** On well-formed intervals the three-clause test does not depend on
      which interval is the booked one. */
  lemma ThreeClauseSymmetricWhenWellFormed(a: int, b: int, s: int, e: int)
    requires WellFormed(a, b) && WellFormed(s, e)
    ensures ThreeClause(a, b, s, e) <==> ThreeClause(s, e, a, b)
  {
  }

  /** On an inverted booking it does: an inverted booking [a, b) blocks a
      well-formed candidate [s, e) lying between its ends, but the same
      candidate booked first does not block the inverted one. Which of the
      two is accepted depends on the order of the requests. */
  lemma BookingOrderDecidesInverted(a: int, b: int, s: int, e: int)
    requires b <= s < e <= a
    ensures ThreeClause(a, b, s, e)
    ensures !ThreeClause(s, e, a, b)
  {
  }

  /** A well-formed interval overlaps itself. */
  lemma OverlapsReflexive(a: int, b: int)
    requires WellFormed(a, b)
    ensures Overlaps(a, b, a, b) && SharesInstant(a, b, a, b)
  {
    assert Within(a, a, b);
  }

  /** Where the two tests part ways, on a candidate that is not well
      formed: an empty or inverted candidate [s, e) whose start lies inside
      a booking passes the first comparison, although it books no instant. */
  lemma IllFormedCandidateInsideIsRejected(a: int, b: int, s: int, e: int)
    requires a <= s < b && e <= s
    ensures ThreeClause(a, b, s, e)
    ensures !SharesInstant(a, b, s, e)
  {
  }

  /** And on a stored interval that is not well formed: an empty or inverted
      booking [a, b) makes the third comparison reject every candidate that
      starts no later than a and ends no earlier than b, well formed or
      not, although the booking holds no instant. */
  lemma IllFormedRowRejectsCandidate(a: int, b: int, s: int, e: int)
    requires b <= a && s <= a && b <= e
    ensures ThreeClause(a, b, s, e)
    ensures !SharesInstant(a, b, s, e)
  {
  }
}
