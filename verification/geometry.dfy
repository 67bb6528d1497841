/**
 * Axis-aligned rectangles on the integer grid and the half-open overlap
 * test that the placement engine's `collides` applies to two layout items
 * (the identity check is added in module Items).
 */
module Geometry {

  /** A rectangle in grid units: top-left corner (x, y), width w, height h. */
  datatype Rect = Rect(x: int, y: int, w: int, h: int)

  /**
   * The four early exits of `collides`, one per side: `a` entirely left of,
   * right of, above or below `b`. Touching edges count as apart.
   */
  predicate Overlap(a: Rect, b: Rect): (o: bool)
    ensures o <==> a.x < b.x + b.w && b.x < a.x + a.w && a.y < b.y + b.h && b.y < a.y + a.h
  {
    if a.x + a.w <= b.x then false
    else if a.x >= b.x + b.w then false
    else if a.y + a.h <= b.y then false
    else if a.y >= b.y + b.h then false
    else true
  }

  /** A rectangle with positive extent on both axes. */
  predicate Proper(r: Rect)
  {
    r.w > 0 && r.h > 0
  }

  /** Grid cell (cx, cy) lies inside `r` (half-open on both axes). */
  predicate Covers(r: Rect, cx: int, cy: int)
  {
    r.x <= cx < r.x + r.w && r.y <= cy < r.y + r.h
  }

  /** The same rectangle moved to row `y`. */
  function AtRow(r: Rect, y: int): (s: Rect)
    ensures s.x == r.x && s.w == r.w && s.h == r.h && s.y == y
  {
    r.(y := y)
  }

  /** Overlap does not depend on the order of its arguments. */
  lemma OverlapSymmetric(a: Rect, b: Rect)
    ensures Overlap(a, b) == Overlap(b, a)
  {
  }

  /** Rectangles that only share an edge do not overlap. */
  lemma TouchingDoNotOverlap(a: Rect, b: Rect)
    requires a.x + a.w == b.x || b.x + b.w == a.x || a.y + a.h == b.y || b.y + b.h == a.y
    ensures !Overlap(a, b)
  {
  }

  /**
   * For rectangles of positive size, the edge tests of `Overlap` say
   * exactly that some grid cell lies in both rectangles.
   */
  lemma OverlapIffSharedCell(a: Rect, b: Rect)
    requires Proper(a) && Proper(b)
    ensures Overlap(a, b) <==> exists cx, cy :: Covers(a, cx, cy) && Covers(b, cx, cy)
  {
    if Overlap(a, b) {
      var cx := if a.x < b.x then b.x else a.x;
      var cy := if a.y < b.y then b.y else a.y;
      assert Covers(a, cx, cy) && Covers(b, cx, cy);
    } else {
      forall cx, cy | Covers(a, cx, cy)
        ensures !Covers(b, cx, cy)
      {
      }
    }
  }

  /**
   * Two rectangles in the same columns that overlap when the second sits
   * at row `y` but not at row `y + 1` end exactly at row `y + 1`: the
   * first one's bottom edge is `y + 1`.
   */
  lemma BlockerEndsAtNextRow(c: Rect, r: Rect, y: int)
    requires Overlap(c, AtRow(r, y)) && !Overlap(c, AtRow(r, y + 1))
    ensures c.y + c.h == y + 1
  {
  }

  /**
   * A rectangle overlapping `r` at row `y` still overlaps it one row
   * higher when both have height at least one and `y` is `c`'s bottom edge.
   */
  lemma BlockedJustAbove(c: Rect, r: Rect)
    requires Overlap(c, r) && c.h >= 1 && r.h >= 1
    ensures Overlap(c, AtRow(r, c.y + c.h - 1))
  {
  }
}
