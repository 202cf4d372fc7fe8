/**
 * Page rectangles as PyMuPDF's `Rect` treats them, with integer coordinates:
 * emptiness, the common rectangle of two rectangles, and the `intersects`
 * test the redaction step uses to decide whether a text block touches a
 * highlighted region.
 */
module Geometry {

  /** An axis-parallel rectangle: top-left corner (x0, y0), bottom-right corner (x1, y1). */
  datatype Rect = Rect(x0: int, y0: int, x1: int, y1: int)

  function Max(a: int, b: int): int { if a < b then b else a }
  function Min(a: int, b: int): int { if a < b then a else b }

  /** A rectangle is empty when it has no width or no height. */
  predicate IsEmpty(r: Rect) {
    r.x0 >= r.x1 || r.y0 >= r.y1
  }

  /** The common part of `a` and `b`, bounded by both (an empty rectangle when they do not overlap). */
  function Intersection(a: Rect, b: Rect): (c: Rect)
    ensures c.x0 >= a.x0 && c.x0 >= b.x0 && c.y0 >= a.y0 && c.y0 >= b.y0
    ensures c.x1 <= a.x1 && c.x1 <= b.x1 && c.y1 <= a.y1 && c.y1 <= b.y1
  {
    Rect(Max(a.x0, b.x0), Max(a.y0, b.y0), Min(a.x1, b.x1), Min(a.y1, b.y1))
  }

  /**
   * `a.intersects(b)`: neither rectangle is empty and they have a common
   * non-empty rectangle.
   */
  predicate Intersects(a: Rect, b: Rect) {
    !IsEmpty(a) && !IsEmpty(b) && !IsEmpty(Intersection(a, b))
  }

  /** Intersection is strict overlap on both axes, and it does not depend on the argument order. */
  lemma IntersectsIsStrictOverlap(a: Rect, b: Rect)
    ensures Intersects(a, b) <==>
      (a.x0 < a.x1 && a.y0 < a.y1 && b.x0 < b.x1 && b.y0 < b.y1 &&
       a.x0 < b.x1 && b.x0 < a.x1 && a.y0 < b.y1 && b.y0 < a.y1)
    ensures Intersects(a, b) == Intersects(b, a)
  {
  }

  /** A rectangle intersects itself exactly when it is not empty. */
  lemma IntersectsSelf(r: Rect)
    ensures Intersects(r, r) <==> !IsEmpty(r)
  {
  }
}
