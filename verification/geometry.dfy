/** Layer placement inside a canvas, as sharp's `gravity` option positions a
    composited layer, and the rectangles layers cover. */
module Geometry {

  datatype Gravity = Southeast | Southwest | Northwest

  datatype Point = Point(x: int, y: int)

  /** The pixels [x, x + w) x [y, y + h). */
  datatype Rect = Rect(x: int, y: int, w: int, h: int)

  /** The top-left corner of a w x h layer placed with gravity `g` in a W x H canvas. */
  function Offset(g: Gravity, cw: int, ch: int, w: int, h: int): (p: Point)
    ensures g == Northwest ==> p == Point(0, 0)
    ensures g != Northwest ==> p.y + h == ch
    ensures g == Southeast ==> p.x + w == cw
    ensures g == Southwest ==> p.x == 0
  {
    match g
    case Southeast => Point(cw - w, ch - h)
    case Southwest => Point(0, ch - h)
    case Northwest => Point(0, 0)
  }

  predicate Contains(r: Rect, px: int, py: int) {
    r.x <= px < r.x + r.w && r.y <= py < r.y + r.h
  }

  predicate Inside(r: Rect, cw: int, ch: int) {
    0 <= r.x && 0 <= r.y && r.x + r.w <= cw && r.y + r.h <= ch
  }

  /** Separated along some axis. */
  predicate Disjoint(a: Rect, b: Rect) {
    a.x + a.w <= b.x || b.x + b.w <= a.x || a.y + a.h <= b.y || b.y + b.h <= a.y
  }

  /** A layer no larger than its canvas lies inside it, whatever its gravity. */
  lemma OffsetInside(g: Gravity, cw: int, ch: int, w: int, h: int)
    requires 0 <= w <= cw && 0 <= h <= ch
    ensures var p := Offset(g, cw, ch, w, h); Inside(Rect(p.x, p.y, w, h), cw, ch)
  {
  }

  /** Two non-empty rectangles are disjoint exactly when no pixel lies in both. */
  lemma DisjointMeansNoSharedPixel(a: Rect, b: Rect)
    requires 0 < a.w && 0 < a.h && 0 < b.w && 0 < b.h
    ensures Disjoint(a, b) <==> !exists px, py :: Contains(a, px, py) && Contains(b, px, py)
  {
    if !Disjoint(a, b) {
      var px := if a.x < b.x then b.x else a.x;
      var py := if a.y < b.y then b.y else a.y;
      assert Contains(a, px, py) && Contains(b, px, py);
    }
  }
}
