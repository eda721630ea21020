/** Integer screen geometry shared by the node tree, the layout and the hit tester. */
module Geometry {

  /** A point in pixels (qpoint): horizontal and vertical coordinate. */
  datatype Point = Point(h: int, v: int)

  /** A rectangle in pixels (qrect). */
  datatype Rect = Rect(left: int, top: int, right: int, bottom: int)

  /** The rectangle every field starts with before anything is drawn. */
  const EmptyRect := Rect(0, 0, 0, 0)

  /** A point lies inside a rectangle when it is within both of its closed intervals. */
  predicate Contains(r: Rect, p: Point)
  {
    r.left <= p.h <= r.right && r.top <= p.v <= r.bottom
  }

  /** qrect::height() and qrect::width() taken as the distance between the edges. */
  function Height(r: Rect): int { r.bottom - r.top }

  function Width(r: Rect): int { r.right - r.left }

  function Max(a: int, b: int): int { if a < b then b else a }

  function Min(a: int, b: int): int { if a < b then a else b }

  /** `a / 2` as C and C++ compute it: the quotient is truncated toward zero. */
  function Half(a: int): (q: int)
    ensures a >= 0 ==> 0 <= 2 * q <= a <= 2 * q + 1
    ensures a < 0 ==> 2 * q - 1 <= a <= 2 * q <= 0
  {
    if a >= 0 then a / 2 else -((-a) / 2)
  }

  /** The value bounded below by lo and above by hi, the way the property setters limit their input. */
  function Clamp(x: int, lo: int, hi: int): (r: int)
    requires lo <= hi
    ensures lo <= r <= hi
    ensures lo <= x <= hi ==> r == x
    ensures x < lo ==> r == lo
    ensures x > hi ==> r == hi
  {
    if x < lo then lo else if x > hi then hi else x
  }
}
