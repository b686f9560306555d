/** Geometry primitives of the engine: 2D vectors, axis-aligned rectangles
    given by their min and max corners, the closed-interval overlap test and
    the penetration depths the resolver derives from half-extents.
    Coordinates are exact reals; the source's 32-bit floats are not modelled. */
module Geometry {

  datatype Vec2 = Vec2(x: real, y: real)

  /** An axis-aligned box; the engine expects min <= max on both axes but never checks it. */
  datatype Rect = Rect(min: Vec2, max: Vec2)

  /** The two sweep directions (and, equally, the two separation axes). */
  datatype Axis = X | Y

  const Zero := Vec2(0.0, 0.0)

  function Other(a: Axis): Axis {
    match a
    case X => Y
    case Y => X
  }

  function Add(a: Vec2, b: Vec2): Vec2 { Vec2(a.x + b.x, a.y + b.y) }

  function Sub(a: Vec2, b: Vec2): Vec2 { Vec2(a.x - b.x, a.y - b.y) }

  function Neg(a: Vec2): Vec2 { Vec2(-a.x, -a.y) }

  function Component(v: Vec2, a: Axis): real {
    match a
    case X => v.x
    case Y => v.y
  }

  function Abs(v: real): real { if v < 0.0 then -v else v }

  predicate WellFormed(r: Rect) {
    r.min.x <= r.max.x && r.min.y <= r.max.y
  }

  /** Width and height. */
  function Size(r: Rect): Vec2 { Sub(r.max, r.min) }

  function Midpoint(r: Rect): Vec2 {
    Vec2((r.min.x + r.max.x) / 2.0, (r.min.y + r.max.y) / 2.0)
  }

  /** Lower and upper edge of a rectangle on one axis. */
  function Lo(r: Rect, a: Axis): real { Component(r.min, a) }

  function Hi(r: Rect, a: Axis): real { Component(r.max, a) }

  /** Shifts both corners by `d`. */
  function Translate(r: Rect, d: Vec2): (t: Rect)
    ensures Size(t) == Size(r)
    ensures Sub(t.min, r.min) == d && Sub(t.max, r.max) == d
    ensures Sub(Midpoint(t), Midpoint(r)) == d
  {
    Rect(Add(r.min, d), Add(r.max, d))
  }

  /** Closed-interval overlap: touching edges count as overlapping. */
  predicate RectsOverlap(r1: Rect, r2: Rect) {
    !(r1.min.x > r2.max.x || r1.max.x < r2.min.x || r1.min.y > r2.max.y || r1.max.y < r2.min.y)
  }

  /** Per axis, the sum of the two boxes' half-extents. */
  function HalfSpan(r1: Rect, r2: Rect): Vec2 {
    Vec2((r1.max.x - r1.min.x) / 2.0 + (r2.max.x - r2.min.x) / 2.0,
         (r1.max.y - r1.min.y) / 2.0 + (r2.max.y - r2.min.y) / 2.0)
  }

  /** How far the two boxes interpenetrate on each axis, measured as the sum of
      the half-extents minus the distance between the centres. */
  function Penetration(r1: Rect, r2: Rect): Vec2 {
    var d, h := Sub(Midpoint(r1), Midpoint(r2)), HalfSpan(r1, r2);
    Vec2(h.x - Abs(d.x), h.y - Abs(d.y))
  }

  /** Moving two boxes keeps their half-extents and shifts the vector between
      their centres by the difference of the moves. */
  lemma TranslatePair(r1: Rect, r2: Rect, m1: Vec2, m2: Vec2)
    ensures HalfSpan(Translate(r1, m1), Translate(r2, m2)) == HalfSpan(r1, r2)
    ensures Sub(Midpoint(Translate(r1, m1)), Midpoint(Translate(r2, m2)))
         == Add(Sub(Midpoint(r1), Midpoint(r2)), Sub(m1, m2))
  {
  }

  /** The closed box contains the point. */
  predicate Contains(r: Rect, p: Vec2) {
    r.min.x <= p.x <= r.max.x && r.min.y <= p.y <= r.max.y
  }

  function Max(a: real, b: real): real { if a < b then b else a }

  /** For well-formed boxes the overlap test is exactly "the closed boxes share
      a point"; the corner made of the larger minima is such a point. */
  lemma OverlapIffSharedPoint(r1: Rect, r2: Rect)
    requires WellFormed(r1) && WellFormed(r2)
    ensures RectsOverlap(r1, r2) <==> exists p :: Contains(r1, p) && Contains(r2, p)
  {
    if RectsOverlap(r1, r2) {
      var p := Vec2(Max(r1.min.x, r2.min.x), Max(r1.min.y, r2.min.y));
      assert Contains(r1, p) && Contains(r2, p);
    }
  }

  /** The overlap predicate and the penetration depths agree: two boxes overlap
      exactly when neither penetration depth is negative. No well-formedness is needed. */
  lemma OverlapIffPenetration(r1: Rect, r2: Rect)
    ensures RectsOverlap(r1, r2) <==> Penetration(r1, r2).x >= 0.0 && Penetration(r1, r2).y >= 0.0
  {
  }

  lemma OverlapSymmetric(r1: Rect, r2: Rect)
    ensures RectsOverlap(r1, r2) <==> RectsOverlap(r2, r1)
  {
  }

  /** Boxes that are apart on one axis do not overlap. */
  lemma ApartOnAxis(r1: Rect, r2: Rect, a: Axis)
    requires Lo(r2, a) > Hi(r1, a)
    ensures !RectsOverlap(r1, r2)
  {
  }

  /** On one axis: moving the centres apart by the full depth, in the direction
      they are already apart, leaves a depth of zero. */
  lemma CloseGap(h: real, d: real, delta: real)
    requires h - Abs(d) >= 0.0
    requires (d >= 0.0 && delta == h - Abs(d)) || (d <= 0.0 && delta == -(h - Abs(d)))
    ensures h - Abs(d + delta) == 0.0
  {
  }

  /** Two overlapping boxes moved apart along axis `a` by exactly their depth
      there, in the direction their centres already lie apart, end up touching
      on that axis with the depth on the other axis unchanged. */
  lemma PushApartEndsPenetration(r1: Rect, r2: Rect, m1: Vec2, m2: Vec2, a: Axis)
    requires RectsOverlap(r1, r2)
    requires Component(m1, Other(a)) == 0.0 && Component(m2, Other(a)) == 0.0
    requires var rel, gap, ov := Component(Sub(m1, m2), a), Component(Sub(Midpoint(r1), Midpoint(r2)), a),
                                 Component(Penetration(r1, r2), a);
      (gap >= 0.0 && rel == ov) || (gap <= 0.0 && rel == -ov)
    ensures var ov' := Penetration(Translate(r1, m1), Translate(r2, m2));
      && Component(ov', a) == 0.0
      && Component(ov', Other(a)) == Component(Penetration(r1, r2), Other(a))
      && RectsOverlap(Translate(r1, m1), Translate(r2, m2))
  {
    var d, h := Sub(Midpoint(r1), Midpoint(r2)), HalfSpan(r1, r2);
    OverlapIffPenetration(r1, r2);
    TranslatePair(r1, r2, m1, m2);
    var delta := Sub(m1, m2);
    match a {
      case X => CloseGap(h.x, d.x, delta.x);
      case Y => CloseGap(h.y, d.y, delta.y);
    }
    OverlapIffPenetration(Translate(r1, m1), Translate(r2, m2));
  }
}
