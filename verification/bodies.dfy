/** Bodies, their flag words and per-tick collision data, and the construction
    of a body from an anchor position (the body-building half of sr_new_body). */
module Bodies {
  import opened Geometry

  /** The source's `int` priority: a 32-bit signed integer. */
  newtype Int32 = x: int | -0x8000_0000 <= x < 0x8000_0000

  /** A body of this priority is static: the resolver never moves it. */
  const PRIORITY_STATIC: Int32 := 0x7FFF_FFFF

  // Body flags.
  const NO_COLLISION: bv32 := 0x0001
  const DISABLED: bv32 := 0x0002

  // Tick-data flags.
  const COLLIDED: bv32 := 0x0001
  const COLLIDED_CEILING: bv32 := 0x0002
  const COLLIDED_RIGHT_WALL: bv32 := 0x0004
  const COLLIDED_FLOOR: bv32 := 0x0008
  const COLLIDED_LEFT_WALL: bv32 := 0x0010
  const COLLIDED_UP: bv32 := 0x0020
  const COLLIDED_RIGHT: bv32 := 0x0040
  const COLLIDED_DOWN: bv32 := 0x0080
  const COLLIDED_LEFT: bv32 := 0x0100

  /** The four relative-direction flags and the four against-a-static-body flags. */
  const DIRECTIONS: bv32 := COLLIDED_UP | COLLIDED_RIGHT | COLLIDED_DOWN | COLLIDED_LEFT
  const WALLS: bv32 := COLLIDED_CEILING | COLLIDED_RIGHT_WALL | COLLIDED_FLOOR | COLLIDED_LEFT_WALL

  /** `offset` runs from `r.min` to the body's anchor point. */
  datatype Body = Body(r: Rect, offset: Vec2, priority: Int32, flags: bv32, customFlags: bv32)

  /** What one resolve call recorded about a body. */
  datatype TickData = TickData(flags: bv32, customFlags: bv32)

  const NoContact := TickData(0, 0)

  /** The nine attach locations, in the source's enumeration order. */
  datatype Anchor =
    | Center | TopCenter | TopRight | CenterRight | BottomRight
    | BottomCenter | BottomLeft | CenterLeft | TopLeft

  predicate IsStatic(b: Body) { b.priority == PRIORITY_STATIC }

  predicate IsDisabled(b: Body) { b.flags & DISABLED != 0 }

  predicate IsNoCollision(b: Body) { b.flags & NO_COLLISION != 0 }

  /** Whether the sweep along `a` considers the body at all: disabled bodies never,
      no-collision bodies only when sweeping along x (the x sweep ignores that flag). */
  predicate Participates(b: Body, a: Axis) {
    !IsDisabled(b) && (a == X || !IsNoCollision(b))
  }

  /** The anchor position a body reports: its min corner plus its offset. */
  function Position(b: Body): Vec2 { Add(b.r.min, b.offset) }

  /** Equal in everything the resolver may not change: all but the rectangle. */
  predicate SameButRect(b: Body, b': Body) {
    b.offset == b'.offset && b.priority == b'.priority && b.flags == b'.flags
    && b.customFlags == b'.customFlags
  }

  /** Where the named point lies across the box: 0 at the left edge, 1 at the right. */
  function HorizontalFraction(loc: Anchor): real {
    match loc
    case TopLeft | CenterLeft | BottomLeft => 0.0
    case TopCenter | Center | BottomCenter => 0.5
    case TopRight | CenterRight | BottomRight => 1.0
  }

  /** Where the named point lies down the box: 0 at the top (min y), 1 at the bottom. */
  function VerticalFraction(loc: Anchor): real {
    match loc
    case TopLeft | TopCenter | TopRight => 0.0
    case CenterLeft | Center | CenterRight => 0.5
    case BottomLeft | BottomCenter | BottomRight => 1.0
  }

  /** The offset sr_new_body derives for an anchor: zero, half or the whole of each dimension. */
  function AnchorOffset(loc: Anchor, dim: Vec2): (o: Vec2)
    ensures o == Vec2(HorizontalFraction(loc) * dim.x, VerticalFraction(loc) * dim.y)
  {
    match loc
    case Center => Vec2(dim.x / 2.0, dim.y / 2.0)
    case TopCenter => Vec2(dim.x / 2.0, 0.0)
    case TopRight => Vec2(dim.x, 0.0)
    case CenterRight => Vec2(dim.x, dim.y / 2.0)
    case BottomRight => Vec2(dim.x, dim.y)
    case BottomCenter => Vec2(dim.x / 2.0, dim.y)
    case BottomLeft => Vec2(0.0, dim.y)
    case CenterLeft => Vec2(0.0, dim.y / 2.0)
    case TopLeft => Vec2(0.0, 0.0)
  }

  /** The named point of a rectangle, read off its edges (y grows downwards, so top is min y). */
  function AnchorPoint(r: Rect, loc: Anchor): Vec2 {
    var x := match loc
      case TopLeft | CenterLeft | BottomLeft => r.min.x
      case TopCenter | Center | BottomCenter => Midpoint(r).x
      case TopRight | CenterRight | BottomRight => r.max.x;
    var y := match loc
      case TopLeft | TopCenter | TopRight => r.min.y
      case CenterLeft | Center | CenterRight => Midpoint(r).y
      case BottomLeft | BottomCenter | BottomRight => r.max.y;
    Vec2(x, y)
  }

  /** The body sr_new_body builds before registering it: the box has the given
      dimensions, and the anchor position reads back as `pos` and is the named point of the box. */
  function MakeBody(pos: Vec2, dim: Vec2, loc: Anchor, priority: Int32, flags: bv32, customFlags: bv32): (b: Body)
    ensures Size(b.r) == dim
    ensures Position(b) == pos
    ensures Position(b) == AnchorPoint(b.r, loc)
    ensures b.priority == priority && b.flags == flags && b.customFlags == customFlags
  {
    var offset := AnchorOffset(loc, dim);
    var min := Sub(pos, offset);
    Body(Rect(min, Add(min, dim)), offset, priority, flags, customFlags)
  }
}
