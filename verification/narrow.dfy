/** The narrow phase (sr_resolve_bodies): for two overlapping bodies, choose the
    axis of least penetration, push the lower-priority body (or both, half each)
    out along it, and tag both bodies' tick data. `Separate` is the pure decision
    taken from the two bodies; `ResolveBodies` applies it to the store. */
module Narrow {
  import opened Geometry
  import opened Bodies
  import opened Store

  /** The side of its partner on which a body was met: a body pushed up and out
      of its partner is tagged DOWN (its partner lies below it), and so on. */
  datatype Dir = Up | Right | Down | Left

  /** The moves decided for the two bodies, the side each was met on, and
      whether each also gains the matching wall, floor or ceiling flag. */
  datatype Push = Push(move1: Vec2, move2: Vec2, dir1: Dir, dir2: Dir, wall1: bool, wall2: bool)

  /** The separation axis: y when the x penetration is the larger one, else x. */
  function SeparationAxis(r1: Rect, r2: Rect): Axis {
    var ov := Penetration(r1, r2);
    if ov.x > ov.y then Y else X
  }

  /** The penetration depth on the separation axis. */
  function Depth(r1: Rect, r2: Rect): real {
    Component(Penetration(r1, r2), SeparationAxis(r1, r2))
  }

  function Opposite(d: Dir): Dir {
    match d
    case Up => Down
    case Down => Up
    case Left => Right
    case Right => Left
  }

  function DirAxis(d: Dir): Axis {
    match d
    case Up | Down => Y
    case Left | Right => X
  }

  function DirFlag(d: Dir): bv32 {
    match d
    case Up => COLLIDED_UP
    case Right => COLLIDED_RIGHT
    case Down => COLLIDED_DOWN
    case Left => COLLIDED_LEFT
  }

  /** The against-a-static-body flag that goes with a side. */
  function WallFlag(d: Dir): bv32 {
    match d
    case Up => COLLIDED_CEILING
    case Right => COLLIDED_RIGHT_WALL
    case Down => COLLIDED_FLOOR
    case Left => COLLIDED_LEFT_WALL
  }

  /** The tick flags one resolution adds besides COLLIDED: exactly one
      direction flag, and the matching wall flag when `wall` holds. */
  function Gained(d: Dir, wall: bool): (f: bv32)
    ensures f & DIRECTIONS == DirFlag(d)
    ensures f & WALLS == (if wall then WallFlag(d) else 0)
    ensures f & (DIRECTIONS | WALLS) == f
    ensures f & COLLIDED == 0
  {
    match d
    case Up => if wall then COLLIDED_UP | COLLIDED_CEILING else COLLIDED_UP
    case Right => if wall then COLLIDED_RIGHT | COLLIDED_RIGHT_WALL else COLLIDED_RIGHT
    case Down => if wall then COLLIDED_DOWN | COLLIDED_FLOOR else COLLIDED_DOWN
    case Left => if wall then COLLIDED_LEFT | COLLIDED_LEFT_WALL else COLLIDED_LEFT
  }

  /** The resolution of two bodies that are not both static. Afterwards the two
      boxes touch along the separation axis, on the sides the directions name;
      only the strictly lower-priority body moves, by the whole depth, or both
      move half of it when priorities are equal; the wall, floor or ceiling flag
      goes to a body exactly when its partner is static. */
  function Separate(b1: Body, b2: Body): (p: Push)
    requires !(IsStatic(b1) && IsStatic(b2))
    // movement only along the separation axis
    ensures Component(p.move1, Other(SeparationAxis(b1.r, b2.r))) == 0.0
    ensures Component(p.move2, Other(SeparationAxis(b1.r, b2.r))) == 0.0
    // who moves, and by how much
    ensures b1.priority < b2.priority ==>
      p.move2 == Zero && Abs(Component(p.move1, SeparationAxis(b1.r, b2.r))) == Abs(Depth(b1.r, b2.r))
    ensures b2.priority < b1.priority ==>
      p.move1 == Zero && Abs(Component(p.move2, SeparationAxis(b1.r, b2.r))) == Abs(Depth(b1.r, b2.r))
    ensures b1.priority == b2.priority ==>
      p.move2 == Neg(p.move1) && Abs(Component(p.move1, SeparationAxis(b1.r, b2.r))) == Abs(Depth(b1.r, b2.r)) / 2.0
    ensures IsStatic(b1) ==> p.move1 == Zero
    ensures IsStatic(b2) ==> p.move2 == Zero
    // the sides met lie on the separation axis and face each other
    ensures DirAxis(p.dir1) == SeparationAxis(b1.r, b2.r)
    ensures p.dir2 == Opposite(p.dir1)
    // wall flags go to a body exactly when its partner is static
    ensures p.wall1 <==> IsStatic(b2)
    ensures p.wall2 <==> IsStatic(b1)
  {
    var d := Sub(Midpoint(b1.r), Midpoint(b2.r));
    var ov := Penetration(b1.r, b2.r);
    var s1 := IsStatic(b1);
    var s2 := IsStatic(b2);
    if ov.x > ov.y then
      if b1.priority < b2.priority then
        if d.y > 0.0 then Push(Vec2(0.0, ov.y), Zero, Up, Down, s2, false)
        else Push(Vec2(0.0, -ov.y), Zero, Down, Up, s2, false)
      else if b1.priority == b2.priority then
        if d.y > 0.0 then Push(Vec2(0.0, ov.y / 2.0), Vec2(0.0, -ov.y / 2.0), Up, Down, false, false)
        else Push(Vec2(0.0, -ov.y / 2.0), Vec2(0.0, ov.y / 2.0), Down, Up, false, false)
      else
        if d.y < 0.0 then Push(Zero, Vec2(0.0, ov.y), Down, Up, false, s1)
        else Push(Zero, Vec2(0.0, -ov.y), Up, Down, false, s1)
    else
      if b1.priority < b2.priority then
        if d.x > 0.0 then Push(Vec2(ov.x, 0.0), Zero, Left, Right, s2, false)
        else Push(Vec2(-ov.x, 0.0), Zero, Right, Left, s2, false)
      else if b1.priority == b2.priority then
        if d.x > 0.0 then Push(Vec2(ov.x / 2.0, 0.0), Vec2(-ov.x / 2.0, 0.0), Left, Right, false, false)
        else Push(Vec2(-ov.x / 2.0, 0.0), Vec2(ov.x / 2.0, 0.0), Right, Left, false, false)
      else
        if d.x < 0.0 then Push(Zero, Vec2(ov.x, 0.0), Right, Left, false, s1)
        else Push(Zero, Vec2(-ov.x, 0.0), Left, Right, false, s1)
  }

  /** After the push the two boxes touch on exactly the sides the direction flags
      name: a body flagged LEFT has its left edge on its partner's right edge, and so on. */
  lemma SeparateTouching(b1: Body, b2: Body)
    requires !(IsStatic(b1) && IsStatic(b2))
    ensures var p := Separate(b1, b2);
      var r1, r2 := Translate(b1.r, p.move1), Translate(b2.r, p.move2);
      && (p.dir1 == Left ==> r1.min.x == r2.max.x)
      && (p.dir1 == Right ==> r1.max.x == r2.min.x)
      && (p.dir1 == Up ==> r1.min.y == r2.max.y)
      && (p.dir1 == Down ==> r1.max.y == r2.min.y)
  {
    var d := Sub(Midpoint(b1.r), Midpoint(b2.r));
    var ov := Penetration(b1.r, b2.r);
    if ov.x > ov.y {
      if b1.priority < b2.priority {
        if d.y > 0.0 { } else { }
      } else if b1.priority == b2.priority {
        if d.y > 0.0 { } else { }
      } else {
        if d.y < 0.0 { } else { }
      }
    } else {
      if b1.priority < b2.priority {
        if d.x > 0.0 { } else { }
      } else if b1.priority == b2.priority {
        if d.x > 0.0 { } else { }
      } else {
        if d.x < 0.0 { } else { }
      }
    }
  }

  /** The push moves the two bodies apart along the separation axis: their
      relative displacement is the whole depth, pointing from the second body's
      centre towards the first's (either way when the centres coincide there). */
  lemma SeparateMovesApart(b1: Body, b2: Body)
    requires !(IsStatic(b1) && IsStatic(b2))
    ensures var p, a := Separate(b1, b2), SeparationAxis(b1.r, b2.r);
      var rel, gap := Component(Sub(p.move1, p.move2), a), Component(Sub(Midpoint(b1.r), Midpoint(b2.r)), a);
      && (rel == Depth(b1.r, b2.r) || rel == -Depth(b1.r, b2.r))
      && (gap > 0.0 ==> rel == Depth(b1.r, b2.r))
      && (gap < 0.0 ==> rel == -Depth(b1.r, b2.r))
  {
    var d := Sub(Midpoint(b1.r), Midpoint(b2.r));
    var ov := Penetration(b1.r, b2.r);
    if ov.x > ov.y {
      if b1.priority < b2.priority {
        if d.y > 0.0 { } else { }
      } else if b1.priority == b2.priority {
        if d.y > 0.0 { } else { }
      } else {
        if d.y < 0.0 { } else { }
      }
    } else {
      if b1.priority < b2.priority {
        if d.x > 0.0 { } else { }
      } else if b1.priority == b2.priority {
        if d.x > 0.0 { } else { }
      } else {
        if d.x < 0.0 { } else { }
      }
    }
  }

  /** The push removes exactly the penetration on the separation axis: two
      overlapping boxes end up touching there (depth zero) with the depth on the
      other axis untouched, so they still overlap in the closed-interval sense. */
  lemma SeparateEndsPenetration(b1: Body, b2: Body)
    requires !(IsStatic(b1) && IsStatic(b2))
    requires RectsOverlap(b1.r, b2.r)
    ensures var p, a := Separate(b1, b2), SeparationAxis(b1.r, b2.r);
      var ov' := Penetration(Translate(b1.r, p.move1), Translate(b2.r, p.move2));
      && Component(ov', a) == 0.0
      && Component(ov', Other(a)) == Component(Penetration(b1.r, b2.r), Other(a))
      && RectsOverlap(Translate(b1.r, p.move1), Translate(b2.r, p.move2))
  {
    var p := Separate(b1, b2);
    SeparateMovesApart(b1, b2);
    PushApartEndsPenetration(b1.r, b2.r, p.move1, p.move2, SeparationAxis(b1.r, b2.r));
  }

  /** One body's share of a resolution: it is marked COLLIDED plus `gained`, its
      tick custom flags receive `partnerCustom`, and its box moves by `move`. */
  function Mark(c: Context, id: nat, move: Vec2, gained: bv32, partnerCustom: bv32): (r: Context)
    requires Valid(c) && id < c.numBodies
    ensures Valid(r)
    ensures r.sorted == c.sorted && r.numBodies == c.numBodies && r.cap == c.cap && r.sweep == c.sweep
    ensures forall k :: 0 <= k < c.cap ==> SameButRect(r.bodies[k], c.bodies[k])
    ensures forall k :: 0 <= k < c.cap && k != id ==> r.bodies[k] == c.bodies[k] && r.tick[k] == c.tick[k]
    ensures r.bodies[id].r == Translate(c.bodies[id].r, move)
    ensures r.tick[id].flags == c.tick[id].flags | COLLIDED | gained
    ensures r.tick[id].customFlags == c.tick[id].customFlags | partnerCustom
  {
    var b, t := c.bodies[id], c.tick[id];
    c.(bodies := c.bodies[id := b.(r := Translate(b.r, move))],
       tick := c.tick[id := TickData(t.flags | COLLIDED | gained, t.customFlags | partnerCustom)])
  }

  /** Applies a push to two bodies of the store, first body 1's share and then
      body 2's: both are marked COLLIDED, each one's tick custom flags receive
      the other body's custom flags, and the moves and flags of `p` are applied;
      nothing else changes. Passed the same id twice, that body receives both
      shares. */
  function ApplyPush(c: Context, id1: nat, id2: nat, p: Push): (r: Context)
    requires Valid(c) && id1 < c.numBodies && id2 < c.numBodies
    ensures Valid(r)
    ensures r.sorted == c.sorted && r.numBodies == c.numBodies && r.cap == c.cap && r.sweep == c.sweep
    ensures r.tick[id1].flags & COLLIDED != 0 && r.tick[id2].flags & COLLIDED != 0
    ensures id1 != id2 ==>
      && r.tick[id1].customFlags == c.tick[id1].customFlags | c.bodies[id2].customFlags
      && r.tick[id2].customFlags == c.tick[id2].customFlags | c.bodies[id1].customFlags
      && r.bodies[id1].r == Translate(c.bodies[id1].r, p.move1)
      && r.bodies[id2].r == Translate(c.bodies[id2].r, p.move2)
      && r.tick[id1].flags == c.tick[id1].flags | COLLIDED | Gained(p.dir1, p.wall1)
      && r.tick[id2].flags == c.tick[id2].flags | COLLIDED | Gained(p.dir2, p.wall2)
  {
    var c1 := Mark(c, id1, p.move1, Gained(p.dir1, p.wall1), c.bodies[id2].customFlags);
    Mark(c1, id2, p.move2, Gained(p.dir2, p.wall2), c.bodies[id1].customFlags)
  }

  /** A push changes nothing but the boxes and tick data of its two bodies. */
  lemma ApplyPushFrame(c: Context, id1: nat, id2: nat, p: Push)
    requires Valid(c) && id1 < c.numBodies && id2 < c.numBodies
    ensures var r := ApplyPush(c, id1, id2, p);
      && (forall k :: 0 <= k < c.cap ==> SameButRect(r.bodies[k], c.bodies[k]))
      && (forall k :: 0 <= k < c.cap && k != id1 && k != id2 ==> r.bodies[k] == c.bodies[k] && r.tick[k] == c.tick[k])
  {
    var c1 := Mark(c, id1, p.move1, Gained(p.dir1, p.wall1), c.bodies[id2].customFlags);
    assert ApplyPush(c, id1, id2, p) == Mark(c1, id2, p.move2, Gained(p.dir2, p.wall2), c.bodies[id1].customFlags);
  }

  /** Passed the same id twice, the body receives both shares of the push: the
      two moves add up and both sides' flags accumulate. */
  lemma ApplyPushSameBody(c: Context, id: nat, p: Push)
    requires Valid(c) && id < c.numBodies
    ensures var r := ApplyPush(c, id, id, p);
      && r.tick[id].customFlags == c.tick[id].customFlags | c.bodies[id].customFlags
      && r.bodies[id].r == Translate(c.bodies[id].r, Add(p.move1, p.move2))
      && r.tick[id].flags == c.tick[id].flags | COLLIDED | Gained(p.dir1, p.wall1) | Gained(p.dir2, p.wall2)
  {
    var c1 := Mark(c, id, p.move1, Gained(p.dir1, p.wall1), c.bodies[id].customFlags);
    assert ApplyPush(c, id, id, p) == Mark(c1, id, p.move2, Gained(p.dir2, p.wall2), c.bodies[id].customFlags);
  }

  /** sr_resolve_bodies on the store: two static bodies are left alone;
      otherwise the push `Separate` decides is applied to both. */
  function ResolveBodies(c: Context, id1: nat, id2: nat): (r: Context)
    requires Valid(c) && id1 < c.numBodies && id2 < c.numBodies
    ensures Valid(r)
    ensures r.sorted == c.sorted && r.numBodies == c.numBodies && r.cap == c.cap && r.sweep == c.sweep
    ensures forall k :: 0 <= k < c.cap ==> SameButRect(r.bodies[k], c.bodies[k])
    ensures forall k :: 0 <= k < c.cap && k != id1 && k != id2 ==>
      r.bodies[k] == c.bodies[k] && r.tick[k] == c.tick[k]
    ensures IsStatic(c.bodies[id1]) && IsStatic(c.bodies[id2]) ==> r == c
    ensures !(IsStatic(c.bodies[id1]) && IsStatic(c.bodies[id2])) ==>
      r == ApplyPush(c, id1, id2, Separate(c.bodies[id1], c.bodies[id2]))
  {
    if IsStatic(c.bodies[id1]) && IsStatic(c.bodies[id2]) then c
    else
      ApplyPushFrame(c, id1, id2, Separate(c.bodies[id1], c.bodies[id2]));
      ApplyPush(c, id1, id2, Separate(c.bodies[id1], c.bodies[id2]))
  }

  /** After two distinct bodies that are not both static are resolved, the
      sr_did_body_collide* queries report the contact on both: COLLIDED, the
      side each was met on, and the wall flag for a body whose partner is static. */
  lemma ResolveThenQuery(c: Context, id1: nat, id2: nat)
    requires Valid(c) && id1 < c.numBodies && id2 < c.numBodies && id1 != id2
    requires !(IsStatic(c.bodies[id1]) && IsStatic(c.bodies[id2]))
    ensures var r, p := ResolveBodies(c, id1, id2), Separate(c.bodies[id1], c.bodies[id2]);
      && DidBodyCollide(r, id1, COLLIDED) == 1 && DidBodyCollide(r, id2, COLLIDED) == 1
      && DidBodyCollide(r, id1, DirFlag(p.dir1)) == 1 && DidBodyCollide(r, id2, DirFlag(p.dir2)) == 1
      && (IsStatic(c.bodies[id2]) ==> DidBodyCollide(r, id1, WallFlag(p.dir1)) == 1)
      && (IsStatic(c.bodies[id1]) ==> DidBodyCollide(r, id2, WallFlag(p.dir2)) == 1)
  {
    var p := Separate(c.bodies[id1], c.bodies[id2]);
    var r := ResolveBodies(c, id1, id2);
    GainedHasFlags(c.tick[id1].flags, p.dir1, p.wall1);
    GainedHasFlags(c.tick[id2].flags, p.dir2, p.wall2);
  }

  /** The flags one resolution leaves on a body include its side flag, and its wall flag when set. */
  lemma GainedHasFlags(f: bv32, d: Dir, wall: bool)
    ensures (f | COLLIDED | Gained(d, wall)) & DirFlag(d) != 0
    ensures wall ==> (f | COLLIDED | Gained(d, wall)) & WallFlag(d) != 0
  {
    match d
    case Up =>
    case Right =>
    case Down =>
    case Left =>
  }
}
