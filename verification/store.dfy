/** The body store (sr_Context) and the operations on single bodies: creation,
    registration with capacity doubling, clearing, placing, translating, and the
    read-only queries. The three parallel arrays are sequences whose length is the
    capacity; the slots at and beyond `numBodies` hold stale or unspecified data
    that no operation reads. */
module Store {
  import opened Geometry
  import opened Bodies

  datatype Context = Context(
    bodies: seq<Body>,
    sorted: seq<int>,
    tick: seq<TickData>,
    numBodies: nat,
    cap: nat,
    sweep: Axis)

  /** Outcome of a query: the source writes its out-parameter and returns 0, or returns -1. */
  datatype Lookup<T> = Found(value: T) | InvalidHandle

  /** Outcome of sr_context_init: a ready store (0), or -1 when the allocation is refused. */
  datatype InitResult = Ready(store: Context) | OutOfMemory

  /** `s[..n]` is a permutation of the ids 0 .. n-1. */
  predicate IdPerm(s: seq<int>, n: nat) {
    && n <= |s|
    && (forall k :: 0 <= k < n ==> 0 <= s[k] < n)
    && (forall p, q :: 0 <= p < q < n ==> s[p] != s[q])
  }

  predicate Valid(c: Context) {
    && |c.bodies| == c.cap && |c.sorted| == c.cap && |c.tick| == c.cap
    && c.numBodies <= c.cap
    && IdPerm(c.sorted, c.numBodies)
  }

  /** Placeholder contents for storage slots that hold no registered body. */
  const Unused := Body(Rect(Zero, Zero), Zero, 0, 0, 0)

  /** sr_context_init: an empty store with room for `expected` bodies, or
      failure (-1 in the source) when the allocation is refused. */
  function ContextInit(expected: nat, sweep: Axis, allocOk: bool): (r: InitResult)
    ensures r.Ready? <==> allocOk
    ensures r.Ready? ==> Valid(r.store) && r.store.numBodies == 0 && r.store.cap == expected
                         && r.store.sweep == sweep
  {
    if !allocOk then OutOfMemory
    else Ready(Context(seq(expected, _ => Unused), seq(expected, _ => 0), seq(expected, _ => NoContact),
                       0, expected, sweep))
  }

  /** sr_context_clear: every handle becomes invalid; the three arrays, the
      capacity and the sweep axis stay as they were (stale tick data included). */
  function Clear(c: Context): (r: Context)
    requires Valid(c)
    ensures Valid(r) && r.numBodies == 0
    ensures r.cap == c.cap && r.sweep == c.sweep
    ensures r.bodies == c.bodies && r.sorted == c.sorted && r.tick == c.tick
  {
    c.(numBodies := 0)
  }

  /** The capacity the source grows a full store to: twice the body count. */
  function SourceGrownCapacity(n: nat): nat { 2 * n }

  /** The capacity sr_register_body leaves before it writes the new body at
      index `numBodies`: the source's doubling when the store is full. */
  function SourceCapacityAfterGrowth(c: Context): nat {
    if c.numBodies >= c.cap then SourceGrownCapacity(c.numBodies) else c.cap
  }

  /** With the source's doubling, the slot the new body is written to lies inside
      the storage exactly when the capacity is not 0; a store initialised for 0
      bodies is such a store, so its first registration writes outside the storage. */
  lemma SourceGrowthLeavesNoRoom(c: Context, sweep: Axis)
    requires Valid(c)
    ensures c.numBodies < SourceCapacityAfterGrowth(c) <==> c.cap > 0
    ensures var e := ContextInit(0, sweep, true).store;
      e.numBodies >= e.cap && !(e.numBodies < SourceCapacityAfterGrowth(e))
  {
    if c.numBodies >= c.cap {
      assert c.numBodies == c.cap;
    }
  }

  /** The capacity a full store grows to: room for at least one more body, and
      the source's doubling whenever the store is non-empty. */
  function GrownCapacity(n: nat): (c: nat)
    ensures c > n
    ensures n > 0 ==> c == SourceGrownCapacity(n)
  {
    if n == 0 then 1 else 2 * n
  }

  /** Storage after growth: registered entries kept, new slots placeholders. */
  function Grow(c: Context): (r: Context)
    requires Valid(c) && c.numBodies == c.cap
    ensures Valid(r) && r.cap == GrownCapacity(c.cap) && r.numBodies == c.numBodies
    ensures r.sweep == c.sweep
    ensures r.bodies[..c.cap] == c.bodies && r.sorted[..c.cap] == c.sorted && r.tick[..c.cap] == c.tick
  {
    var extra := GrownCapacity(c.cap) - c.cap;
    c.(bodies := c.bodies + seq(extra, _ => Unused),
       sorted := c.sorted + seq(extra, _ => 0),
       tick := c.tick + seq(extra, _ => NoContact),
       cap := GrownCapacity(c.cap))
  }

  /** sr_register_body: returns the new body's id (the old body count) and the
      updated store, or -1 and the store untouched when growth is needed and the
      allocation is refused. */
  function Register(c: Context, b: Body, allocOk: bool): (r: (Context, int))
    requires Valid(c)
    ensures Valid(r.0)
    ensures r.1 == -1 <==> c.numBodies == c.cap && !allocOk
    ensures r.1 == -1 ==> r.0 == c
    ensures r.1 != -1 ==>
      && r.1 == c.numBodies
      && r.0.numBodies == c.numBodies + 1
      && r.0.bodies[r.1] == b
      && r.0.sorted[r.1] == r.1
      && r.0.sweep == c.sweep
      && r.0.cap == (if c.numBodies < c.cap then c.cap else GrownCapacity(c.numBodies))
      && r.1 < r.0.cap
      && (c.numBodies < c.cap ==> r.0.tick == c.tick)
      && (forall k :: 0 <= k < c.numBodies ==>
            r.0.bodies[k] == c.bodies[k] && r.0.sorted[k] == c.sorted[k] && r.0.tick[k] == c.tick[k])
  {
    if c.numBodies >= c.cap && !allocOk then (c, -1)
    else
      var g := if c.numBodies >= c.cap then Grow(c) else c;
      var id: int := c.numBodies;
      (g.(bodies := g.bodies[id := b], sorted := g.sorted[id := id], numBodies := id + 1), id)
  }

  /** sr_new_body: builds the body for an anchor position and registers it. */
  function NewBody(c: Context, pos: Vec2, dim: Vec2, loc: Anchor, priority: Int32, flags: bv32,
                   customFlags: bv32, allocOk: bool): (r: (Context, int))
    requires Valid(c)
    ensures Valid(r.0)
    ensures r.1 == -1 <==> c.numBodies == c.cap && !allocOk
    ensures r.1 != -1 ==> r.1 == c.numBodies && GetBodyPos(r.0, r.1) == Found(pos)
                          && GetBodyDim(r.0, r.1) == Found(dim)
  {
    Register(c, MakeBody(pos, dim, loc, priority, flags, customFlags), allocOk)
  }

  /** sr_place_body: moves the body so that its anchor lands on `pos`, keeping its
      size. Returns -1 for an unknown id and 0 otherwise; a disabled body stays put. */
  function Place(c: Context, id: nat, pos: Vec2): (r: (Context, int))
    requires Valid(c)
    ensures Valid(r.0)
    ensures id >= c.numBodies ==> r == (c, -1)
    ensures id < c.numBodies && IsDisabled(c.bodies[id]) ==> r == (c, 0)
    ensures id < c.numBodies && !IsDisabled(c.bodies[id]) ==>
      && r.1 == 0
      && r.0 == c.(bodies := r.0.bodies)
      && |r.0.bodies| == |c.bodies|
      && (forall k :: 0 <= k < |c.bodies| && k != id ==> r.0.bodies[k] == c.bodies[k])
      && SameButRect(r.0.bodies[id], c.bodies[id])
      && Size(r.0.bodies[id].r) == Size(c.bodies[id].r)
      && Position(r.0.bodies[id]) == pos
  {
    if id >= c.numBodies then (c, -1)
    else if IsDisabled(c.bodies[id]) then (c, 0)
    else
      var b := c.bodies[id];
      var size := Size(b.r);
      var min := Sub(pos, b.offset);
      (c.(bodies := c.bodies[id := b.(r := Rect(min, Add(size, min)))]), 0)
  }

  /** sr_translate_body: shifts the body by `d`. Returns -1 for an unknown id and
      0 otherwise; disabled and static bodies stay put. */
  function TranslateBody(c: Context, id: nat, d: Vec2): (r: (Context, int))
    requires Valid(c)
    ensures Valid(r.0)
    ensures id >= c.numBodies ==> r == (c, -1)
    ensures id < c.numBodies && (IsDisabled(c.bodies[id]) || IsStatic(c.bodies[id])) ==> r == (c, 0)
    ensures id < c.numBodies && !IsDisabled(c.bodies[id]) && !IsStatic(c.bodies[id]) ==>
      && r.1 == 0
      && r.0 == c.(bodies := r.0.bodies)
      && |r.0.bodies| == |c.bodies|
      && (forall k :: 0 <= k < |c.bodies| && k != id ==> r.0.bodies[k] == c.bodies[k])
      && SameButRect(r.0.bodies[id], c.bodies[id])
      && Size(r.0.bodies[id].r) == Size(c.bodies[id].r)
      && Sub(r.0.bodies[id].r.min, c.bodies[id].r.min) == d
      && Sub(r.0.bodies[id].r.max, c.bodies[id].r.max) == d
      && Sub(Position(r.0.bodies[id]), Position(c.bodies[id])) == d
  {
    if id >= c.numBodies then (c, -1)
    else if IsDisabled(c.bodies[id]) || IsStatic(c.bodies[id]) then (c, 0)
    else
      var b := c.bodies[id];
      (c.(bodies := c.bodies[id := b.(r := Translate(b.r, d))]), 0)
  }

  /** sr_get_body_pos: the anchor position. */
  function GetBodyPos(c: Context, id: nat): (r: Lookup<Vec2>)
    requires Valid(c)
    ensures r.InvalidHandle? <==> id >= c.numBodies
    ensures r.Found? ==> Sub(r.value, c.bodies[id].r.min) == c.bodies[id].offset
  {
    if id >= c.numBodies then InvalidHandle else Found(Position(c.bodies[id]))
  }

  /** sr_get_body_dim: width and height. */
  function GetBodyDim(c: Context, id: nat): (r: Lookup<Vec2>)
    requires Valid(c)
    ensures r.InvalidHandle? <==> id >= c.numBodies
    ensures r.Found? ==> Add(c.bodies[id].r.min, r.value) == c.bodies[id].r.max
  {
    if id >= c.numBodies then InvalidHandle else Found(Size(c.bodies[id].r))
  }

  /** sr_get_body_rect. */
  function GetBodyRect(c: Context, id: nat): (r: Lookup<Rect>)
    requires Valid(c)
    ensures r.InvalidHandle? <==> id >= c.numBodies
    ensures r.Found? ==> r.value == c.bodies[id].r
  {
    if id >= c.numBodies then InvalidHandle else Found(c.bodies[id].r)
  }

  /** sr_do_bodies_overlap: -1 for an unknown id, else 1 or 0. */
  function DoBodiesOverlap(c: Context, id1: nat, id2: nat): (r: int)
    requires Valid(c)
    ensures r == -1 <==> id1 >= c.numBodies || id2 >= c.numBodies
    ensures r != -1 ==> (r == 1 <==> RectsOverlap(c.bodies[id1].r, c.bodies[id2].r))
    ensures r != -1 ==> (r == 1 <==> Penetration(c.bodies[id1].r, c.bodies[id2].r).x >= 0.0
                                     && Penetration(c.bodies[id1].r, c.bodies[id2].r).y >= 0.0)
    ensures r in {-1, 0, 1}
  {
    if id1 >= c.numBodies || id2 >= c.numBodies then -1
    else
      OverlapIffPenetration(c.bodies[id1].r, c.bodies[id2].r);
      if RectsOverlap(c.bodies[id1].r, c.bodies[id2].r) then 1 else 0
  }

  /** sr_get_body_to_body_vector: the displacement from the centre of `id1` to the centre of `id2`. */
  function GetBodyToBodyVector(c: Context, id1: nat, id2: nat): (r: Lookup<Vec2>)
    requires Valid(c)
    ensures r.InvalidHandle? <==> id1 >= c.numBodies || id2 >= c.numBodies
    ensures r.Found? ==> Add(Midpoint(c.bodies[id1].r), r.value) == Midpoint(c.bodies[id2].r)
  {
    if id1 >= c.numBodies || id2 >= c.numBodies then InvalidHandle
    else Found(Sub(Midpoint(c.bodies[id2].r), Midpoint(c.bodies[id1].r)))
  }

  /** sr_get_body_tick_data. */
  function GetBodyTickData(c: Context, id: nat): (r: Lookup<TickData>)
    requires Valid(c)
    ensures r.InvalidHandle? <==> id >= c.numBodies
    ensures r.Found? ==> r.value == c.tick[id]
  {
    if id >= c.numBodies then InvalidHandle else Found(c.tick[id])
  }

  /** The sr_did_body_collide* family, one function for all of them: -1 for an
      unknown id, else 1 when the tick data holds any of the bits in `mask`
      (COLLIDED, one direction or wall bit, or both wall bits for the wall test). */
  function DidBodyCollide(c: Context, id: nat, mask: bv32): (r: int)
    requires Valid(c)
    ensures r == -1 <==> id >= c.numBodies
    ensures r != -1 ==> (r == 1 <==> c.tick[id].flags & mask != 0)
    ensures r in {-1, 0, 1}
  {
    if id >= c.numBodies then -1
    else if c.tick[id].flags & mask != 0 then 1 else 0
  }

  /** Placing a body and reading its position back gives the requested position,
      for every anchor kind (the offset is subtracted and added again). */
  lemma PlaceThenGetPos(c: Context, id: nat, pos: Vec2)
    requires Valid(c) && id < c.numBodies && !IsDisabled(c.bodies[id])
    ensures GetBodyPos(Place(c, id, pos).0, id) == Found(pos)
    ensures GetBodyDim(Place(c, id, pos).0, id) == GetBodyDim(c, id)
  {
  }

  /** The vector between two bodies reverses when their roles swap. */
  lemma BodyToBodyVectorAntisymmetric(c: Context, id1: nat, id2: nat)
    requires Valid(c) && id1 < c.numBodies && id2 < c.numBodies
    ensures GetBodyToBodyVector(c, id1, id2).value == Neg(GetBodyToBodyVector(c, id2, id1).value)
  {
  }

  /** After a clear no id is valid any more. */
  lemma ClearInvalidatesHandles(c: Context, id: nat)
    requires Valid(c)
    ensures GetBodyPos(Clear(c), id) == InvalidHandle
  {
  }

  /** Registering into a store preserves every earlier id's body and its
      registration order, whether or not the storage had to grow. */
  lemma RegisterKeepsEarlierBodies(c: Context, b: Body, allocOk: bool, id: nat)
    requires Valid(c) && id < c.numBodies
    ensures GetBodyRect(Register(c, b, allocOk).0, id) == GetBodyRect(c, id)
    ensures GetBodyTickData(Register(c, b, allocOk).0, id) == GetBodyTickData(c, id)
  {
  }
}
