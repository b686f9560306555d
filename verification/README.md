# srect in Dafny

This is a model of the core of `srect.h`, a single-header 2D collision engine for axis-aligned boxes. It covers five parts:

- **The body store (`sr_Context`).** Three parallel arrays (bodies, the sort permutation and per-tick data), plus a body count, a capacity and a sweep axis. Bodies are registered with capacity doubling, and the store can be cleared.
- **The body operations.** Creation from one of nine anchor locations, placing, translating, and the read-only queries, including the `sr_did_body_collide*` family.
- **The broad phase.** The stable insertion sort of the permutation by lower edge, and the sweep of `sr_resolve_collisions`, with its early `break` and its skipping of flagged bodies.
- **The narrow phase.** `sr_resolve_bodies` pushes two overlapping boxes apart along the axis of least penetration, weighted by priority, and records flags.
- **The overlap predicate.** A closed-interval test.

Coordinates are exact `real`s. Flag words are `bv32`, using the source's bit values. The priority is a 32-bit `Int32`, and `0x7FFF_FFFF` marks a static body.

The store is an immutable datatype: every operation returns a new store. Allocation failure is passed in as a boolean `allocOk`.

The sweep is a `method` with the source's two nested loops. It returns the updated store together with the trace of the sorted positions it resolved. `Sweep.Replay` rebuilds the store from that trace, and `Sweep.Justified` says that each pair in the trace was in contact when it was resolved.

The comparisons the sweep makes are described independently of the loops:

- `Sweep.Before` is the order in which pairs of sorted positions are compared.
- `Sweep.StateAt` is the store at the moment a pair is compared: the replay of the trace's earlier pairs.
- `Sweep.Reached` says the sweep gets to a pair. The row's body takes part, and the early exit fires neither at that pair nor at any earlier one of the row, each judged in the store of its own moment.
- `Sweep.ContactWhenCompared` says a pair was in contact in the store of its moment.
- `Sweep.Exact` ties these to a trace up to a point of the sweep. The trace is in comparison order, holds only reached pairs, and holds every reached pair that was in contact when compared.

Modules follow the source's layers:

| file | module | contents |
|---|---|---|
| `geometry.dfy` | `Geometry` | vectors, rectangles, overlap, penetration |
| `bodies.dfy` | `Bodies` | flags, bodies, tick data, anchors |
| `store.dfy` | `Store` | the context and the per-body API |
| `narrow.dfy` | `Narrow` | `sr_resolve_bodies` |
| `sort.dfy` | `Sort` | `sr_stable_sort` |
| `sweep.dfy` | `Sweep` | `sr_resolve_collisions` |

## Model

| member | source | states |
|---|---|---|
| Geometry.Translate | srect.h:225-230 | Moving a box by `d` shifts both corners and the centre by exactly `d`, and keeps its width and height. |
| Geometry.OverlapIffSharedPoint | srect.h:221-223 | For well-formed boxes, the overlap test holds exactly when the two closed boxes share a point. |
| Geometry.OverlapIffPenetration | srect.h:221-223 | The overlap test agrees with the resolver's penetration depths: two boxes overlap exactly when neither the x nor the y depth is negative. |
| Geometry.OverlapSymmetric | srect.h:221-223 | Overlap does not depend on argument order. |
| Geometry.ApartOnAxis | srect.h:221-223 | A box whose lower edge lies beyond another's upper edge on either axis does not overlap it. This is the fact the sweep's early exit relies on. |
| Geometry.PushApartEndsPenetration | srect.h:254-265 | Two overlapping boxes, moved apart along one axis by their depth there and in the direction their centres already lie apart, are left touching: the depth on that axis is zero and the other axis's depth is unchanged. |
| Bodies.AnchorOffset | srect.h:402-439 | Each of the nine anchors gives an offset of zero, half or all of the width, and zero, half or all of the height, by column and row of the anchor. |
| Bodies.MakeBody | srect.h:395-447 | The new body's box has the requested dimensions. Its position (min corner plus offset) is the requested position, and it is the named point of the box: corner, edge midpoint or centre. |
| Store.ContextInit | srect.h:362-379 | Init reports `OutOfMemory` (the source's -1) exactly when the allocation fails. Otherwise it is `Ready` with a store that is empty and valid, with capacity `expected` and the requested sweep axis. |
| Store.Clear | srect.h:391-393 | Clearing only resets the body count. Capacity, sweep axis and all three arrays are kept as they were: the bodies, the permutation and the stale tick data. |
| Store.ClearInvalidatesHandles | srect.h:391-393 | After a clear, every id is rejected. |
| Store.SourceGrowthLeavesNoRoom | srect.h:461-480 | Under the source's growth rule (`num_bodies * 2` when full), the write to slot `num_bodies` lands inside the storage exactly when the capacity is non-zero. The store `sr_context_init` makes for 0 expected bodies is full and has no room for its first body. |
| Store.GrownCapacity | srect.h:474 | The corrected growth always leaves room for one more body, and it equals the source's doubling whenever the store is non-empty. |
| Store.Grow | srect.h:461-476 | Growing a full store preserves every registered body, permutation entry and tick record, and yields a valid store with the grown capacity. |
| Store.Register | srect.h:449-483 | The id is the old body count: the body is stored there, the permutation maps the id to itself, the count goes up by one, and earlier entries are kept. Capacity changes only when the store was full. Without growth the tick data is not written. The result is -1, with nothing changed, exactly when the store is full and the allocation fails. |
| Store.RegisterKeepsEarlierBodies | srect.h:461-480 | Registration, with or without growth, leaves every earlier id's box and tick data readable and unchanged. |
| Store.NewBody | srect.h:395-447 | Creating a body returns the next id, and the position and dimensions read back are exactly the requested ones. It fails only when growth is needed and the allocation is refused. |
| Store.Place | srect.h:485-504 | Placing returns -1 and changes nothing for an unknown id. It returns 0 and changes nothing for a disabled body. Otherwise only that body's box changes: its size is kept and its position becomes `pos`. |
| Store.PlaceThenGetPos | srect.h:485-530 | Reading the position back after a place gives the placed position for every anchor kind, and the dimensions are unchanged. |
| Store.TranslateBody | srect.h:506-519 | Translating returns -1 and changes nothing for an unknown id, and returns 0 and changes nothing for a disabled or static body. Otherwise only that body's box changes: both corners and the position move by `d`, and the size is kept. |
| Store.GetBodyPos | srect.h:521-530 | The query is rejected exactly for ids outside the store. The position it returns is the min corner plus the body's offset. |
| Store.GetBodyDim | srect.h:543-552 | The query is rejected exactly for unknown ids. The returned dimensions carry the min corner to the max corner. |
| Store.GetBodyRect | srect.h:565-572 | The query is rejected exactly for unknown ids. Otherwise it returns the body's box. |
| Store.DoBodiesOverlap | srect.h:587-593 | The result is -1 exactly when either id is unknown. Otherwise it is 1 exactly when the boxes overlap, which is exactly when both penetration depths are non-negative. |
| Store.GetBodyToBodyVector | srect.h:595-604 | The query is rejected exactly when either id is unknown. The vector carries the first body's centre onto the second's. |
| Store.BodyToBodyVectorAntisymmetric | srect.h:595-604 | Swapping the two ids negates the vector. |
| Store.GetBodyTickData | srect.h:617-625 | The query is rejected exactly for unknown ids. Otherwise it returns that body's tick record. |
| Store.DidBodyCollide | srect.h:627-745 | The result is -1 exactly for unknown ids. Otherwise it is 1 exactly when the tick flags contain a bit of the queried mask, and 0 otherwise. |
| Narrow.Gained | srect.h:267-359 | The flags a body gains from one push are its one direction bit and, when pushed off a static body, the matching wall bit. No other bits are set. |
| Narrow.Separate | srect.h:254-359 | Separation is along y exactly when the x depth exceeds the y depth, and nothing moves on the other axis. A strictly lower-priority body moves the full depth and the other body does not move. Equal priorities split the depth in opposite directions. A static body never moves. The two bodies record opposite directions, and a wall flag is recorded only for a body whose partner is static. |
| Narrow.SeparateTouching | srect.h:267-359 | The side recorded for a body is the side on which the boxes touch after the push. |
| Narrow.SeparateMovesApart | srect.h:254-359 | The relative move on the separation axis is exactly the depth there. It points in the direction the centres already lie apart. |
| Narrow.SeparateEndsPenetration | srect.h:232-359 | After the push, overlapping boxes that are not both static are left exactly touching on the separation axis, with the other axis's depth unchanged. |
| Narrow.ApplyPush | srect.h:248-359 | Both bodies gain COLLIDED. Each body's tick custom flags take in its partner's custom flags. For two distinct bodies, each box is translated by its move and each gains exactly its direction and wall flags. |
| Narrow.ApplyPushFrame | srect.h:232-359 | A resolution changes only the boxes and tick data of its two bodies. |
| Narrow.ApplyPushSameBody | srect.h:232-359 | A body resolved against itself receives both moves and both sets of flags. |
| Narrow.ResolveBodies | srect.h:232-360 | Two static bodies leave the store unchanged. Otherwise the store is the chosen push applied to both bodies, and nothing else changes. |
| Narrow.ResolveThenQuery | srect.h:627-745 | After two distinct bodies that are not both static are resolved, the collide queries report COLLIDED and each body's side for both bodies, and the wall flag for a body whose partner is static. |
| Sort.Keys | srect.h:174-188 | The key of each id is its body's lower edge on the sweep axis. |
| Sort.InsertionPass | srect.h:198-204 | One inner pass takes element `i` out and shifts the larger-keyed elements before it up one place. The element lands after the last one whose key is not greater than its own. |
| Sort.ShiftLarger | srect.h:196-202 | Walking down from `i - 1`, every element whose key exceeds that of element `i` moves up one place, and the walk stops at the first not-greater key. Elements before the stop and after `i` stay in place. |
| Sort.InsertStep | srect.h:195-205 | Inserting after the last not-greater key keeps a sorted prefix sorted, permuted and stable. |
| Sort.PassExtendsPrefix | srect.h:195-205 | One outer iteration extends the stably sorted prefix by one element and leaves the rest untouched. |
| Sort.SortStep | srect.h:195-205 | The same, for the method that runs one outer iteration. |
| Sort.StableSort | srect.h:190-219 | The first `num_bodies` entries end up a permutation of their previous contents, ascending by key, with equal keys in their previous relative order. Later entries are untouched. |
| Sweep.ZeroTicks | srect.h:750 | Tick data of the registered bodies is cleared. Every other slot is kept. |
| Sweep.PruneSound | srect.h:761-763 | While the permutation is sorted, once a body starts beyond body `i`'s upper edge on the sweep axis, neither it nor any later body can overlap body `i`. |
| Sweep.Visit | srect.h:764-768 | When body `j` takes part in the sweep and overlaps body `i` in the current store, the store becomes that pair's resolution and the pair is appended to the trace. Otherwise store and trace are unchanged. Either way the trace stays exact one comparison further. |
| Sweep.ReachNext | srect.h:761-763 | The sweep gets to `(i, j)` when it got to the previous pair of the row and the early exit does not fire at `j` in the current store. |
| Sweep.PrunedRow | srect.h:761-763 | Once the early exit fires at `(i, j)`, the sweep reaches no later pair of row `i`. |
| Sweep.ExactSnoc | srect.h:766-768 | Appending a reached pair to an exact trace keeps it exact one comparison further. |
| Sweep.ExactSkip | srect.h:764-768 | Passing a pair that was not in contact when compared keeps the trace exact one comparison further. |
| Sweep.ScanFrom | srect.h:761-771 | The inner loop appends only pairs starting at `i` and keeps the trace justified. The trace is left exact at the start of the next row. If nothing has been resolved yet, nothing after `i` overlaps it. |
| Sweep.SkipRow | srect.h:758-760 | A row whose body sits out the sweep adds no pair and keeps the trace exact at the start of the next row. |
| Sweep.SweepRow | srect.h:757-771 | One pass of the outer loop keeps its invariant one row further: the store is the replay of a justified trace, and the trace is exact at the start of the next row. |
| Sweep.SweepAll | srect.h:757-791 | The outer loops keep the store equal to the replay of a justified trace of forward pairs. The trace is empty exactly when no two participating bodies overlap. At the end the trace is exact past the last row. |
| Sweep.ExactComplete | srect.h:757-791 | A trace exact past the last row is ordered, holds only reached pairs, and holds every reached pair that was in contact when compared. |
| Sweep.PermKeepsIdPerm | srect.h:190-219 | Reordering the registered part of an id permutation leaves it an id permutation. |
| Sweep.ResolveCollisions | srect.h:747-795 | The permutation becomes a stable sort of the previous one by lower edge. Only the boxes and tick data of participating bodies change: non-participants stay as they were with cleared ticks. The store is the replay of a trace in which each pair was in contact when resolved. Nothing is resolved exactly when no two participating bodies overlap. Tick data is set only on bodies of resolved pairs, and always with COLLIDED. The trace is in comparison order and holds only pairs the sweep reaches. It holds every reached pair that was in contact when compared, so it is exactly the pairs the source resolves. |
| Sweep.SweepOutcome | srect.h:747-795 | The sweep invariant, stated for the store before the tick data was cleared and the sort ran. |
| Sweep.FirstContact | srect.h:767-768 | The first pair the sweep resolves overlapped before anything moved. |

## Left out

- `sr_fabsf` (srect.h:165-172) reinterprets float bits. It is modelled as the real absolute value.
- IEEE-754 single-precision rounding. All coordinates are exact reals, so exact equalities such as the position round trip and the zero depth after a push hold only in this model.
- The allocator macros, `realloc`, `memcpy`, `memset` and the co-allocated array layout. The arrays are sequences as long as the capacity. A refused allocation is the `allocOk` parameter.
- The preprocessor width checks, `SR_ASSERT` and `sr_context_deinit`. These are teardown and plumbing with no behaviour to state.
- The `ctx == NULL` check in `sr_register_body`. The store is a value and cannot be null.
- Negative ids and a negative expected body count. Ids and counts are `nat`, because the source only compares `id >= num_bodies`.
- The `_comp` variants of the getters. They compute the same values as the getters modelled here.
- Store.DidBodyCollide stands for all the `sr_did_body_collide*` wrappers through a mask argument: COLLIDED, one direction or wall bit, or both wall bits for `sr_did_body_collide_wall`. Each wrapper is one choice of mask.
- 32-bit overflow of `num_bodies` and of the doubled capacity. Counts are unbounded.
- The contents of storage slots beyond the body count. The model fills them with a placeholder.
- Sort.StableSort reads its keys from a table computed once from the boxes. This is equivalent, because the sort moves ids and never boxes.
- Narrow.Separate records the side as a direction plus a wall boolean. Narrow.Gained turns these into the source's exact bits.
- The x sweep ignores `SR_NO_COLLISION` while the y sweep honours it (srect.h:758, 777, 783). This asymmetry is modelled as written.
- Sweep.ResolveCollisions does not promise that every pair overlapping after the tick was resolved, because the source does not resolve every such pair. Once a resolution has moved boxes, the permutation need not stay sorted. The early exit can then fire before a pair that has come to overlap. The model states exactly which pairs the sweep reaches (`Sweep.Reached`), and resolves each of them that is in contact when compared. It says nothing more about pairs behind an early exit, or about pairs that come to overlap only after their comparison.

## Findings

| source | as written | input that shows it | evidently intended | confidence | as-written member | corrected member |
|---|---|---|---|---|---|---|
| srect.h:474 | When the store is full, the new capacity is `num_bodies * 2`. | `sr_context_init` with 0 expected bodies, then `sr_register_body`: the capacity stays 0 and the body is written at index 0, outside the storage. | Growing leaves room for at least one more body. | not executed | Store.SourceGrowthLeavesNoRoom | Store.GrownCapacity |
