/** The per-tick entry point (sr_resolve_collisions): clear the tick data, sort
    the id permutation along the sweep axis, then sweep it, resolving every pair
    of participating bodies whose boxes overlap at the moment they are compared.
    The sweep reports the sorted positions of the pairs it resolved, in order;
    `Replay` rebuilds the resulting store from that trace. */
module Sweep {
  import opened Geometry
  import opened Bodies
  import opened Store
  import opened Narrow
  import opened Sort

  /** The body at position `p` of the sorted order. */
  function At(c: Context, p: nat): Body
    requires Valid(c) && p < c.numBodies
  {
    c.bodies[c.sorted[p]]
  }

  /** Tick data of every registered body reset to zero; the rest untouched. */
  function ZeroTicks(tick: seq<TickData>, n: nat): (r: seq<TickData>)
    ensures |r| == |tick|
    ensures forall k :: 0 <= k < |tick| ==> r[k] == if k < n then NoContact else tick[k]
  {
    seq(|tick|, k requires 0 <= k < |tick| => if k < n then NoContact else tick[k])
  }

  /** The store as the sweep starts: ticks cleared and the permutation replaced by `sorted`. */
  function Prepared(c: Context, sorted: seq<int>): Context {
    c.(sorted := sorted, tick := ZeroTicks(c.tick, c.numBodies))
  }

  /** The resolve call the sweep makes for sorted positions `p < q`. */
  function ResolveAt(c: Context, pq: (nat, nat)): Context {
    if Valid(c) && pq.0 < pq.1 < c.numBodies then ResolveBodies(c, c.sorted[pq.0], c.sorted[pq.1])
    else c
  }

  /** The store after resolving the pairs of `pairs` in order. */
  function Replay(c: Context, pairs: seq<(nat, nat)>): Context
    decreases |pairs|
  {
    if pairs == [] then c
    else ResolveAt(Replay(c, pairs[..|pairs| - 1]), pairs[|pairs| - 1])
  }

  /** The pair at sorted positions `p < q` is one the sweep may resolve in store
      `c`: both bodies take part in the sweep and their boxes overlap. */
  predicate Contact(c: Context, p: nat, q: nat) {
    && Valid(c) && p < q < c.numBodies
    && Participates(At(c, p), c.sweep) && Participates(At(c, q), c.sweep)
    && RectsOverlap(At(c, p).r, At(c, q).r)
  }

  /** Every pair of the trace was in contact at the moment it was resolved. */
  ghost predicate Justified(c: Context, pairs: seq<(nat, nat)>)
    decreases |pairs|
  {
    pairs == [] ||
    (Justified(c, pairs[..|pairs| - 1])
     && var d, pq := Replay(c, pairs[..|pairs| - 1]), pairs[|pairs| - 1];
     Valid(d) && pq.0 < pq.1 < d.numBodies && Contact(d, pq.0, pq.1))
  }

  /** No two participating bodies of `c` overlap. */
  ghost predicate NoContacts(c: Context)
    requires Valid(c)
  {
    forall p, q :: 0 <= p < q < c.numBodies ==> !Contact(c, p, q)
  }

  /** The parts of the store the sweep may not change: everything but the
      boxes and tick data of registered participating bodies. */
  ghost predicate Framed(c0: Context, c: Context)
  {
    && Valid(c0) && Valid(c)
    && c.sorted == c0.sorted && c.numBodies == c0.numBodies && c.cap == c0.cap && c.sweep == c0.sweep
    && (forall k :: 0 <= k < c0.cap ==> SameButRect(c.bodies[k], c0.bodies[k]))
    && (forall k :: 0 <= k < c0.cap && (k >= c0.numBodies || !Participates(c0.bodies[k], c0.sweep)) ==>
          c.bodies[k] == c0.bodies[k] && c.tick[k] == c0.tick[k])
  }

  /** The ids of the bodies at the sorted positions of the trace. */
  function TraceIds(sorted: seq<int>, pairs: seq<(nat, nat)>): set<int>
    decreases |pairs|
  {
    if pairs == [] then {}
    else
      var pq := pairs[|pairs| - 1];
      TraceIds(sorted, pairs[..|pairs| - 1])
        + (if pq.0 < |sorted| then {sorted[pq.0]} else {})
        + (if pq.1 < |sorted| then {sorted[pq.1]} else {})
  }

  /** Tick data differs from the start only on bodies of the trace, and there it carries COLLIDED. */
  ghost predicate Marked(c0: Context, c: Context, pairs: seq<(nat, nat)>)
  {
    && |c0.tick| == |c.tick| == c0.cap
    && forall k :: 0 <= k < c0.cap && c.tick[k] != c0.tick[k] ==>
         c.tick[k].flags & COLLIDED != 0 && k in TraceIds(c0.sorted, pairs)
  }

  /** What the sweep keeps true while it runs from the prepared store `c0`. */
  ghost predicate SweepInv(c0: Context, c: Context, pairs: seq<(nat, nat)>)
  {
    && Framed(c0, c)
    && Marked(c0, c, pairs)
    && (forall t :: 0 <= t < |pairs| ==> pairs[t].0 < pairs[t].1 < c0.numBodies)
    && c == Replay(c0, pairs)
    && Justified(c0, pairs)
    && (pairs == [] ==> c == c0)
  }

  /** The order in which the sweep compares pairs of sorted positions: by the
      first position, then by the second. */
  predicate Before(a: (nat, nat), b: (nat, nat)) {
    a.0 < b.0 || (a.0 == b.0 && a.1 < b.1)
  }

  /** The trace lists its pairs in strictly increasing visiting order. */
  predicate Ordered(pairs: seq<(nat, nat)>) {
    forall s, t :: 0 <= s < t < |pairs| ==> Before(pairs[s], pairs[t])
  }

  /** How many leading pairs of the trace were visited before `pq`. */
  function Lead(pairs: seq<(nat, nat)>, pq: (nat, nat)): (k: nat)
    ensures k <= |pairs|
  {
    if pairs == [] || !Before(pairs[0], pq) then 0 else 1 + Lead(pairs[1..], pq)
  }

  /** The store as it stood when the sweep compared the pair `pq`: the start
      store with the pairs of the trace visited before `pq` resolved. */
  function StateAt(c0: Context, pairs: seq<(nat, nat)>, pq: (nat, nat)): Context {
    Replay(c0, pairs[..Lead(pairs, pq)])
  }

  /** The early exit fires: the body at `q` starts beyond the upper edge of the
      body at `p` on the sweep axis. */
  predicate Prunes(c: Context, p: nat, q: nat) {
    Valid(c) && p < q < c.numBodies && Lo(At(c, q).r, c.sweep) > Hi(At(c, p).r, c.sweep)
  }

  /** The sweep compares the pair (p, q): body p takes part, and the early exit
      fired for none of the bodies p + 1 .. q when each was compared with it. */
  predicate Reached(c0: Context, pairs: seq<(nat, nat)>, p: nat, q: nat)
    decreases q
  {
    && Valid(c0) && p < q < c0.numBodies
    && Participates(At(c0, p), c0.sweep)
    && !Prunes(StateAt(c0, pairs, (p, q)), p, q)
    && (q == p + 1 || Reached(c0, pairs, p, q - 1))
  }

  /** The sweep reached every pair of row `p` in front of position `q`. */
  predicate ReachedBelow(c0: Context, pairs: seq<(nat, nat)>, p: nat, q: nat)
  {
    q == p + 1 || (p + 1 < q && Reached(c0, pairs, p, q - 1))
  }

  /** Pair (p, q) was in contact when the sweep compared it: in the store the
      trace's earlier pairs leave behind. */
  predicate ContactWhenCompared(c0: Context, pairs: seq<(nat, nat)>, p: nat, q: nat) {
    Contact(StateAt(c0, pairs, (p, q)), p, q)
  }

  /** A reached pair leaves every position up to the next one reached. */
  lemma ReachedStep(c0: Context, pairs: seq<(nat, nat)>, p: nat, q: nat, next: nat)
    requires Reached(c0, pairs, p, q) && next == q + 1
    ensures ReachedBelow(c0, pairs, p, next)
  {
  }

  /** The trace is the sweep's own up to (ci, cj): it is ordered, lies before
      (ci, cj), holds only pairs the sweep reaches, and holds every reached pair
      before (ci, cj) that was in contact at the moment it was compared. */
  ghost predicate Exact(c0: Context, pairs: seq<(nat, nat)>, ci: nat, cj: nat) {
    && Ordered(pairs)
    && (forall t :: 0 <= t < |pairs| ==> Before(pairs[t], (ci, cj)))
    && (forall t {:trigger Reached(c0, pairs, pairs[t].0, pairs[t].1)} ::
          0 <= t < |pairs| ==> Reached(c0, pairs, pairs[t].0, pairs[t].1))
    && CompleteBefore(c0, pairs, ci, cj)
  }

  /** Every reached pair before (ci, cj) that was in contact when compared is in the trace. */
  ghost predicate CompleteBefore(c0: Context, pairs: seq<(nat, nat)>, ci: nat, cj: nat) {
    forall p: nat, q: nat {:trigger ContactWhenCompared(c0, pairs, p, q)} ::
      (Before((p, q), (ci, cj)) && Reached(c0, pairs, p, q) && ContactWhenCompared(c0, pairs, p, q))
      ==> (p, q) in pairs
  }

  /** A pair compared later does not count among those before `pq`. */
  lemma {:induction false} LeadSnoc(pairs: seq<(nat, nat)>, x: (nat, nat), pq: (nat, nat))
    requires !Before(x, pq)
    ensures Lead(pairs + [x], pq) == Lead(pairs, pq)
    decreases |pairs|
  {
    if pairs != [] {
      assert (pairs + [x])[0] == pairs[0];
      assert (pairs + [x])[1..] == pairs[1..] + [x];
      if Before(pairs[0], pq) {
        LeadSnoc(pairs[1..], x, pq);
      }
    }
  }

  /** When every pair comes before `pq`, all of them lead up to it. */
  lemma {:induction false} LeadAll(pairs: seq<(nat, nat)>, pq: (nat, nat))
    requires forall t :: 0 <= t < |pairs| ==> Before(pairs[t], pq)
    ensures Lead(pairs, pq) == |pairs|
    decreases |pairs|
  {
    if pairs != [] {
      assert Before(pairs[0], pq);
      assert forall t :: 0 <= t < |pairs[1..]| ==> pairs[1..][t] == pairs[t + 1];
      LeadAll(pairs[1..], pq);
    }
  }

  /** A pair appended after `pq` does not change the store `pq` was compared in. */
  lemma StateSnoc(c0: Context, pairs: seq<(nat, nat)>, x: (nat, nat), pq: (nat, nat))
    requires !Before(x, pq)
    ensures StateAt(c0, pairs + [x], pq) == StateAt(c0, pairs, pq)
  {
    LeadSnoc(pairs, x, pq);
    var k := Lead(pairs, pq);
    assert (pairs + [x])[..k] == pairs[..k];
  }

  /** The store a pair is compared in, once every pair of the trace precedes it, is the replay of the whole trace. */
  lemma StateAtEnd(c0: Context, pairs: seq<(nat, nat)>, pq: (nat, nat))
    requires forall t :: 0 <= t < |pairs| ==> Before(pairs[t], pq)
    ensures StateAt(c0, pairs, pq) == Replay(c0, pairs)
  {
    LeadAll(pairs, pq);
    assert pairs[..|pairs|] == pairs;
  }

  /** Whether an earlier pair is reached does not depend on pairs appended after it. */
  lemma {:induction false} ReachedSnoc(c0: Context, pairs: seq<(nat, nat)>, x: (nat, nat), p: nat, q: nat)
    requires !Before(x, (p, q))
    ensures Reached(c0, pairs + [x], p, q) == Reached(c0, pairs, p, q)
    decreases q
  {
    StateSnoc(c0, pairs, x, (p, q));
    if q > p + 1 {
      ReachedSnoc(c0, pairs, x, p, q - 1);
    }
  }

  /** A reached pair's row was reached at every earlier position too. */
  lemma {:induction false} ReachedDown(c0: Context, pairs: seq<(nat, nat)>, p: nat, q: nat, q': nat)
    requires Reached(c0, pairs, p, q) && p < q' <= q
    ensures Reached(c0, pairs, p, q')
    decreases q
  {
    if q' < q {
      ReachedDown(c0, pairs, p, q - 1, q');
    }
  }

  /** Nothing is reached before the first comparison. */
  lemma ExactStart(c0: Context)
    ensures Exact(c0, [], 0, 1)
  {
    forall p: nat, q: nat {:trigger Reached(c0, [], p, q)} | Before((p, q), (0, 1)) && Reached(c0, [], p, q)
      ensures false
    {
    }
  }

  /** Appending a reached pair keeps the trace exact one comparison further. */
  lemma ExactSnoc(c0: Context, pairs: seq<(nat, nat)>, i: nat, j: nat, next: nat)
    requires Exact(c0, pairs, i, j) && Reached(c0, pairs, i, j)
    requires next == j + 1
    ensures Exact(c0, pairs + [(i, j)], i, next)
    ensures ReachedBelow(c0, pairs + [(i, j)], i, next)
  {
    var x := (i, j);
    var pairs' := pairs + [x];
    ReachedSnoc(c0, pairs, x, i, j);
    assert Ordered(pairs') && forall t :: 0 <= t < |pairs'| ==> Before(pairs'[t], (i, next));
    SnocKeepsReached(c0, pairs, i, j);
    SnocKeepsComplete(c0, pairs, i, j, next);
    ReachedStep(c0, pairs', i, j, next);
  }

  /** The trace's pairs stay reached when a reached pair is appended. */
  lemma SnocKeepsReached(c0: Context, pairs: seq<(nat, nat)>, i: nat, j: nat)
    requires (forall t :: 0 <= t < |pairs| ==> Before(pairs[t], (i, j)))
    requires (forall t :: 0 <= t < |pairs| ==> Reached(c0, pairs, pairs[t].0, pairs[t].1))
    requires Reached(c0, pairs, i, j)
    ensures forall t :: 0 <= t < |pairs + [(i, j)]| ==>
      Reached(c0, pairs + [(i, j)], (pairs + [(i, j)])[t].0, (pairs + [(i, j)])[t].1)
  {
    var x := (i, j);
    var pairs' := pairs + [x];
    forall t | 0 <= t < |pairs'|
      ensures Reached(c0, pairs', pairs'[t].0, pairs'[t].1)
    {
      ReachedSnoc(c0, pairs, x, pairs'[t].0, pairs'[t].1);
    }
  }

  /** Completeness survives appending the pair just compared. */
  lemma SnocKeepsComplete(c0: Context, pairs: seq<(nat, nat)>, i: nat, j: nat, next: nat)
    requires CompleteBefore(c0, pairs, i, j) && next == j + 1
    ensures CompleteBefore(c0, pairs + [(i, j)], i, next)
  {
    var x := (i, j);
    var pairs' := pairs + [x];
    forall p: nat, q: nat {:trigger ContactWhenCompared(c0, pairs', p, q)} | Before((p, q), (i, next)) && Reached(c0, pairs', p, q)
                            && ContactWhenCompared(c0, pairs', p, q)
      ensures (p, q) in pairs'
    {
      if (p, q) != x {
        assert Before((p, q), x);
        SnocAgrees(c0, pairs, x, p, q);
      }
    }
  }

  /** Appending a pair the sweep compares later changes nothing about an earlier comparison. */
  lemma SnocAgrees(c0: Context, pairs: seq<(nat, nat)>, x: (nat, nat), p: nat, q: nat)
    requires Before((p, q), x)
    ensures Reached(c0, pairs + [x], p, q) == Reached(c0, pairs, p, q)
    ensures ContactWhenCompared(c0, pairs + [x], p, q) == ContactWhenCompared(c0, pairs, p, q)
  {
    ReachedSnoc(c0, pairs, x, p, q);
    StateSnoc(c0, pairs, x, (p, q));
  }

  /** Passing a pair that was not in contact when compared keeps the trace exact one comparison further. */
  lemma ExactSkip(c0: Context, pairs: seq<(nat, nat)>, i: nat, j: nat, next: nat)
    requires Exact(c0, pairs, i, j) && next == j + 1
    requires !ContactWhenCompared(c0, pairs, i, j)
    ensures Exact(c0, pairs, i, next)
  {
    SkipKeepsComplete(c0, pairs, i, j, next);
  }

  /** Completeness survives passing a pair that was not in contact. */
  lemma SkipKeepsComplete(c0: Context, pairs: seq<(nat, nat)>, i: nat, j: nat, next: nat)
    requires CompleteBefore(c0, pairs, i, j) && next == j + 1
    requires !ContactWhenCompared(c0, pairs, i, j)
    ensures CompleteBefore(c0, pairs, i, next)
  {
    forall p: nat, q: nat {:trigger ContactWhenCompared(c0, pairs, p, q)} | Before((p, q), (i, next)) && Reached(c0, pairs, p, q)
                            && ContactWhenCompared(c0, pairs, p, q)
      ensures (p, q) in pairs
    {
      if (p, q) != (i, j) {
        assert Before((p, q), (i, j));
      }
    }
  }

  /** When no later pair of row `i` is reached, the trace is exact up to the start of the next row. */
  lemma ExactNextRow(c0: Context, pairs: seq<(nat, nat)>, i: nat, j: nat, ni: nat)
    requires Exact(c0, pairs, i, j) && ni == i + 1
    requires forall q: nat :: j <= q ==> !Reached(c0, pairs, i, q)
    ensures Exact(c0, pairs, ni, ni + 1)
  {
    NextRowKeepsComplete(c0, pairs, i, j, ni);
  }

  /** Completeness carries over to the next row when the rest of row `i` is not reached. */
  lemma NextRowKeepsComplete(c0: Context, pairs: seq<(nat, nat)>, i: nat, j: nat, ni: nat)
    requires CompleteBefore(c0, pairs, i, j) && ni == i + 1
    requires forall q: nat :: j <= q ==> !Reached(c0, pairs, i, q)
    ensures CompleteBefore(c0, pairs, ni, ni + 1)
  {
    forall p: nat, q: nat {:trigger ContactWhenCompared(c0, pairs, p, q)} | Before((p, q), (ni, ni + 1)) && Reached(c0, pairs, p, q)
                            && ContactWhenCompared(c0, pairs, p, q)
      ensures (p, q) in pairs
    {
      assert Before((p, q), (i, j));
    }
  }

  /** An exact trace past the last row is the whole sweep's: ordered, only
      reached pairs, and every reached pair that was in contact when compared. */
  lemma ExactComplete(c0: Context, pairs: seq<(nat, nat)>)
    requires Exact(c0, pairs, c0.numBodies, c0.numBodies + 1)
    ensures Ordered(pairs)
    ensures forall t :: 0 <= t < |pairs| ==> Reached(c0, pairs, pairs[t].0, pairs[t].1)
    ensures forall p: nat, q: nat {:trigger ContactWhenCompared(c0, pairs, p, q)} ::
      Reached(c0, pairs, p, q) && ContactWhenCompared(c0, pairs, p, q) ==> (p, q) in pairs
  {
    forall p: nat, q: nat {:trigger ContactWhenCompared(c0, pairs, p, q)} | Reached(c0, pairs, p, q) && ContactWhenCompared(c0, pairs, p, q)
      ensures (p, q) in pairs
    {
      assert Before((p, q), (c0.numBodies, c0.numBodies + 1));
    }
  }

  /** While the permutation is sorted by lower edge, once a body's lower edge
      lies beyond body `i`'s upper edge, neither it nor any later body can
      overlap body `i`: the sweep's early exit skips no contact. */
  lemma PruneSound(c: Context, i: nat, j: nat)
    requires Valid(c) && i < j < c.numBodies
    requires SortedBy(Keys(c.bodies, c.sweep), c.sorted[..c.numBodies])
    requires Lo(At(c, j).r, c.sweep) > Hi(At(c, i).r, c.sweep)
    ensures forall q :: j <= q < c.numBodies ==> !RectsOverlap(At(c, i).r, At(c, q).r)
  {
    var keys, s := Keys(c.bodies, c.sweep), c.sorted[..c.numBodies];
    forall q | j <= q < c.numBodies
      ensures !RectsOverlap(At(c, i).r, At(c, q).r)
    {
      if q > j {
        assert Key(keys, s[j]) <= Key(keys, s[q]);
      }
      ApartOnAxis(At(c, i).r, At(c, q).r, c.sweep);
    }
  }

  lemma ReplaySnoc(c0: Context, pairs: seq<(nat, nat)>, pq: (nat, nat))
    ensures Replay(c0, pairs + [pq]) == ResolveAt(Replay(c0, pairs), pq)
  {
    assert (pairs + [pq])[..|pairs|] == pairs;
  }

  lemma JustifiedSnoc(c0: Context, pairs: seq<(nat, nat)>, pq: (nat, nat))
    requires Justified(c0, pairs)
    requires var d := Replay(c0, pairs); Valid(d) && pq.0 < pq.1 < d.numBodies && Contact(d, pq.0, pq.1)
    ensures Justified(c0, pairs + [pq])
  {
    assert (pairs + [pq])[..|pairs|] == pairs;
  }

  /** Resolving a contact pair changes only what the sweep may change. */
  lemma ResolveFramed(c0: Context, c: Context, i: nat, j: nat)
    requires Framed(c0, c)
    requires i < j < c.numBodies && Contact(c, i, j)
    ensures Framed(c0, ResolveAt(c, (i, j)))
  {
    var id1, id2 := c.sorted[i], c.sorted[j];
    assert ResolveAt(c, (i, j)) == ResolveBodies(c, id1, id2);
    assert Participates(c0.bodies[id1], c0.sweep) && Participates(c0.bodies[id2], c0.sweep);
  }

  /** Resolving a pair marks only the two bodies of that pair, and marks them COLLIDED. */
  lemma ResolveMarked(c0: Context, c: Context, pairs: seq<(nat, nat)>, i: nat, j: nat)
    requires Framed(c0, c) && Marked(c0, c, pairs)
    requires i < j < c.numBodies
    ensures Marked(c0, ResolveAt(c, (i, j)), pairs + [(i, j)])
  {
    var pairs' := pairs + [(i, j)];
    assert pairs'[..|pairs'| - 1] == pairs;
    var id1, id2 := c.sorted[i], c.sorted[j];
    assert TraceIds(c0.sorted, pairs') == TraceIds(c0.sorted, pairs) + {id1} + {id2};
  }

  /** Appending one resolved pair to the trace keeps the sweep's invariant. */
  lemma ResolveKeepsInv(c0: Context, c: Context, pairs: seq<(nat, nat)>, i: nat, j: nat)
    requires SweepInv(c0, c, pairs)
    requires i < j < c.numBodies && Contact(c, i, j)
    ensures SweepInv(c0, ResolveAt(c, (i, j)), pairs + [(i, j)])
  {
    var c', pairs' := ResolveAt(c, (i, j)), pairs + [(i, j)];
    ResolveFramed(c0, c, i, j);
    assert Framed(c0, c');
    ResolveMarked(c0, c, pairs, i, j);
    ReplaySnoc(c0, pairs, (i, j));
    assert c' == Replay(c0, pairs');
    JustifiedSnoc(c0, pairs, (i, j));
    assert Justified(c0, pairs');
    BoundsSnoc(pairs, (i, j), c0.numBodies);
  }

  lemma BoundsSnoc(pairs: seq<(nat, nat)>, pq: (nat, nat), n: nat)
    requires forall t :: 0 <= t < |pairs| ==> pairs[t].0 < pairs[t].1 < n
    requires pq.0 < pq.1 < n
    ensures forall t :: 0 <= t < |pairs + [pq]| ==> (pairs + [pq])[t].0 < (pairs + [pq])[t].1 < n
  {
  }

  /** Appending a pair for position `i` keeps `base` a prefix and every later pair one for `i`. */
  lemma SnocFromBase(base: seq<(nat, nat)>, pairs: seq<(nat, nat)>, pq: (nat, nat), i: nat)
    requires |base| <= |pairs| && pairs[..|base|] == base
    requires forall t :: |base| <= t < |pairs| ==> pairs[t].0 == i
    requires pq.0 == i
    ensures |base| <= |pairs + [pq]| && (pairs + [pq])[..|base|] == base
    ensures forall t :: |base| <= t < |pairs + [pq]| ==> (pairs + [pq])[t].0 == i
  {
    assert (pairs + [pq])[..|pairs|] == pairs;
  }

  /** One comparison of the inner loop: body `j` of the sorted order is resolved
      against body `i` when it takes part in the sweep and overlaps it. */
  method Visit(c0: Context, c: Context, pairs: seq<(nat, nat)>, base: seq<(nat, nat)>, i: nat, j: nat)
    returns (c': Context, pairs': seq<(nat, nat)>, next: nat)
    requires SweepInv(c0, c, pairs)
    requires i < j < c.numBodies && Participates(At(c, i), c.sweep)
    requires |base| <= |pairs| && pairs[..|base|] == base
    requires forall t :: |base| <= t < |pairs| ==> pairs[t].0 == i
    requires pairs == [] ==> forall q :: i < q < j ==> !Contact(c0, i, q)
    requires Exact(c0, pairs, i, j) && Reached(c0, pairs, i, j)
    ensures SweepInv(c0, c', pairs')
    ensures |base| <= |pairs'| && pairs'[..|base|] == base
    ensures forall t :: |base| <= t < |pairs'| ==> pairs'[t].0 == i
    ensures pairs' == [] ==> forall q :: i < q <= j ==> !Contact(c0, i, q)
    ensures next == j + 1
    ensures Exact(c0, pairs', i, next) && ReachedBelow(c0, pairs', i, next)
    ensures Participates(At(c, j), c.sweep) && RectsOverlap(At(c, i).r, At(c, j).r) ==>
      c' == ResolveAt(c, (i, j)) && pairs' == pairs + [(i, j)]
    ensures !(Participates(At(c, j), c.sweep) && RectsOverlap(At(c, i).r, At(c, j).r)) ==>
      c' == c && pairs' == pairs
  {
    next := j + 1;
    if Participates(At(c, j), c.sweep) && RectsOverlap(At(c, i).r, At(c, j).r) {
      ResolveKeepsInv(c0, c, pairs, i, j);
      c' := ResolveAt(c, (i, j));
      pairs' := pairs + [(i, j)];
      SnocFromBase(base, pairs, (i, j), i);
      ExactSnoc(c0, pairs, i, j, next);
    } else {
      c', pairs' := c, pairs;
      assert pairs == [] ==> !Contact(c0, i, j);
      StateAtEnd(c0, pairs, (i, j));
      ExactSkip(c0, pairs, i, j, next);
      ReachedStep(c0, pairs, i, j, next);
    }
  }

  /** The inner loop of sr_resolve_collisions for sorted position `i`: compares
      body `i` with the bodies after it until one starts beyond body `i`'s upper
      edge on the sweep axis, resolving each participating overlapping one. */
  method ScanFrom(c0: Context, c: Context, pairs: seq<(nat, nat)>, i: nat)
    returns (c': Context, pairs': seq<(nat, nat)>, next: nat)
    requires SweepInv(c0, c, pairs)
    requires SortedBy(Keys(c0.bodies, c0.sweep), c0.sorted[..c0.numBodies])
    requires i < c.numBodies && Participates(At(c, i), c.sweep)
    requires Exact(c0, pairs, i, i + 1)
    ensures SweepInv(c0, c', pairs')
    ensures |pairs| <= |pairs'| && pairs'[..|pairs|] == pairs
    ensures forall t :: |pairs| <= t < |pairs'| ==> pairs'[t].0 == i
    ensures pairs' == [] ==>
      forall q :: i < q < c0.numBodies ==> !Contact(c0, i, q)
    ensures next == i + 1 && Exact(c0, pairs', next, next + 1)
  {
    c', pairs' := c, pairs;
    next := i + 1;
    var n := c.numBodies;
    var j: nat := i + 1;
    while j < n
      invariant i < j <= n
      invariant SweepInv(c0, c', pairs')
      invariant |pairs| <= |pairs'| && pairs'[..|pairs|] == pairs
      invariant forall t :: |pairs| <= t < |pairs'| ==> pairs'[t].0 == i
      invariant pairs' == [] ==> forall q :: i < q < j ==> !Contact(c0, i, q)
      invariant Exact(c0, pairs', i, j) && ReachedBelow(c0, pairs', i, j)
    {
      if Lo(At(c', j).r, c'.sweep) > Hi(At(c', i).r, c'.sweep) {
        if pairs' == [] {
          PruneSound(c0, i, j);
        }
        PruneEndsRow(c0, c', pairs', i, j, next);
        break;
      }
      ReachNext(c0, c', pairs', i, j);
      c', pairs', j := Visit(c0, c', pairs', pairs, i, j);
    }
    if j == n {
      ExactNextRow(c0, pairs', i, j, next);
    }
  }

  /** The sweep reaches (i, j) when it reached the row up to `j - 1` and the early
      exit does not fire at `j` in the current store. */
  lemma ReachNext(c0: Context, c: Context, pairs: seq<(nat, nat)>, i: nat, j: nat)
    requires Framed(c0, c) && c == Replay(c0, pairs)
    requires forall t :: 0 <= t < |pairs| ==> Before(pairs[t], (i, j))
    requires i < j < c.numBodies && Participates(At(c, i), c.sweep)
    requires !(Lo(At(c, j).r, c.sweep) > Hi(At(c, i).r, c.sweep))
    requires ReachedBelow(c0, pairs, i, j)
    ensures Reached(c0, pairs, i, j)
  {
    StateAtEnd(c0, pairs, (i, j));
    assert At(c, i).flags == At(c0, i).flags;
  }

  /** When the early exit fires at (i, j) in the current store, the trace is exact
      up to the start of the next row. */
  lemma PruneEndsRow(c0: Context, c: Context, pairs: seq<(nat, nat)>, i: nat, j: nat, ni: nat)
    requires Framed(c0, c) && c == Replay(c0, pairs)
    requires Exact(c0, pairs, i, j) && ni == i + 1
    requires i < j < c.numBodies
    requires Lo(At(c, j).r, c.sweep) > Hi(At(c, i).r, c.sweep)
    ensures Exact(c0, pairs, ni, ni + 1)
  {
    StateAtEnd(c0, pairs, (i, j));
    PrunedRow(c0, pairs, i, j);
    ExactNextRow(c0, pairs, i, j, ni);
  }

  /** A row whose body sits out the sweep contributes no pair. */
  lemma SkipRow(c0: Context, c: Context, pairs: seq<(nat, nat)>, i: nat, ni: nat)
    requires i < c0.numBodies && RowsSwept(c0, c, pairs, i) && !Participates(At(c, i), c.sweep)
    requires ni == i + 1
    ensures RowsSwept(c0, c, pairs, ni)
  {
    assert At(c, i).flags == At(c0, i).flags;
    ExactNextRow(c0, pairs, i, i + 1, ni);
    if pairs == [] {
      NoContactRows(c0, i, ni);
    }
  }

  /** Once the early exit fires at (i, j), the sweep reaches no later pair of row `i`. */
  lemma PrunedRow(c0: Context, pairs: seq<(nat, nat)>, i: nat, j: nat)
    requires Prunes(StateAt(c0, pairs, (i, j)), i, j)
    ensures forall q: nat :: j <= q ==> !Reached(c0, pairs, i, q)
  {
    forall q: nat | j <= q && Reached(c0, pairs, i, q)
      ensures false
    {
      ReachedDown(c0, pairs, i, q, j);
    }
  }

  /** Each value occurs at most once in a sequence without repeats. */
  lemma {:induction false} DistinctOnce(s: seq<int>, v: int)
    requires forall p, q :: 0 <= p < q < |s| ==> s[p] != s[q]
    ensures multiset(s)[v] <= 1
    decreases |s|
  {
    if s != [] {
      var s' := s[..|s| - 1];
      assert s == s' + [s[|s| - 1]];
      DistinctOnce(s', v);
      if s[|s| - 1] == v {
        assert v !in s';
      }
    }
  }

  /** A value at two positions of a sequence occurs twice in it. */
  lemma TwiceCounted(s: seq<int>, p: nat, q: nat)
    requires p < q < |s| && s[p] == s[q]
    ensures multiset(s)[s[p]] >= 2
  {
    assert s == s[..p] + [s[p]] + s[p + 1..q] + [s[q]] + s[q + 1..];
  }

  /** Rearranging the first `n` entries of an id permutation gives an id permutation. */
  lemma PermKeepsIdPerm(s: seq<int>, out: seq<int>, n: nat)
    requires IdPerm(s, n) && |out| == |s|
    requires multiset(out[..n]) == multiset(s[..n])
    ensures IdPerm(out, n)
  {
    forall k | 0 <= k < n
      ensures 0 <= out[k] < n
    {
      assert out[k] in multiset(out[..n]);
      assert out[k] in s[..n];
    }
    forall p, q | 0 <= p < q < n
      ensures out[p] != out[q]
    {
      if out[p] == out[q] {
        TwiceCounted(out[..n], p, q);
        DistinctOnce(s[..n], out[p]);
        assert false;
      }
    }
  }

  /** sr_resolve_collisions. The tick data of the registered bodies is cleared
      and the permutation stably sorted by lower edge on the sweep axis. Then,
      for each participating body in sorted order, the bodies after it are
      visited until one starts beyond its upper edge; every participating one
      that overlaps it at that moment is resolved against it. On the x sweep
      only disabled bodies sit out; on the y sweep no-collision bodies do too.
      Returns the new store and the sorted positions of the resolved pairs. */
  method ResolveCollisions(ctx: Context) returns (r: Context, pairs: seq<(nat, nat)>)
    requires Valid(ctx)
    ensures Valid(r)
    ensures r.numBodies == ctx.numBodies && r.cap == ctx.cap && r.sweep == ctx.sweep
    // the broad-phase order: a stable sort of the previous order by lower edge
    ensures r.sorted[ctx.numBodies..] == ctx.sorted[ctx.numBodies..]
    ensures StablySorted(Keys(ctx.bodies, ctx.sweep), ctx.sorted[..ctx.numBodies], r.sorted[..ctx.numBodies])
    // only boxes and tick data change, and only those of participating bodies
    ensures forall k :: 0 <= k < ctx.cap ==> SameButRect(r.bodies[k], ctx.bodies[k])
    ensures forall k :: ctx.numBodies <= k < ctx.cap ==> r.bodies[k] == ctx.bodies[k] && r.tick[k] == ctx.tick[k]
    ensures forall k :: 0 <= k < ctx.numBodies && !Participates(ctx.bodies[k], ctx.sweep) ==>
      r.bodies[k] == ctx.bodies[k] && r.tick[k] == NoContact
    // the trace: distinct positions, forward pairs only, each in contact when resolved
    ensures forall t :: 0 <= t < |pairs| ==> pairs[t].0 < pairs[t].1 < ctx.numBodies
    ensures Justified(Prepared(ctx, r.sorted), pairs)
    ensures r == Replay(Prepared(ctx, r.sorted), pairs)
    // nothing is resolved exactly when no two participating bodies overlap
    ensures Valid(Prepared(ctx, r.sorted))
    ensures pairs == [] <==> NoContacts(Prepared(ctx, r.sorted))
    ensures pairs == [] ==> r.bodies == ctx.bodies && forall k :: 0 <= k < ctx.numBodies ==> r.tick[k] == NoContact
    // tick data is written only for bodies of resolved pairs, and always with COLLIDED
    ensures forall k :: 0 <= k < ctx.numBodies && r.tick[k] != NoContact ==>
      r.tick[k].flags & COLLIDED != 0 && k in TraceIds(r.sorted, pairs)
    // the trace is the sweep's, in visiting order: it holds every pair the sweep reaches
    // that is in contact when compared, and no pair the sweep does not reach
    ensures Ordered(pairs)
    ensures forall t :: 0 <= t < |pairs| ==> Reached(Prepared(ctx, r.sorted), pairs, pairs[t].0, pairs[t].1)
    ensures forall p: nat, q: nat {:trigger ContactWhenCompared(Prepared(ctx, r.sorted), pairs, p, q)} ::
      (Reached(Prepared(ctx, r.sorted), pairs, p, q)
       && ContactWhenCompared(Prepared(ctx, r.sorted), pairs, p, q)) ==> (p, q) in pairs
  {
    var n := ctx.numBodies;
    var sorted := StableSort(Keys(ctx.bodies, ctx.sweep), ctx.sorted, n);
    PermKeepsIdPerm(ctx.sorted, sorted, n);
    var c0 := Prepared(ctx, sorted);
    assert c0.sorted[..n] == sorted[..n];
    r, pairs := SweepAll(c0);
    SweepOutcome(ctx, c0, r, pairs);
    ExactComplete(c0, pairs);
  }

  /** What the sweep invariant says about the store the sweep started from. */
  lemma SweepOutcome(ctx: Context, c0: Context, r: Context, pairs: seq<(nat, nat)>)
    requires Valid(ctx) && c0 == Prepared(ctx, c0.sorted)
    requires SweepInv(c0, r, pairs)
    ensures forall k :: 0 <= k < ctx.cap ==> SameButRect(r.bodies[k], ctx.bodies[k])
    ensures forall k :: ctx.numBodies <= k < ctx.cap ==> r.bodies[k] == ctx.bodies[k] && r.tick[k] == ctx.tick[k]
    ensures forall k :: 0 <= k < ctx.numBodies && !Participates(ctx.bodies[k], ctx.sweep) ==>
      r.bodies[k] == ctx.bodies[k] && r.tick[k] == NoContact
    ensures pairs == [] ==> r.bodies == ctx.bodies && forall k :: 0 <= k < ctx.numBodies ==> r.tick[k] == NoContact
    ensures forall k :: 0 <= k < ctx.numBodies && r.tick[k] != NoContact ==>
      r.tick[k].flags & COLLIDED != 0 && k in TraceIds(r.sorted, pairs)
  {
  }

  /** What the outer loop of the sweep keeps true after the first `i` rows. */
  ghost predicate RowsSwept(c0: Context, c: Context, pairs: seq<(nat, nat)>, i: nat) {
    && i <= c0.numBodies && SweepInv(c0, c, pairs)
    && (pairs == [] ==> forall p, q :: 0 <= p < i && p < q < c0.numBodies ==> !Contact(c0, p, q))
    && Exact(c0, pairs, i, i + 1)
  }

  /** One pass of the outer loop of sr_resolve_collisions: scans sorted position
      `i` when its body takes part in the sweep and skips it otherwise. */
  method SweepRow(c0: Context, c: Context, pairs: seq<(nat, nat)>, i: nat)
    returns (c': Context, pairs': seq<(nat, nat)>, next: nat)
    requires i < c0.numBodies && RowsSwept(c0, c, pairs, i)
    requires SortedBy(Keys(c0.bodies, c0.sweep), c0.sorted[..c0.numBodies])
    ensures next == i + 1 && RowsSwept(c0, c', pairs', next)
  {
    if Participates(At(c, i), c.sweep) {
      c', pairs', next := ScanRow(c0, c, pairs, i);
    } else {
      c', pairs', next := c, pairs, i + 1;
      SkipRow(c0, c, pairs, i, next);
    }
  }

  /** A pass of the outer loop for a participating body at position `i`. */
  method ScanRow(c0: Context, c: Context, pairs: seq<(nat, nat)>, i: nat)
    returns (c': Context, pairs': seq<(nat, nat)>, next: nat)
    requires i < c0.numBodies && RowsSwept(c0, c, pairs, i) && Participates(At(c, i), c.sweep)
    requires SortedBy(Keys(c0.bodies, c0.sweep), c0.sorted[..c0.numBodies])
    ensures next == i + 1 && RowsSwept(c0, c', pairs', next)
  {
    c', pairs', next := ScanFrom(c0, c, pairs, i);
    if pairs' == [] {
      NoContactRows(c0, i, next);
    }
  }

  /** Adding row `i`'s contact-freedom to that of the rows before it. */
  lemma NoContactRows(c0: Context, i: nat, next: nat)
    requires next == i + 1
    requires forall p, q :: 0 <= p < i && p < q < c0.numBodies ==> !Contact(c0, p, q)
    requires forall q :: i < q < c0.numBodies ==> !Contact(c0, i, q)
    ensures forall p, q :: 0 <= p < next && p < q < c0.numBodies ==> !Contact(c0, p, q)
  {
  }

  /** The two nested loops of sr_resolve_collisions over an already sorted store. */
  method SweepAll(c0: Context) returns (c: Context, pairs: seq<(nat, nat)>)
    requires Valid(c0)
    requires SortedBy(Keys(c0.bodies, c0.sweep), c0.sorted[..c0.numBodies])
    ensures SweepInv(c0, c, pairs)
    ensures pairs == [] <==> NoContacts(c0)
    ensures Exact(c0, pairs, c0.numBodies, c0.numBodies + 1)
  {
    var n := c0.numBodies;
    c, pairs := c0, [];
    SweepStart(c0);
    var i: nat := 0;
    while i < n
      invariant RowsSwept(c0, c, pairs, i)
    {
      c, pairs, i := SweepRow(c0, c, pairs, i);
    }
    SweepDone(c0, c, pairs, i);
  }

  /** Before the first row, the empty trace meets the outer loop's invariant. */
  lemma SweepStart(c0: Context)
    requires Valid(c0)
    ensures RowsSwept(c0, c0, [], 0)
  {
    assert Framed(c0, c0) && Marked(c0, c0, []);
    ExactStart(c0);
  }

  /** Once every row is scanned, the trace is empty exactly when no two
      participating bodies overlapped at the start. */
  lemma SweepDone(c0: Context, c: Context, pairs: seq<(nat, nat)>, i: nat)
    requires RowsSwept(c0, c, pairs, i) && i >= c0.numBodies
    ensures SweepInv(c0, c, pairs)
    ensures pairs == [] <==> NoContacts(c0)
    ensures Exact(c0, pairs, c0.numBodies, c0.numBodies + 1)
  {
    if pairs != [] {
      FirstContact(c0, pairs);
    }
  }

  /** The first pair of a justified trace was in contact in the starting store. */
  lemma {:induction false} FirstContact(c0: Context, pairs: seq<(nat, nat)>)
    requires pairs != [] && Justified(c0, pairs)
    ensures Valid(c0) && pairs[0].0 < pairs[0].1 < c0.numBodies && Contact(c0, pairs[0].0, pairs[0].1)
    decreases |pairs|
  {
    if |pairs| == 1 {
      assert pairs[..0] == [];
    } else {
      var pre := pairs[..|pairs| - 1];
      FirstContact(c0, pre);
    }
  }
}
