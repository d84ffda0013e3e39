/**
  Dependency edges and the reference notion of reachability every traversal is
  measured against: chains of followed edges and their shortest length.
 */
module Paths {
  import opened Common

  /** The derived id of an edge (a UUID over source, target and type). */
  type EdgeId = nat

  datatype Criticality = Critical | Important | Optional

  datatype Edge = Edge(
    id: EdgeId,
    source: EntityId,
    target: EntityId,
    criticality: Criticality,
    origin: string
  )

  datatype Direction = Upstream | Downstream {
    function Flip(): Direction {
      if Upstream? then Downstream else Upstream
    }
  }

  /** The end of an edge a traversal stands on. */
  function Near(dir: Direction, e: Edge): EntityId {
    if dir.Upstream? then e.source else e.target
  }

  /** The end of an edge a traversal moves to. */
  function Far(dir: Direction, e: Edge): EntityId {
    if dir.Upstream? then e.target else e.source
  }

  /** Which edges a traversal sees, which way it goes and which it follows. */
  datatype View = View(edges: seq<Edge>, dir: Direction, follow: Edge -> bool)

  ghost predicate Adjacent(v: View, x: EntityId, y: EntityId) {
    exists e :: e in v.edges && v.follow(e) && Near(v.dir, e) == x && Far(v.dir, e) == y
  }

  /** Some chain of exactly n followed edges leads from x to y. */
  ghost predicate Connects(v: View, x: EntityId, y: EntityId, n: nat)
    decreases n
  {
    if n == 0 then x == y else exists z :: Connects(v, x, z, n - 1) && Adjacent(v, z, y)
  }

  /** d is the length of a shortest chain from x to y. */
  ghost predicate Distance(v: View, x: EntityId, y: EntityId, d: nat) {
    Connects(v, x, y, d) && forall m: nat | m < d :: !Connects(v, x, y, m)
  }

  predicate Allowed(limit: Option<nat>, d: nat) {
    limit.None? || d <= limit.value
  }

  /** y lies within the limit of x. */
  ghost predicate Within(v: View, x: EntityId, y: EntityId, limit: Option<nat>) {
    exists d: nat :: Allowed(limit, d) && Connects(v, x, y, d)
  }

  /** Every far end in the view: the only entities a traversal can move to. */
  function FarEnds(v: View): set<EntityId> {
    set e | e in v.edges :: Far(v.dir, e)
  }

  /** The entities other than x within the limit of x. */
  ghost function ReachSet(v: View, x: EntityId, limit: Option<nat>): set<EntityId> {
    set y | y in FarEnds(v) && y != x && Within(v, x, y, limit)
  }

  datatype Reachable = Reachable(entity: EntityId, depth: nat)

  function EntitiesOf(out: seq<Reachable>): set<EntityId> {
    set r | r in out :: r.entity
  }

  ghost predicate DistinctEntities(out: seq<Reachable>) {
    forall i, j :: 0 <= i < j < |out| ==> out[i].entity != out[j].entity
  }

  ghost predicate NearestFirst(out: seq<Reachable>) {
    forall i, j :: 0 <= i < j < |out| ==> out[i].depth <= out[j].depth
  }

  /** What a traversal must return: every entity in reach, once, nearest first, at its distance. */
  ghost predicate IsTraversal(v: View, origin: EntityId, limit: Option<nat>, out: seq<Reachable>) {
    && EntitiesOf(out) == ReachSet(v, origin, limit)
    && DistinctEntities(out)
    && NearestFirst(out)
    && forall r :: r in out ==> Allowed(limit, r.depth) && Distance(v, origin, r.entity, r.depth)
  }

  lemma ConnectsStep(v: View, x: EntityId, z: EntityId, y: EntityId, n: nat)
    requires Connects(v, x, z, n) && Adjacent(v, z, y)
    ensures Connects(v, x, y, n + 1)
  {
  }

  /** Membership in the reach set needs no far-end side condition. */
  lemma InReachSet(v: View, x: EntityId, y: EntityId, limit: Option<nat>)
    ensures y in ReachSet(v, x, limit) <==> y != x && Within(v, x, y, limit)
  {
    if y != x && Within(v, x, y, limit) {
      var d: nat :| Allowed(limit, d) && Connects(v, x, y, d);
      var z :| Connects(v, x, z, d - 1) && Adjacent(v, z, y);
      var e :| e in v.edges && v.follow(e) && Near(v.dir, e) == z && Far(v.dir, e) == y;
      assert y in FarEnds(v);
    }
  }

  /** Anything reachable has a shortest distance, and it is no further than the given chain. */
  lemma {:induction false} ShortestExists(v: View, x: EntityId, y: EntityId, n: nat) returns (d: nat)
    requires Connects(v, x, y, n)
    ensures d <= n && Distance(v, x, y, d)
    decreases n
  {
    if m: nat :| m < n && Connects(v, x, y, m) {
      d := ShortestExists(v, x, y, m);
    } else {
      d := n;
    }
  }

  lemma DistanceUnique(v: View, x: EntityId, y: EntityId, d: nat, d': nat)
    requires Distance(v, x, y, d) && Distance(v, x, y, d')
    ensures d == d'
  {
  }

  /** The last edge of a shortest chain leaves an entity exactly one step nearer. */
  lemma LastStep(v: View, x: EntityId, y: EntityId, d: nat) returns (z: EntityId)
    requires d > 0 && Distance(v, x, y, d)
    ensures Distance(v, x, z, d - 1) && Adjacent(v, z, y)
  {
    z :| Connects(v, x, z, d - 1) && Adjacent(v, z, y);
    forall m: nat | m < d - 1
      ensures !Connects(v, x, z, m)
    {
      if Connects(v, x, z, m) {
        ConnectsStep(v, x, z, y, m);
      }
    }
  }

  /** Chains can also be extended at the front. */
  lemma {:induction false} ConnectsFront(v: View, x: EntityId, z: EntityId, y: EntityId, n: nat)
    requires Adjacent(v, x, z) && Connects(v, z, y, n)
    ensures Connects(v, x, y, n + 1)
    decreases n
  {
    if n == 0 {
      assert Connects(v, x, x, 0);
    } else {
      var w :| Connects(v, z, w, n - 1) && Adjacent(v, w, y);
      ConnectsFront(v, x, z, w, n - 1);
    }
  }

  /** A chain that goes anywhere starts with an edge. */
  lemma {:induction false} ChainsStart(v: View, x: EntityId, y: EntityId, n: nat)
    requires n > 0 && Connects(v, x, y, n)
    ensures exists e :: e in v.edges && Near(v.dir, e) == x
    decreases n
  {
    var z :| Connects(v, x, z, n - 1) && Adjacent(v, z, y);
    if n > 1 {
      ChainsStart(v, x, z, n - 1);
    } else {
      var e :| e in v.edges && v.follow(e) && Near(v.dir, e) == z && Far(v.dir, e) == y;
    }
  }

  /** Reversing every edge reverses every chain, keeping its length. */
  lemma {:induction false} ChainsReverse(v: View, x: EntityId, y: EntityId, n: nat)
    requires Connects(v, x, y, n)
    ensures Connects(v.(dir := v.dir.Flip()), y, x, n)
    decreases n
  {
    if n > 0 {
      var flipped := v.(dir := v.dir.Flip());
      var z :| Connects(v, x, z, n - 1) && Adjacent(v, z, y);
      ChainsReverse(v, x, z, n - 1);
      var e :| e in v.edges && v.follow(e) && Near(v.dir, e) == z && Far(v.dir, e) == y;
      assert Near(flipped.dir, e) == y && Far(flipped.dir, e) == z;
      ConnectsFront(flipped, y, z, x, n - 1);
    }
  }

  lemma DistancesReverse(v: View, x: EntityId, y: EntityId, d: nat)
    requires Distance(v, x, y, d)
    ensures Distance(v.(dir := v.dir.Flip()), y, x, d)
  {
    var flipped := v.(dir := v.dir.Flip());
    ChainsReverse(v, x, y, d);
    assert flipped.(dir := flipped.dir.Flip()) == v;
    forall m: nat | m < d
      ensures !Connects(flipped, y, x, m)
    {
      if Connects(flipped, y, x, m) {
        ChainsReverse(flipped, y, x, m);
      }
    }
  }

  /** Following fewer edges never creates a chain. */
  lemma {:induction false} FewerEdgesFewerChains(v: View, w: View, x: EntityId, y: EntityId, n: nat)
    requires v.edges == w.edges && v.dir == w.dir
    requires forall e :: v.follow(e) ==> w.follow(e)
    requires Connects(v, x, y, n)
    ensures Connects(w, x, y, n)
    decreases n
  {
    if n > 0 {
      var z :| Connects(v, x, z, n - 1) && Adjacent(v, z, y);
      FewerEdgesFewerChains(v, w, x, z, n - 1);
      var e :| e in v.edges && v.follow(e) && Near(v.dir, e) == z && Far(v.dir, e) == y;
      assert Adjacent(w, z, y);
    }
  }

  ghost predicate Reports(out: seq<Reachable>, x: EntityId, d: nat) {
    Reachable(x, d) in out
  }

  /** A traversal reports x at d exactly when d is x's distance and the limit allows it. */
  lemma TraversalReports(v: View, origin: EntityId, limit: Option<nat>, out: seq<Reachable>, x: EntityId, d: nat)
    requires IsTraversal(v, origin, limit, out)
    ensures Reports(out, x, d) <==> x != origin && Allowed(limit, d) && Distance(v, origin, x, d)
  {
    if Reports(out, x, d) {
      assert x in EntitiesOf(out);
    }
    if x != origin && Allowed(limit, d) && Distance(v, origin, x, d) {
      InReachSet(v, origin, x, limit);
      assert x in EntitiesOf(out);
      var r :| r in out && r.entity == x;
      DistanceUnique(v, origin, x, d, r.depth);
      assert r == Reachable(x, d);
    }
  }

  /**
    Upstream and downstream are exact duals: one entity lists another at depth d
    exactly when the other lists it at depth d in the opposite direction.
   */
  lemma TraversalsAreDual(
    v: View, limit: Option<nat>, a: EntityId, b: EntityId,
    fromA: seq<Reachable>, fromB: seq<Reachable>, d: nat)
    requires IsTraversal(v, a, limit, fromA)
    requires IsTraversal(v.(dir := v.dir.Flip()), b, limit, fromB)
    ensures Reports(fromA, b, d) <==> Reports(fromB, a, d)
  {
    var flipped := v.(dir := v.dir.Flip());
    TraversalReports(v, a, limit, fromA, b, d);
    TraversalReports(flipped, b, limit, fromB, a, d);
    if Distance(v, a, b, d) {
      DistancesReverse(v, a, b, d);
    }
    if Distance(flipped, b, a, d) {
      DistancesReverse(flipped, b, a, d);
      assert flipped.(dir := flipped.dir.Flip()) == v;
    }
  }

  /** Filtering edges reports a subset of the entities, none of them nearer than before. */
  lemma FilteredTraversalIsFurther(
    v: View, w: View, origin: EntityId, limit: Option<nat>,
    narrow: seq<Reachable>, wide: seq<Reachable>, r: Reachable)
    requires v.edges == w.edges && v.dir == w.dir
    requires forall e :: v.follow(e) ==> w.follow(e)
    requires IsTraversal(v, origin, limit, narrow)
    requires IsTraversal(w, origin, limit, wide)
    requires r in narrow
    ensures exists s :: s in wide && s.entity == r.entity && s.depth <= r.depth
  {
    TraversalReports(v, origin, limit, narrow, r.entity, r.depth);
    FewerEdgesFewerChains(v, w, origin, r.entity, r.depth);
    var d := ShortestExists(w, origin, r.entity, r.depth);
    TraversalReports(w, origin, limit, wide, r.entity, d);
    assert Reachable(r.entity, d) in wide;
  }
}
