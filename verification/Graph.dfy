/**
  The indexed dependency graph: an edge vector with two position indexes, and the
  breadth-first walk that root-cause grouping and peer assignment rest on.
 */
module Graph {
  import opened Common
  import opened Paths

  /** Edge positions by the entity standing on the near end. */
  type Index = map<EntityId, seq<nat>>

  /** The positions an index holds for an entity. */
  function Held(index: Index, x: EntityId): seq<nat> {
    if x in index then index[x] else []
  }

  function Pushed(index: Index, x: EntityId, position: nat): Index {
    index[x := Held(index, x) + [position]]
  }

  /** The positions of the edges whose near end is x, in vector order. */
  function Positions(edges: seq<Edge>, dir: Direction, x: EntityId): seq<nat> {
    if edges == [] then []
    else
      var last := |edges| - 1;
      Positions(edges[..last], dir, x) + if Near(dir, edges[last]) == x then [last] else []
  }

  /** A plain scan of the vector: the reference answer to every query. */
  function Scan(edges: seq<Edge>, dir: Direction, x: EntityId): seq<Edge> {
    if edges == [] then []
    else
      var last := |edges| - 1;
      Scan(edges[..last], dir, x) + if Near(dir, edges[last]) == x then [edges[last]] else []
  }

  /** The indexed query; None stands for the out-of-bounds panic of a stale position. */
  function Lookup(edges: seq<Edge>, index: Index, x: EntityId): Option<seq<Edge>> {
    var bucket := Held(index, x);
    if forall k :: 0 <= k < |bucket| ==> bucket[k] < |edges|
    then Some(seq(|bucket|, k requires 0 <= k < |bucket| => edges[bucket[k]]))
    else None
  }

  /** The index answers every query exactly as a scan would. */
  ghost predicate Faithful(edges: seq<Edge>, index: Index, dir: Direction) {
    forall x :: Lookup(edges, index, x) == Some(Scan(edges, dir, x))
  }

  /** The index holds exactly the positions it should. */
  ghost predicate Indexed(edges: seq<Edge>, index: Index, dir: Direction) {
    forall x :: Held(index, x) == Positions(edges, dir, x)
  }

  ghost predicate UniqueIds(edges: seq<Edge>) {
    forall i, j :: 0 <= i < j < |edges| ==> edges[i].id != edges[j].id
  }

  /** Every edge with this id already has these end points. */
  ghost predicate KeepsEnds(edges: seq<Edge>, edge: Edge) {
    forall e :: e in edges && e.id == edge.id ==> e.source == edge.source && e.target == edge.target
  }

  /** The position of the first edge with an id, or the length. */
  function FirstWithId(edges: seq<Edge>, id: EdgeId): (i: nat)
    ensures i <= |edges| && (forall j :: 0 <= j < i ==> edges[j].id != id) && (i < |edges| ==> edges[i].id == id)
  {
    if edges == [] || edges[0].id == id then 0 else 1 + FirstWithId(edges[1..], id)
  }

  /** Add or replace: the edge takes the place of the one with its id, or goes last. */
  function Inserted(edges: seq<Edge>, edge: Edge): seq<Edge> {
    var i := FirstWithId(edges, edge.id);
    if i < |edges| then edges[i := edge] else edges + [edge]
  }

  predicate Keeps(origin: string, keep: set<EdgeId>, e: Edge) {
    e.origin != origin || e.id in keep
  }

  /** Every edge the source reported is to be kept. */
  ghost predicate KeepsAll(edges: seq<Edge>, origin: string, keep: set<EdgeId>) {
    forall e :: e in edges ==> Keeps(origin, keep, e)
  }

  function Kept(edges: seq<Edge>, origin: string, keep: set<EdgeId>): seq<Edge> {
    if edges == [] then []
    else
      var last := |edges| - 1;
      Kept(edges[..last], origin, keep) + if Keeps(origin, keep, edges[last]) then [edges[last]] else []
  }

  function Dropped(edges: seq<Edge>, origin: string, keep: set<EdgeId>): seq<EdgeId> {
    if edges == [] then []
    else
      var last := |edges| - 1;
      Dropped(edges[..last], origin, keep) + if Keeps(origin, keep, edges[last]) then [] else [edges[last].id]
  }

  // ----- the index against a scan

  lemma {:induction false} PositionsScan(edges: seq<Edge>, dir: Direction, x: EntityId)
    ensures |Positions(edges, dir, x)| == |Scan(edges, dir, x)|
    ensures forall k :: 0 <= k < |Positions(edges, dir, x)| ==>
      Positions(edges, dir, x)[k] < |edges| && edges[Positions(edges, dir, x)[k]] == Scan(edges, dir, x)[k]
  {
    if edges != [] {
      PositionsScan(edges[..|edges| - 1], dir, x);
    }
  }

  lemma IndexedIsFaithful(edges: seq<Edge>, index: Index, dir: Direction)
    requires Indexed(edges, index, dir)
    ensures Faithful(edges, index, dir)
  {
    forall x ensures Lookup(edges, index, x) == Some(Scan(edges, dir, x)) {
      PositionsScan(edges, dir, x);
      assert Held(index, x) == Positions(edges, dir, x);
      assert Lookup(edges, index, x).value == Scan(edges, dir, x);
    }
  }

  lemma {:induction false} ScanMembers(edges: seq<Edge>, dir: Direction, x: EntityId, e: Edge)
    ensures e in Scan(edges, dir, x) <==> e in edges && Near(dir, e) == x
  {
    if edges != [] {
      var last := |edges| - 1;
      ScanMembers(edges[..last], dir, x, e);
      assert edges == edges[..last] + [edges[last]];
    }
  }

  lemma IndexedPush(edges: seq<Edge>, index: Index, dir: Direction, edge: Edge)
    requires Indexed(edges, index, dir)
    ensures Indexed(edges + [edge], Pushed(index, Near(dir, edge), |edges|), dir)
  {
    assert (edges + [edge])[..|edges|] == edges;
    forall x
      ensures Held(Pushed(index, Near(dir, edge), |edges|), x) == Positions(edges + [edge], dir, x)
    {
      assert Held(index, x) == Positions(edges, dir, x);
    }
  }

  /** Positions depend only on the near ends. */
  lemma {:induction false} PositionsSameEnds(edges: seq<Edge>, other: seq<Edge>, dir: Direction, x: EntityId)
    requires |edges| == |other|
    requires forall i :: 0 <= i < |edges| ==> Near(dir, edges[i]) == Near(dir, other[i])
    ensures Positions(edges, dir, x) == Positions(other, dir, x)
  {
    if edges != [] {
      PositionsSameEnds(edges[..|edges| - 1], other[..|edges| - 1], dir, x);
    }
  }

  /** Moving one edge onto a new near end adds exactly one position there. */
  lemma {:induction false} PositionsMoved(edges: seq<Edge>, i: nat, edge: Edge, dir: Direction)
    requires i < |edges| && Near(dir, edge) != Near(dir, edges[i])
    ensures |Positions(edges[i := edge], dir, Near(dir, edge))| == |Positions(edges, dir, Near(dir, edge))| + 1
  {
    var last := |edges| - 1;
    if i == last {
      assert edges[i := edge][..last] == edges[..last];
    } else {
      assert edges[i := edge][..last] == edges[..last][i := edge];
      PositionsMoved(edges[..last], i, edge, dir);
    }
  }

  /** Replacing in place leaves the index right exactly when the near end did not move. */
  lemma ReplaceKeepsIndex(edges: seq<Edge>, index: Index, dir: Direction, i: nat, edge: Edge)
    requires Indexed(edges, index, dir) && i < |edges|
    ensures Near(dir, edge) == Near(dir, edges[i]) ==> Indexed(edges[i := edge], index, dir)
    ensures Near(dir, edge) != Near(dir, edges[i]) ==> !Faithful(edges[i := edge], index, dir)
  {
    var x := Near(dir, edge);
    if x == Near(dir, edges[i]) {
      forall y ensures Held(index, y) == Positions(edges[i := edge], dir, y) {
        PositionsSameEnds(edges, edges[i := edge], dir, y);
      }
    } else {
      PositionsMoved(edges, i, edge, dir);
      PositionsScan(edges[i := edge], dir, x);
      assert Held(index, x) == Positions(edges, dir, x);
      assert Lookup(edges[i := edge], index, x) != Some(Scan(edges[i := edge], dir, x));
    }
  }

  /** The vector with both of its indexes in order. */
  ghost predicate WellIndexed(edges: seq<Edge>, outgoing: Index, incoming: Index) {
    Indexed(edges, outgoing, Upstream) && Indexed(edges, incoming, Downstream) && UniqueIds(edges)
  }

  /** Both queries answer as a scan would, for every entity. */
  ghost predicate BothFaithful(edges: seq<Edge>, outgoing: Index, incoming: Index) {
    Faithful(edges, outgoing, Upstream) && Faithful(edges, incoming, Downstream)
  }

  lemma WellIndexedIsFaithful(edges: seq<Edge>, outgoing: Index, incoming: Index)
    requires WellIndexed(edges, outgoing, incoming)
    ensures BothFaithful(edges, outgoing, incoming)
  {
    IndexedIsFaithful(edges, outgoing, Upstream);
    IndexedIsFaithful(edges, incoming, Downstream);
  }

  lemma AppendEffect(edges: seq<Edge>, outgoing: Index, incoming: Index, edge: Edge)
    requires WellIndexed(edges, outgoing, incoming)
    requires forall i :: 0 <= i < |edges| ==> edges[i].id != edge.id
    ensures KeepsEnds(edges, edge)
    ensures WellIndexed(edges + [edge],
      Pushed(outgoing, edge.source, |edges|), Pushed(incoming, edge.target, |edges|))
  {
    IndexedPush(edges, outgoing, Upstream, edge);
    IndexedPush(edges, incoming, Downstream, edge);
  }

  lemma ReplaceEffect(edges: seq<Edge>, outgoing: Index, incoming: Index, i: nat, edge: Edge)
    requires WellIndexed(edges, outgoing, incoming)
    requires i < |edges| && edges[i].id == edge.id
    ensures UniqueIds(edges[i := edge])
    ensures KeepsEnds(edges, edge) ==> WellIndexed(edges[i := edge], outgoing, incoming)
    ensures !KeepsEnds(edges, edge) ==> !BothFaithful(edges[i := edge], outgoing, incoming)
  {
    ReplaceKeepsIndex(edges, outgoing, Upstream, i, edge);
    ReplaceKeepsIndex(edges, incoming, Downstream, i, edge);
    assert edges[i] in edges;
  }

  // ----- retaining edges of one source

  /** Exactly the right edges survive. */
  lemma {:induction false} KeptMembers(edges: seq<Edge>, origin: string, keep: set<EdgeId>)
    ensures forall e :: e in Kept(edges, origin, keep) <==> e in edges && Keeps(origin, keep, e)
  {
    if edges != [] {
      var last := |edges| - 1;
      KeptMembers(edges[..last], origin, keep);
      assert edges == edges[..last] + [edges[last]];
    }
  }

  /**
    Another source's edges survive untouched and are never reported dropped; the source's own
    survive exactly if their id is to be kept.
   */
  lemma RetainIsScoped(edges: seq<Edge>, origin: string, keep: set<EdgeId>, e: Edge)
    requires e in edges
    ensures e.origin != origin ==> e in Kept(edges, origin, keep)
    ensures e.origin == origin ==> (e in Kept(edges, origin, keep) <==> e.id in keep)
    ensures e.origin == origin && e.id !in keep ==> e.id in Dropped(edges, origin, keep)
    ensures UniqueIds(edges) && (e.origin != origin || e.id in keep) ==> e.id !in Dropped(edges, origin, keep)
  {
    KeptMembers(edges, origin, keep);
    DroppedMembers(edges, origin, keep, e.id);
    hide Kept, Dropped;
    if UniqueIds(edges) && (e.origin != origin || e.id in keep) {
      forall f | f in edges && f.id == e.id ensures f == e {
        var i :| 0 <= i < |edges| && edges[i] == e;
        var j :| 0 <= j < |edges| && edges[j] == f;
      }
    }
  }

  /** Every edge is either kept or reported dropped. */
  lemma {:induction false} KeptOrDropped(edges: seq<Edge>, origin: string, keep: set<EdgeId>)
    ensures |Kept(edges, origin, keep)| + |Dropped(edges, origin, keep)| == |edges|
    ensures Dropped(edges, origin, keep) == [] ==> Kept(edges, origin, keep) == edges
  {
    if edges != [] {
      var last := |edges| - 1;
      KeptOrDropped(edges[..last], origin, keep);
      assert edges == edges[..last] + [edges[last]];
    }
  }

  lemma {:induction false} DroppedMembers(edges: seq<Edge>, origin: string, keep: set<EdgeId>, id: EdgeId)
    ensures id in Dropped(edges, origin, keep) <==> exists e :: e in edges && e.id == id && !Keeps(origin, keep, e)
  {
    if edges != [] {
      var last := |edges| - 1;
      DroppedMembers(edges[..last], origin, keep, id);
      assert edges == edges[..last] + [edges[last]];
    }
  }

  /** Nothing goes exactly when every edge of the source is kept by id. */
  lemma NothingDropped(edges: seq<Edge>, origin: string, keep: set<EdgeId>)
    ensures Dropped(edges, origin, keep) == [] <==> KeepsAll(edges, origin, keep)
  {
    var dropped := Dropped(edges, origin, keep);
    forall e | e in edges ensures Keeps(origin, keep, e) || e.id in dropped {
      DroppedMembers(edges, origin, keep, e.id);
    }
    if dropped != [] {
      DroppedMembers(edges, origin, keep, dropped[0]);
    }
  }

  /** A shorter vector under an old index: its last old position no longer exists. */
  lemma ShrunkIndexPanics(edges: seq<Edge>, shorter: seq<Edge>, index: Index, dir: Direction)
    requires Indexed(edges, index, dir)
    requires |shorter| < |edges|
    ensures Lookup(shorter, index, Near(dir, edges[|edges| - 1])) == None
  {
    var last := |edges| - 1;
    var x := Near(dir, edges[last]);
    var bucket := Held(index, x);
    assert bucket == Positions(edges, dir, x);
    assert bucket[|bucket| - 1] == last;
  }

  /** Dropping nothing keeps the queries right; dropping anything leaves a query that panics each way. */
  lemma RetainEffect(edges: seq<Edge>, outgoing: Index, incoming: Index, origin: string, keep: set<EdgeId>)
    requires WellIndexed(edges, outgoing, incoming)
    ensures var kept, all := Kept(edges, origin, keep), KeepsAll(edges, origin, keep);
      && (all ==> BothFaithful(kept, outgoing, incoming))
      && (!all ==>
        && (exists x :: Lookup(kept, outgoing, x) == None)
        && (exists y :: Lookup(kept, incoming, y) == None))
  {
    KeptOrDropped(edges, origin, keep);
    NothingDropped(edges, origin, keep);
    var kept := Kept(edges, origin, keep);
    if |kept| == |edges| {
      WellIndexedIsFaithful(edges, outgoing, incoming);
    } else {
      ShrunkIndexPanics(edges, kept, outgoing, Upstream);
      ShrunkIndexPanics(edges, kept, incoming, Downstream);
    }
  }

  // ----- breadth-first search

  /** The state of a search: `all` found so far, of which the first `head` are expanded. */
  ghost predicate Searching(v: View, origin: EntityId, limit: Option<nat>, all: seq<Reachable>, head: nat) {
    && head <= |all|
    && all != [] && all[0] == Reachable(origin, 0)
    && DistinctEntities(all)
    && NearestFirst(all)
    && (forall i :: 0 <= i < |all| ==>
      Allowed(limit, all[i].depth) && Distance(v, origin, all[i].entity, all[i].depth))
    && (forall i :: 0 <= i < head ==> Expanded(v, limit, all[i], EntitiesOf(all)))
    && (head < |all| ==> forall i :: 0 <= i < |all| ==> all[i].depth <= all[head].depth + 1)
  }

  ghost predicate Expanded(v: View, limit: Option<nat>, r: Reachable, found: set<EntityId>) {
    Allowed(limit, r.depth + 1) ==> forall y :: Adjacent(v, r.entity, y) ==> y in found
  }

  /** Everything at most as far as the next entity to expand has been found already. */
  lemma {:induction false} NearerIsFound(
    v: View, origin: EntityId, limit: Option<nat>, all: seq<Reachable>, head: nat, y: EntityId, d: nat)
    requires Searching(v, origin, limit, all, head)
    requires if head < |all| then d <= all[head].depth else Allowed(limit, d)
    requires Distance(v, origin, y, d)
    ensures y in EntitiesOf(all)
    decreases d
  {
    if d == 0 {
      assert all[0] in all;
    } else {
      var z := LastStep(v, origin, y, d);
      NearerIsFound(v, origin, limit, all, head, z, d - 1);
      var i :| 0 <= i < |all| && all[i].entity == z;
      DistanceUnique(v, origin, z, d - 1, all[i].depth);
      assert i < head;
      assert Expanded(v, limit, all[i], EntitiesOf(all));
    }
  }

  /** A neighbour not found yet is exactly one step further than the entity being expanded. */
  lemma NewIsOneFurther(v: View, origin: EntityId, limit: Option<nat>, all: seq<Reachable>, head: nat, y: EntityId)
    requires Searching(v, origin, limit, all, head) && head < |all|
    requires Adjacent(v, all[head].entity, y) && y !in EntitiesOf(all)
    ensures Distance(v, origin, y, all[head].depth + 1)
  {
    var d := all[head].depth;
    ConnectsStep(v, origin, all[head].entity, y, d);
    forall m: nat | m < d + 1
      ensures !Connects(v, origin, y, m)
    {
      if Connects(v, origin, y, m) {
        var d' := ShortestExists(v, origin, y, m);
        NearerIsFound(v, origin, limit, all, head, y, d');
      }
    }
  }

  /** Expanding one entity keeps the search invariant. */
  lemma ExpandStep(v: View, origin: EntityId, limit: Option<nat>, all: seq<Reachable>, head: nat, added: seq<Reachable>)
    requires Searching(v, origin, limit, all, head) && head < |all|
    requires added != [] ==> Allowed(limit, all[head].depth + 1)
    requires DistinctEntities(added)
    requires forall r :: r in added ==>
      r.depth == all[head].depth + 1 && Adjacent(v, all[head].entity, r.entity) && r.entity !in EntitiesOf(all)
    requires Expanded(v, limit, all[head], EntitiesOf(all) + EntitiesOf(added))
    ensures Searching(v, origin, limit, all + added, head + 1)
  {
    var all' := all + added;
    var d := all[head].depth;
    assert EntitiesOf(all') == EntitiesOf(all) + EntitiesOf(added);
    forall r | r in added
      ensures Distance(v, origin, r.entity, d + 1)
    {
      NewIsOneFurther(v, origin, limit, all, head, r.entity);
    }
    hide Distance, Adjacent, Allowed;
    forall i, j | 0 <= i < j < |all'|
      ensures all'[i].entity != all'[j].entity
    {
      if i < |all| <= j {
        assert all[i].entity in EntitiesOf(all);
        assert added[j - |all|] in added;
      }
    }
    forall i | 0 <= i < head + 1
      ensures Expanded(v, limit, all'[i], EntitiesOf(all'))
    {
      assert i < head ==> Expanded(v, limit, all[i], EntitiesOf(all));
    }
  }

  lemma SearchStarts(v: View, origin: EntityId, limit: Option<nat>)
    ensures Searching(v, origin, limit, [Reachable(origin, 0)], 0)
    ensures EntitiesOf([Reachable(origin, 0)]) == {origin}
  {
    assert Connects(v, origin, origin, 0);
    assert Reachable(origin, 0) in [Reachable(origin, 0)];
  }

  /** An entity at the limit is not expanded. */
  lemma SkipStep(v: View, origin: EntityId, limit: Option<nat>, all: seq<Reachable>, head: nat)
    requires Searching(v, origin, limit, all, head) && head < |all|
    requires !Allowed(limit, all[head].depth + 1)
    ensures Searching(v, origin, limit, all, head + 1)
  {
    ExpandStep(v, origin, limit, all, head, []);
    assert all + [] == all;
  }

  /** One iteration of the walk, in terms of what following the edges of one entity added. */
  lemma FollowStep(
    v: View, origin: EntityId, limit: Option<nat>, all: seq<Reachable>, head: nat,
    found: seq<Edge>, visited: set<EntityId>, visited': set<EntityId>, added: seq<Reachable>)
    requires Searching(v, origin, limit, all, head) && head < |all|
    requires Allowed(limit, all[head].depth + 1)
    requires forall e :: e in found <==> e in v.edges && Near(v.dir, e) == all[head].entity
    requires visited == EntitiesOf(all) <= FarEnds(v) + {origin}
    requires visited' == visited + set e | e in found && v.follow(e) :: Far(v.dir, e)
    requires DistinctEntities(added) && EntitiesOf(added) == visited' - visited
    requires forall r :: r in added ==> r.depth == all[head].depth + 1
    ensures Searching(v, origin, limit, all + added, head + 1)
    ensures visited' == EntitiesOf(all + added) <= FarEnds(v) + {origin}
    ensures added == [] || FarEnds(v) + {origin} - visited' < FarEnds(v) + {origin} - visited
  {
    var x := all[head].entity;
    forall y | Adjacent(v, x, y)
      ensures y in visited'
    {
      var e :| e in v.edges && v.follow(e) && Near(v.dir, e) == x && Far(v.dir, e) == y;
      assert e in found;
    }
    forall r | r in added
      ensures Adjacent(v, x, r.entity) && r.entity !in EntitiesOf(all)
    {
      assert r.entity in EntitiesOf(added);
    }
    assert visited' == EntitiesOf(all) + EntitiesOf(added) == EntitiesOf(all + added);
    ExpandStep(v, origin, limit, all, head, added);
    if added != [] {
      assert added[0] in added;
      assert added[0].entity in EntitiesOf(added);
    }
  }

  lemma SearchDone(v: View, origin: EntityId, limit: Option<nat>, out: seq<Reachable>)
    requires Searching(v, origin, limit, [Reachable(origin, 0)] + out, 1 + |out|)
    ensures IsTraversal(v, origin, limit, out)
  {
    var all := [Reachable(origin, 0)] + out;
    assert forall i :: 0 <= i < |out| ==> out[i] == all[i + 1];
    forall y
      ensures y in EntitiesOf(out) <==> y in ReachSet(v, origin, limit)
    {
      InReachSet(v, origin, y, limit);
      if y in EntitiesOf(out) {
        var i :| 0 <= i < |out| && out[i].entity == y;
        assert all[0].entity != all[i + 1].entity;
      }
      if y != origin && Within(v, origin, y, limit) {
        var n: nat :| Allowed(limit, n) && Connects(v, origin, y, n);
        var d := ShortestExists(v, origin, y, n);
        NearerIsFound(v, origin, limit, all, |all|, y, d);
      }
    }
  }

  lemma EntitiesPushed(out: seq<Reachable>, r: Reachable)
    ensures EntitiesOf(out + [r]) == EntitiesOf(out) + {r.entity}
    ensures DistinctEntities(out) && r.entity !in EntitiesOf(out) ==> DistinctEntities(out + [r])
  {
    assert r in out + [r];
    assert forall j :: 0 <= j < |out| ==> out[j] in out + [r] && out[j].entity in EntitiesOf(out);
  }

  /** Follow the edges of one entity, queueing what has not been visited. */
  method Expand(
    edges: seq<Edge>, dir: Direction, follow: Edge -> bool, depth: nat,
    visited0: set<EntityId>, queue0: seq<Reachable>, out0: seq<Reachable>)
    returns (visited: set<EntityId>, queue: seq<Reachable>, out: seq<Reachable>)
    ensures visited == visited0 + set e | e in edges && follow(e) :: Far(dir, e)
    ensures out0 <= out && queue == queue0 + out[|out0|..]
    ensures DistinctEntities(out[|out0|..])
    ensures EntitiesOf(out[|out0|..]) == visited - visited0
    ensures forall r :: r in out[|out0|..] ==> r.depth == depth + 1
  {
    visited, queue, out := visited0, queue0, out0;
    for i := 0 to |edges|
      invariant visited == visited0 + set e | e in edges[..i] && follow(e) :: Far(dir, e)
      invariant out0 <= out && queue == queue0 + out[|out0|..]
      invariant DistinctEntities(out[|out0|..])
      invariant EntitiesOf(out[|out0|..]) == visited - visited0
      invariant forall r :: r in out[|out0|..] ==> r.depth == depth + 1
    {
      assert edges[..i + 1] == edges[..i] + [edges[i]];
      ghost var before := out[|out0|..];
      if follow(edges[i]) {
        var next := Far(dir, edges[i]);
        if next !in visited {
          visited := visited + {next};
          out := out + [Reachable(next, depth + 1)];
          queue := queue + [Reachable(next, depth + 1)];
          assert out[|out0|..] == before + [Reachable(next, depth + 1)];
          EntitiesPushed(before, Reachable(next, depth + 1));
        }
      }
    }
    assert edges[..|edges|] == edges;
  }

  /** Add one entity to the group of everything in its reach. */
  method JoinAll(groups0: map<EntityId, set<EntityId>>, reach: seq<Reachable>, x: EntityId)
    returns (groups: map<EntityId, set<EntityId>>)
    ensures forall y :: MembersAt(groups, y) == Joined(groups0, reach, x, y)
  {
    groups := groups0;
    for j := 0 to |reach|
      invariant forall y :: MembersAt(groups, y) == Joined(groups0, reach[..j], x, y)
    {
      var z := reach[j].entity;
      ghost var before := groups;
      groups := groups[z := MembersAt(groups, z) + {x}];
      assert reach[..j + 1] == reach[..j] + [reach[j]];
      EntitiesPushed(reach[..j], reach[j]);
      forall y ensures MembersAt(groups, y) == Joined(groups0, reach[..j + 1], x, y) {
        assert MembersAt(before, y) == Joined(groups0, reach[..j], x, y);
      }
    }
    assert reach[..|reach|] == reach;
  }

  /** The fields of a graph, as one value. */
  datatype State = State(edges: seq<Edge>, outgoing: Index, incoming: Index) {
    function IndexFor(dir: Direction): Index {
      if dir.Upstream? then outgoing else incoming
    }
  }

  datatype Change = Put(edge: Edge) | Retain(origin: string, keep: set<EdgeId>)

  /** What one change makes of a graph, whatever its indexes hold. */
  function Changed(s: State, change: Change): State {
    match change
    case Put(edge) =>
      var i := |s.edges|;
      if FirstWithId(s.edges, edge.id) < i then s.(edges := Inserted(s.edges, edge))
      else State(Inserted(s.edges, edge), Pushed(s.outgoing, edge.source, i), Pushed(s.incoming, edge.target, i))
    case Retain(origin, keep) => s.(edges := Kept(s.edges, origin, keep))
  }

  class DependencyGraph {
    var edges: seq<Edge>
    var outgoing: Index
    var incoming: Index

    ghost predicate Valid()
      reads this
    {
      WellIndexed(edges, outgoing, incoming)
    }

    /** Both queries answer as a scan would, for every entity. */
    ghost predicate AgreesWithScan()
      reads this
    {
      BothFaithful(edges, outgoing, incoming)
    }

    function IndexFor(dir: Direction): Index
      reads this
    {
      if dir.Upstream? then outgoing else incoming
    }

    ghost function Model(): State
      reads this
    {
      State(edges, outgoing, incoming)
    }

    constructor ()
      ensures Valid() && edges == []
    {
      edges, outgoing, incoming := [], map[], map[];
    }

    /** Add or replace an edge. The index survives exactly when no id changes its end points. */
    method Insert(edge: Edge)
      modifies this
      ensures Model() == Changed(old(Model()), Put(edge))
      ensures edges == Inserted(old(edges), edge)
      ensures var appended := FirstWithId(old(edges), edge.id) == |old(edges)|;
        && outgoing == (if appended then Pushed(old(outgoing), edge.source, |old(edges)|) else old(outgoing))
        && incoming == (if appended then Pushed(old(incoming), edge.target, |old(edges)|) else old(incoming))
      ensures old(Valid()) ==> UniqueIds(edges)
      ensures old(Valid()) && KeepsEnds(old(edges), edge) ==> Valid()
      ensures old(Valid()) && !KeepsEnds(old(edges), edge) ==> !AgreesWithScan()
    {
      for i := 0 to |edges|
        invariant edges == old(edges) && outgoing == old(outgoing) && incoming == old(incoming)
        invariant forall j :: 0 <= j < i ==> edges[j].id != edge.id
      {
        if edges[i].id == edge.id {
          assert i == FirstWithId(edges, edge.id);
          if Valid() {
            ReplaceEffect(edges, outgoing, incoming, i, edge);
          }
          edges := edges[i := edge];
          return;
        }
      }
      if Valid() {
        AppendEffect(edges, outgoing, incoming, edge);
      }
      var index := |edges|;
      outgoing := Pushed(outgoing, edge.source, index);
      incoming := Pushed(incoming, edge.target, index);
      edges := edges + [edge];
    }

    /** Drop the edges of one source that are not kept. The position indexes are left as they were. */
    method RetainFromSource(origin: string, keep: set<EdgeId>) returns (dropped: seq<EdgeId>)
      modifies this`edges
      ensures Model() == Changed(old(Model()), Retain(origin, keep))
      ensures edges == Kept(old(edges), origin, keep)
      ensures dropped == Dropped(old(edges), origin, keep)
      ensures forall e :: e in edges <==> e in old(edges) && (e.origin != origin || e.id in keep)
      ensures dropped == [] <==> KeepsAll(old(edges), origin, keep)
      ensures old(Valid()) ==> (AgreesWithScan() <==> KeepsAll(old(edges), origin, keep))
      ensures old(Valid()) && !KeepsAll(old(edges), origin, keep) ==>
        && (exists x :: Lookup(edges, outgoing, x) == None)
        && (exists y :: Lookup(edges, incoming, y) == None)
    {
      var kept: seq<Edge> := [];
      dropped := [];
      for i := 0 to |edges|
        invariant edges == old(edges)
        invariant kept == Kept(edges[..i], origin, keep)
        invariant dropped == Dropped(edges[..i], origin, keep)
      {
        assert edges[..i + 1][..i] == edges[..i];
        if Keeps(origin, keep, edges[i]) {
          kept := kept + [edges[i]];
        } else {
          dropped := dropped + [edges[i].id];
        }
      }
      assert edges[..|edges|] == edges;
      NothingDropped(edges, origin, keep);
      KeptMembers(edges, origin, keep);
      if Valid() {
        RetainEffect(edges, outgoing, incoming, origin, keep);
      }
      edges := kept;
    }

    /** The edges standing on an entity, from the index for the direction. */
    method EdgesOf(dir: Direction, x: EntityId) returns (found: seq<Edge>)
      requires Valid()
      ensures found == Scan(edges, dir, x)
      ensures forall e :: e in found <==> e in edges && Near(dir, e) == x
    {
      WellIndexedIsFaithful(edges, outgoing, incoming);
      assert Lookup(edges, IndexFor(dir), x) == Some(Scan(edges, dir, x));
      found := Lookup(edges, IndexFor(dir), x).value;
      forall e ensures e in found <==> e in edges && Near(dir, e) == x {
        ScanMembers(edges, dir, x, e);
      }
    }

    /** Expand one entity in the middle of a walk. */
    method Follow(
      ghost v: View, current: Reachable, dir: Direction, follow: Edge -> bool,
      visited0: set<EntityId>, queue0: seq<Reachable>, out0: seq<Reachable>,
      ghost origin: EntityId, ghost limit: Option<nat>, ghost head: nat)
      returns (visited: set<EntityId>, queue: seq<Reachable>, out: seq<Reachable>)
      requires Valid() && v == View(edges, dir, follow)
      requires var all := [Reachable(origin, 0)] + out0;
        && head < |all| && all[head] == current && Searching(v, origin, limit, all, head)
        && queue0 == all[head + 1..] && visited0 == EntitiesOf(all) <= FarEnds(v) + {origin}
      requires Allowed(limit, current.depth + 1)
      ensures out0 <= out
      ensures var all := [Reachable(origin, 0)] + out;
        && Searching(v, origin, limit, all, head + 1)
        && queue == all[head + 1..] && visited == EntitiesOf(all) <= FarEnds(v) + {origin}
      ensures (visited == visited0 && queue == queue0) ||
        FarEnds(v) + {origin} - visited < FarEnds(v) + {origin} - visited0
    {
      hide Searching, WellIndexed, FarEnds, EntitiesOf;
      var found := EdgesOf(dir, current.entity);
      visited, queue, out := Expand(found, dir, follow, current.depth, visited0, queue0, out0);
      ghost var all, added := [Reachable(origin, 0)] + out0, out[|out0|..];
      assert [Reachable(origin, 0)] + out == all + added;
      FollowStep(v, origin, limit, all, head, found, visited0, visited, added);
      assert all[head..][1..] == all[head + 1..];
      PopThenPush(all, added, head);
    }

    method Walk(origin: EntityId, limit: Option<nat>, dir: Direction, follow: Edge -> bool)
      returns (out: seq<Reachable>)
      requires Valid()
      ensures IsTraversal(View(edges, dir, follow), origin, limit, out)
    {
      ghost var v := View(edges, dir, follow);
      var start := Reachable(origin, 0);
      var visited := {origin};
      var queue := [start];
      out := [];
      ghost var head := 0;
      assert [start] + out == [start];
      SearchStarts(v, origin, limit);
      ghost var bound := FarEnds(v) + {origin};
      hide Searching, WellIndexed, IsTraversal, FarEnds, EntitiesOf;
      while queue != []
        invariant head <= 1 + |out|
        invariant Searching(v, origin, limit, [start] + out, head)
        invariant queue == ([start] + out)[head..]
        invariant visited == EntitiesOf([start] + out)
        invariant visited <= bound
        decreases bound - visited, |queue|
      {
        ghost var all := [start] + out;
        var current := queue[0];
        queue := queue[1..];
        assert current == all[head];
        if limit.Some? && current.depth >= limit.value {
          SkipStep(v, origin, limit, all, head);
          head := head + 1;
          continue;
        }
        visited, queue, out := Follow(v, current, dir, follow, visited, queue, out, origin, limit, head);
        head := head + 1;
      }
      SearchDone(v, origin, limit, out);
    }

    /** Everything an entity transitively depends on, nearest first. */
    method UpstreamOf(x: EntityId, limit: Option<nat>) returns (out: seq<Reachable>)
      requires Valid()
      ensures IsTraversal(Dependencies(edges), x, limit, out)
      ensures EntitiesOf(out) == UpstreamSet(edges, x, limit)
    {
      out := Walk(x, limit, Upstream, Always);
    }

    /** Everything that transitively depends on an entity: its blast radius. */
    method DownstreamOf(x: EntityId, limit: Option<nat>) returns (out: seq<Reachable>)
      requires Valid()
      ensures IsTraversal(Dependencies(edges).(dir := Downstream), x, limit, out)
    {
      out := Walk(x, limit, Downstream, Always);
    }

    /** Upstream along the edges that propagate failure only. */
    method CriticalUpstreamOf(x: EntityId, limit: Option<nat>) returns (out: seq<Reachable>)
      requires Valid()
      ensures IsTraversal(Dependencies(edges).(follow := Propagates), x, limit, out)
    {
      out := Walk(x, limit, Upstream, Propagates);
    }

    /** What all the given entities depend on; stops early once nothing is shared. */
    method SharedUpstream(entities: seq<EntityId>, limit: Option<nat>) returns (shared: set<EntityId>)
      requires Valid()
      ensures shared == SharedSet(edges, entities, limit)
    {
      if entities == [] {
        return {};
      }
      var first := UpstreamOf(entities[0], limit);
      shared := EntitiesOf(first);
      for i := 1 to |entities|
        invariant shared == SharedSet(edges, entities[..i], limit)
      {
        var next := UpstreamOf(entities[i], limit);
        shared := shared * EntitiesOf(next);
        assert entities[..i + 1] == entities[..i] + [entities[i]];
        if shared == {} {
          SharedShrinks(edges, entities, i + 1, limit);
          return;
        }
      }
      assert entities[..|entities|] == entities;
    }

    /** Group entities by what they share upstream, keeping groups of at least two. */
    method GroupBySharedUpstream(entities: seq<EntityId>, limit: Option<nat>)
      returns (groups: map<EntityId, set<EntityId>>)
      requires Valid()
      ensures groups == GroupsOf(edges, entities, limit)
    {
      var collected: map<EntityId, set<EntityId>> := map[];
      for i := 0 to |entities|
        invariant forall y :: MembersAt(collected, y) == Dependents(edges, entities[..i], y, limit)
      {
        var reach := UpstreamOf(entities[i], limit);
        ghost var before := collected;
        collected := JoinAll(collected, reach, entities[i]);
        assert forall y :: MembersAt(collected, y) == Joined(before, reach, entities[i], y);
        assert entities[..i + 1] == entities[..i] + [entities[i]];
      }
      assert entities[..|entities|] == entities;
      groups := map y | y in collected && |collected[y]| > 1 :: collected[y];
      GroupsFromMembers(edges, entities, limit, collected, groups);
    }
  }

  /**
    Build a graph from edges; for a repeated id the last edge counts, in the place of the first.
    Rebuilding from a duplicate-free vector gives that vector back, indexed.
   */
  method FromEdges(input: seq<Edge>) returns (graph: DependencyGraph)
    ensures fresh(graph) && graph.edges == Collected(input)
    ensures EdgeIds(graph.edges) == FirstIds(input) && forall e :: e in graph.edges <==> IsLast(input, e)
    ensures IdsFixEnds(input) ==> graph.Valid()
    ensures UniqueIds(input) ==> graph.Valid() && graph.edges == input
  {
    graph := new DependencyGraph();
    hide WellIndexed, Inserted, KeepsEnds, BothFaithful, IdsFixEnds, EdgeIds, UniqueIds;
    ghost var sound := IdsFixEnds(input);
    for i := 0 to |input|
      invariant fresh(graph) && graph.edges == Collected(input[..i])
      invariant sound ==> graph.Valid()
    {
      if sound {
        CollectedKeepsEnds(input, i);
      }
      assert input[..i + 1][..i] == input[..i];
      graph.Insert(input[i]);
    }
    assert input[..|input|] == input;
    CollectedIds(input);
    CollectedMembers(input);
    if UniqueIds(input) {
      UniqueFixesEnds(input);
      UniqueIsCollected(input);
    }
  }

  /** The edges inserting a whole vector leaves, one after another. */
  function Collected(input: seq<Edge>): seq<Edge> {
    if input == [] then []
    else
      var last := |input| - 1;
      Inserted(Collected(input[..last]), input[last])
  }

  function EdgeIds(edges: seq<Edge>): seq<EdgeId> {
    seq(|edges|, i requires 0 <= i < |edges| => edges[i].id)
  }

  /** Every id once, in the order of its first occurrence. */
  function FirstIds(input: seq<Edge>): seq<EdgeId> {
    if input == [] then []
    else
      var last := |input| - 1;
      var ids := FirstIds(input[..last]);
      if input[last].id in ids then ids else ids + [input[last].id]
  }

  /** No later edge has the id of this one. */
  ghost predicate IsLast(input: seq<Edge>, e: Edge) {
    exists i: nat :: IsLastAt(input, e, i)
  }

  ghost predicate IsLastAt(input: seq<Edge>, e: Edge, i: nat) {
    i < |input| && input[i] == e && forall j :: i < j < |input| ==> input[j].id != e.id
  }

  lemma IsLastPushed(input: seq<Edge>, edge: Edge, e: Edge)
    ensures IsLast(input + [edge], e) <==> e == edge || (IsLast(input, e) && e.id != edge.id)
  {
    var next := input + [edge];
    if e == edge {
      assert IsLastAt(next, e, |input|);
    }
    if i: nat :| i < |input| && IsLastAt(next, e, i) {
      assert next[|input|] == edge;
      assert forall j :: i < j < |input| ==> next[j] == input[j];
      assert IsLastAt(input, e, i);
    }
    if i: nat :| IsLastAt(input, e, i) && e.id != edge.id {
      assert IsLastAt(next, e, i);
    }
  }

  /** Inserting adds the edge and takes out whatever had its id; ids stay unique and in place. */
  lemma InsertedMembers(edges: seq<Edge>, edge: Edge)
    requires UniqueIds(edges)
    ensures UniqueIds(Inserted(edges, edge))
    ensures forall e :: e in Inserted(edges, edge) <==> e == edge || (e in edges && e.id != edge.id)
  {
    var i := FirstWithId(edges, edge.id);
    var after := Inserted(edges, edge);
    assert after[i] == edge;
    forall e | e in edges && e.id != edge.id ensures e in after {
      var j :| 0 <= j < |edges| && edges[j] == e;
      assert after[j] == e;
    }
  }

  lemma InsertedIds(edges: seq<Edge>, edge: Edge)
    ensures EdgeIds(Inserted(edges, edge)) ==
      if edge.id in EdgeIds(edges) then EdgeIds(edges) else EdgeIds(edges) + [edge.id]
  {
    var i := FirstWithId(edges, edge.id);
    if i < |edges| {
      assert EdgeIds(edges)[i] == edge.id;
    } else {
      assert forall j :: 0 <= j < |edges| ==> EdgeIds(edges)[j] != edge.id;
    }
  }

  /** Ids stay in the order of their first occurrence. */
  lemma {:induction false} CollectedIds(input: seq<Edge>)
    ensures EdgeIds(Collected(input)) == FirstIds(input)
  {
    hide Inserted, EdgeIds;
    if input == [] {
      assert EdgeIds([]) == [] by { NoIds(); }
    } else {
      CollectedIds(input[..|input| - 1]);
      InsertedIds(Collected(input[..|input| - 1]), input[|input| - 1]);
    }
  }

  lemma NoIds()
    ensures EdgeIds([]) == []
  {
  }

  /** For each id the last edge is kept. */
  lemma {:induction false} CollectedMembers(input: seq<Edge>)
    ensures UniqueIds(Collected(input))
    ensures forall e :: e in Collected(input) <==> IsLast(input, e)
  {
    hide Inserted, IsLastAt;
    if input != [] {
      var front, edge := input[..|input| - 1], input[|input| - 1];
      CollectedMembers(front);
      InsertedMembers(Collected(front), edge);
      assert Collected(input) == Inserted(Collected(front), edge);
      hide Collected, UniqueIds, IsLast;
      assert input == front + [edge];
      forall e ensures e in Collected(input) <==> IsLast(input, e) {
        IsLastPushed(front, edge, e);
      }
    } else {
      NothingIsLast();
    }
  }

  lemma NothingIsLast()
    ensures forall e :: !IsLast([], e)
  {
  }

  lemma {:induction false} UniqueIsCollected(input: seq<Edge>)
    requires UniqueIds(input)
    ensures Collected(input) == input
  {
    if input != [] {
      var last := |input| - 1;
      UniqueIsCollected(input[..last]);
      assert input == input[..last] + [input[last]];
    }
  }

  lemma CollectedKeepsEnds(input: seq<Edge>, i: nat)
    requires IdsFixEnds(input) && i < |input|
    ensures KeepsEnds(Collected(input[..i]), input[i])
  {
    CollectedMembers(input[..i]);
    hide Collected;
    forall e | e in Collected(input[..i]) ensures e in input {
      var j: nat :| IsLastAt(input[..i], e, j);
      assert input[j] == e;
    }
  }

  // ----- what several entities share

  predicate Always(e: Edge) {
    true
  }

  predicate Propagates(e: Edge) {
    e.criticality.Critical? || e.criticality.Important?
  }

  function Dependencies(edges: seq<Edge>): View {
    View(edges, Upstream, Always)
  }

  ghost function UpstreamSet(edges: seq<Edge>, x: EntityId, limit: Option<nat>): set<EntityId> {
    ReachSet(Dependencies(edges), x, limit)
  }

  /** The intersection of the members' upstream sets; empty for no members. */
  ghost function SharedSet(edges: seq<Edge>, entities: seq<EntityId>, limit: Option<nat>): set<EntityId> {
    if entities == [] then {}
    else set y | y in UpstreamSet(edges, entities[0], limit) &&
                 forall x :: x in entities ==> y in UpstreamSet(edges, x, limit)
  }

  /** The given entities that depend on y. */
  ghost function Dependents(edges: seq<Edge>, entities: seq<EntityId>, y: EntityId, limit: Option<nat>): set<EntityId> {
    set x | x in entities && y in UpstreamSet(edges, x, limit)
  }

  function MembersAt(groups: map<EntityId, set<EntityId>>, y: EntityId): set<EntityId> {
    if y in groups then groups[y] else {}
  }

  /** A group's members after x has joined the groups of everything in its reach. */
  function Joined(
    groups: map<EntityId, set<EntityId>>, reach: seq<Reachable>, x: EntityId, y: EntityId): set<EntityId>
  {
    MembersAt(groups, y) + if y in EntitiesOf(reach) then {x} else {}
  }

  /** Every entity at least two of the given ones depend on, with all of those dependents. */
  ghost function GroupsOf(edges: seq<Edge>, entities: seq<EntityId>, limit: Option<nat>): map<EntityId, set<EntityId>> {
    map y | y in FarEnds(Dependencies(edges)) && |Dependents(edges, entities, y, limit)| > 1
      :: Dependents(edges, entities, y, limit)
  }

  ghost predicate IdsFixEnds(edges: seq<Edge>) {
    forall e, f :: e in edges && f in edges && e.id == f.id ==> e.source == f.source && e.target == f.target
  }

  lemma UniqueFixesEnds(edges: seq<Edge>)
    requires UniqueIds(edges)
    ensures IdsFixEnds(edges)
  {
  }

  /** What survives retaining has unique ids, so rebuilding from it restores the index. */
  lemma {:induction false} KeptUnique(edges: seq<Edge>, origin: string, keep: set<EdgeId>)
    requires UniqueIds(edges)
    ensures UniqueIds(Kept(edges, origin, keep))
  {
    if edges != [] {
      var last := |edges| - 1;
      KeptUnique(edges[..last], origin, keep);
      KeptMembers(edges[..last], origin, keep);
      var kept := Kept(edges[..last], origin, keep);
      forall i | 0 <= i < |kept|
        ensures kept[i].id != edges[last].id
      {
        assert kept[i] in edges[..last];
      }
    }
  }

  lemma SharedShrinks(edges: seq<Edge>, entities: seq<EntityId>, n: nat, limit: Option<nat>)
    requires 0 < n <= |entities|
    ensures SharedSet(edges, entities, limit) <= SharedSet(edges, entities[..n], limit)
  {
    assert forall x :: x in entities[..n] ==> x in entities;
  }

  lemma GroupsFromMembers(
    edges: seq<Edge>, entities: seq<EntityId>, limit: Option<nat>,
    collected: map<EntityId, set<EntityId>>, groups: map<EntityId, set<EntityId>>)
    requires forall y :: MembersAt(collected, y) == Dependents(edges, entities, y, limit)
    requires groups == map y | y in collected && |collected[y]| > 1 :: collected[y]
    ensures groups == GroupsOf(edges, entities, limit)
  {
    forall y
      ensures y in groups <==> y in GroupsOf(edges, entities, limit)
      ensures y in groups ==> groups[y] == GroupsOf(edges, entities, limit)[y]
    {
      assert MembersAt(collected, y) == Dependents(edges, entities, y, limit);
      if |Dependents(edges, entities, y, limit)| > 1 {
        var x :| x in Dependents(edges, entities, y, limit);
        assert y in FarEnds(Dependencies(edges));
      }
    }
  }

  /** The entities whose group contains all of the given ones. */
  ghost function WholeGroups(edges: seq<Edge>, entities: seq<EntityId>, limit: Option<nat>): set<EntityId> {
    var groups := GroupsOf(edges, entities, limit);
    set y | y in groups && Elements(entities) <= groups[y]
  }

  /**
    Sharing and grouping agree exactly when there is a group to speak of: at least
    two distinct entities, or nothing shared at all.
   */
  lemma SharedIsWholeGroup(edges: seq<Edge>, entities: seq<EntityId>, limit: Option<nat>)
    ensures SharedSet(edges, entities, limit) == WholeGroups(edges, entities, limit) <==>
      |Elements(entities)| >= 2 || SharedSet(edges, entities, limit) == {}
  {
    var shared, whole := SharedSet(edges, entities, limit), WholeGroups(edges, entities, limit);
    var all := Elements(entities);
    forall y
      ensures entities != [] ==> (y in shared <==> Dependents(edges, entities, y, limit) == all)
      ensures y in whole <==> |all| >= 2 && Dependents(edges, entities, y, limit) == all
    {
      var members := Dependents(edges, entities, y, limit);
      assert members <= all;
      if entities != [] {
        assert entities[0] in all;
        assert y in shared <==> forall x :: x in entities ==> y in UpstreamSet(edges, x, limit);
        if y in shared {
          assert all <= members;
        }
        if members == all {
          assert forall x :: x in entities ==> x in all;
        }
      }
      if |all| >= 2 && members == all {
        var x :| x in members;
        assert y in FarEnds(Dependencies(edges));
      }
      if y in whole {
        assert members == all;
      }
    }
    if entities == [] {
      assert all == {};
    }
  }
}
