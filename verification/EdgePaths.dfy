/**
  Dependencies in terms of plain edges: a route is a sequence of edges, each starting where the
  one before ends. Everything a graph answers about reachability is said here once more in routes.
 */
module EdgePaths {
  import opened Common
  import opened Paths
  import opened Graph

  /** The edges lead from x to y, each from a source to the target it depends on. */
  ghost predicate IsRoute(route: seq<Edge>, x: EntityId, y: EntityId) {
    if route == [] then x == y
    else
      && route[0].source == x && route[|route| - 1].target == y
      && forall i :: 0 < i < |route| ==> route[i].source == route[i - 1].target
  }

  /** A route over given edges, through optional ones only where they count. */
  ghost predicate HasRoute(edges: seq<Edge>, optional: bool, route: seq<Edge>, x: EntityId, y: EntityId) {
    && IsRoute(route, x, y)
    && forall i :: 0 <= i < |route| ==> route[i] in edges && (optional || route[i].criticality != Optional)
  }

  /** The shortest route from x to y has n edges. */
  ghost predicate IsRouteLength(edges: seq<Edge>, optional: bool, x: EntityId, y: EntityId, n: nat) {
    && (exists route :: HasRoute(edges, optional, route, x, y) && |route| == n)
    && forall route :: HasRoute(edges, optional, route, x, y) ==> n <= |route|
  }

  /** Something other than itself that x needs, directly or over others, within a number of edges. */
  ghost predicate DependsOn(edges: seq<Edge>, x: EntityId, y: EntityId, limit: Option<nat>) {
    y != x && exists route :: HasRoute(edges, true, route, x, y) && (limit.None? || |route| <= limit.value)
  }

  /** A traversal's view, and whether it counts optional edges. */
  ghost predicate Views(v: View, edges: seq<Edge>, optional: bool) {
    v.edges == edges && forall e :: v.follow(e) <==> (optional || e.criticality != Optional)
  }

  lemma RouteExtends(route: seq<Edge>, e: Edge, x: EntityId)
    requires IsRoute(route, x, e.source)
    ensures IsRoute(route + [e], x, e.target)
  {
  }

  lemma RouteStartsEarlier(e: Edge, route: seq<Edge>, y: EntityId)
    requires IsRoute(route, e.target, y)
    ensures IsRoute([e] + route, e.source, y)
  {
  }

  /** Where a traversal's chain from x to y starts and ends as a route. */
  function From(dir: Direction, x: EntityId, y: EntityId): EntityId {
    if dir.Upstream? then x else y
  }

  /** Every chain is a route of its length, against the edges when going downstream. */
  lemma {:induction false} ChainIsRoute(v: View, edges: seq<Edge>, optional: bool, x: EntityId, y: EntityId, n: nat)
    returns (route: seq<Edge>)
    requires Views(v, edges, optional) && Connects(v, x, y, n)
    ensures HasRoute(edges, optional, route, From(v.dir, x, y), From(v.dir, y, x)) && |route| == n
    decreases n
  {
    if n == 0 {
      route := [];
    } else {
      var z :| Connects(v, x, z, n - 1) && Adjacent(v, z, y);
      var e :| e in v.edges && v.follow(e) && Near(v.dir, e) == z && Far(v.dir, e) == y;
      route := ChainIsRoute(v, edges, optional, x, z, n - 1);
      if v.dir.Upstream? {
        RouteExtends(route, e, x);
        route := route + [e];
      } else {
        RouteStartsEarlier(e, route, x);
        route := [e] + route;
      }
    }
  }

  /** Every route is a chain. */
  lemma {:induction false} RouteIsChain(
    v: View, edges: seq<Edge>, optional: bool, route: seq<Edge>, x: EntityId, y: EntityId)
    requires Views(v, edges, optional)
    requires HasRoute(edges, optional, route, From(v.dir, x, y), From(v.dir, y, x))
    ensures Connects(v, x, y, |route|)
    decreases |route|
  {
    if route != [] {
      var last := |route| - 1;
      if v.dir.Upstream? {
        var e, front := route[last], route[..last];
        assert IsRoute(front, x, e.source) by { assert front == [] ==> e == route[0]; }
        RouteIsChain(v, edges, optional, front, x, e.source);
        assert Adjacent(v, e.source, y);
      } else {
        var e, rest := route[0], route[1..];
        assert IsRoute(rest, e.target, x) by { assert rest == [] ==> e == route[last]; }
        RouteIsChain(v, edges, optional, rest, x, e.target);
        assert Adjacent(v, e.target, y);
      }
    }
  }

  lemma DistanceIsRouteLength(v: View, edges: seq<Edge>, optional: bool, x: EntityId, y: EntityId, d: nat)
    requires Views(v, edges, optional)
    ensures Distance(v, x, y, d) <==> IsRouteLength(edges, optional, From(v.dir, x, y), From(v.dir, y, x), d)
  {
    hide Connects, HasRoute;
    var a, b := From(v.dir, x, y), From(v.dir, y, x);
    if Distance(v, x, y, d) {
      var route := ChainIsRoute(v, edges, optional, x, y, d);
      forall other | HasRoute(edges, optional, other, a, b) ensures d <= |other| {
        RouteIsChain(v, edges, optional, other, x, y);
      }
    }
    if IsRouteLength(edges, optional, a, b, d) {
      var route :| HasRoute(edges, optional, route, a, b) && |route| == d;
      RouteIsChain(v, edges, optional, route, x, y);
      forall m: nat | m < d ensures !Connects(v, x, y, m) {
        if Connects(v, x, y, m) {
          var shorter := ChainIsRoute(v, edges, optional, x, y, m);
        }
      }
    }
  }

  // ----- what the traversals report

  /** Upstream lists y at depth d exactly if the shortest route from x to y has d edges, within the limit. */
  lemma UpstreamIsRoutes(
    edges: seq<Edge>, x: EntityId, limit: Option<nat>, out: seq<Reachable>, y: EntityId, d: nat)
    requires IsTraversal(Dependencies(edges), x, limit, out)
    ensures Reports(out, y, d) <==>
      y != x && (limit.None? || d <= limit.value) && IsRouteLength(edges, true, x, y, d)
  {
    TraversalReports(Dependencies(edges), x, limit, out, y, d);
    DistanceIsRouteLength(Dependencies(edges), edges, true, x, y, d);
    hide Distance, IsRouteLength, IsTraversal;
  }

  /** Downstream lists y at depth d exactly if the shortest route from y to x has d edges, within the limit. */
  lemma DownstreamIsRoutes(
    edges: seq<Edge>, x: EntityId, limit: Option<nat>, out: seq<Reachable>, y: EntityId, d: nat)
    requires IsTraversal(Dependencies(edges).(dir := Downstream), x, limit, out)
    ensures Reports(out, y, d) <==>
      y != x && (limit.None? || d <= limit.value) && IsRouteLength(edges, true, y, x, d)
  {
    var v := Dependencies(edges).(dir := Downstream);
    TraversalReports(v, x, limit, out, y, d);
    DistanceIsRouteLength(v, edges, true, x, y, d);
    hide Distance, IsRouteLength, IsTraversal;
  }

  /** Critical upstream goes by routes without optional edges. */
  lemma CriticalUpstreamIsRoutes(
    edges: seq<Edge>, x: EntityId, limit: Option<nat>, out: seq<Reachable>, y: EntityId, d: nat)
    requires IsTraversal(Dependencies(edges).(follow := Propagates), x, limit, out)
    ensures Reports(out, y, d) <==>
      y != x && (limit.None? || d <= limit.value) && IsRouteLength(edges, false, x, y, d)
  {
    var v := Dependencies(edges).(follow := Propagates);
    TraversalReports(v, x, limit, out, y, d);
    DistanceIsRouteLength(v, edges, false, x, y, d);
    hide Distance, IsRouteLength, IsTraversal;
  }

  // ----- what sets and groups mean

  /** The upstream set of x is what x depends on. */
  lemma UpstreamSetIsRoutes(edges: seq<Edge>, x: EntityId, y: EntityId, limit: Option<nat>)
    ensures y in UpstreamSet(edges, x, limit) <==> DependsOn(edges, x, y, limit)
  {
    var v := Dependencies(edges);
    InReachSet(v, x, y, limit);
    hide Connects, HasRoute;
    if Within(v, x, y, limit) {
      var d: nat :| Allowed(limit, d) && Connects(v, x, y, d);
      var route := ChainIsRoute(v, edges, true, x, y, d);
    }
    if DependsOn(edges, x, y, limit) {
      var route :| HasRoute(edges, true, route, x, y) && (limit.None? || |route| <= limit.value);
      RouteIsChain(v, edges, true, route, x, y);
      assert Allowed(limit, |route|);
    }
  }

  /** What is shared is what every one of the entities depends on. */
  lemma SharedIsCommon(edges: seq<Edge>, entities: seq<EntityId>, limit: Option<nat>, y: EntityId)
    ensures y in SharedSet(edges, entities, limit) <==>
      entities != [] && forall x :: x in entities ==> DependsOn(edges, x, y, limit)
  {
    hide DependsOn, UpstreamSet;
    forall x ensures y in UpstreamSet(edges, x, limit) <==> DependsOn(edges, x, y, limit) {
      UpstreamSetIsRoutes(edges, x, y, limit);
    }
    if entities != [] {
      assert entities[0] in entities;
    }
  }

  lemma SeveralMembers(s: set<EntityId>)
    ensures |s| > 1 <==> exists a, b :: a in s && b in s && a != b
  {
    if |s| > 1 {
      var a :| a in s;
      assert |s - {a}| > 0;
      var b :| b in s - {a};
    }
    if a, b :| a in s && b in s && a != b {
      SubsetSize({a, b}, s);
    }
  }

  /** y has a group exactly if two of the entities depend on it; the group is all that do. */
  lemma GroupsAreDependents(edges: seq<Edge>, entities: seq<EntityId>, limit: Option<nat>, y: EntityId)
    ensures y in GroupsOf(edges, entities, limit) <==>
      exists a, b :: a in entities && b in entities && a != b &&
        DependsOn(edges, a, y, limit) && DependsOn(edges, b, y, limit)
    ensures y in GroupsOf(edges, entities, limit) ==>
      forall x :: x in GroupsOf(edges, entities, limit)[y] <==> x in entities && DependsOn(edges, x, y, limit)
  {
    hide DependsOn, UpstreamSet;
    var members := Dependents(edges, entities, y, limit);
    forall x ensures x in members <==> x in entities && DependsOn(edges, x, y, limit) {
      UpstreamSetIsRoutes(edges, x, y, limit);
    }
    SeveralMembers(members);
    if |members| > 1 {
      var x :| x in members;
      assert y in FarEnds(Dependencies(edges)) by { UpstreamIsFar(edges, x, y, limit); }
    }
  }

  lemma UpstreamIsFar(edges: seq<Edge>, x: EntityId, y: EntityId, limit: Option<nat>)
    requires y in UpstreamSet(edges, x, limit)
    ensures y in FarEnds(Dependencies(edges))
  {
  }
}
