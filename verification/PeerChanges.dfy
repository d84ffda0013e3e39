/** What a change of edges does to a plan and does not do to its revision. */
module PeerChanges {
  import opened Common
  import opened Paths
  import opened Graph
  import opened Peers
  import opened PeerFairness
  import opened PeerLoad

  // ----- the revision sees ids and the degree only

  const SHARED_EDGES: seq<Edge> := [Edge(0, 2, 9, Critical, "nfs"), Edge(1, 0, 9, Critical, "nfs")]

  /** Nothing that is depended on depends on anything itself. */
  ghost predicate IsFlat(edges: seq<Edge>) {
    forall e, f :: e in edges && f in edges ==> e.target != f.source
  }

  lemma FlatChains(edges: seq<Edge>, x: EntityId, y: EntityId, n: nat)
    requires IsFlat(edges) && n > 0 && Connects(Dependencies(edges), x, y, n)
    ensures exists e :: e in edges && e.source == x && e.target == y
  {
    var v := Dependencies(edges);
    var z :| Connects(v, x, z, n - 1) && Adjacent(v, z, y);
    var e :| e in v.edges && v.follow(e) && Near(v.dir, e) == z && Far(v.dir, e) == y;
    assert n == 1;
  }

  /** In a flat graph a domain is what is depended on directly. */
  lemma FlatDomain(edges: seq<Edge>, x: EntityId)
    requires IsFlat(edges)
    ensures DomainOf(edges, x) == set e | e in edges && e.source == x :: e.target
  {
    var v := Dependencies(edges);
    forall y ensures y in DomainOf(edges, x) <==> exists e :: e in edges && e.source == x && e.target == y {
      InReachSet(v, x, y, None);
      if y in DomainOf(edges, x) {
        var n: nat :| Allowed(None, n) && Connects(v, x, y, n);
        FlatChains(edges, x, y, n);
      }
      if e :| e in edges && e.source == x && e.target == y {
        assert Adjacent(v, x, y) && Connects(v, x, x, 0);
        ConnectsStep(v, x, x, y, 0);
        assert Allowed(None, 1);
      }
    }
  }

  lemma SharedDomain(x: EntityId)
    ensures x == 0 || x == 2 ==> DomainOf(SHARED_EDGES, x) == {9}
    ensures x == 1 ==> DomainOf(SHARED_EDGES, x) == {}
  {
    FlatDomain(SHARED_EDGES, x);
    hide DomainOf;
    assert SHARED_EDGES[0].source == 2 && SHARED_EDGES[1].source == 0;
  }

  lemma SharedBucket()
    ensures Bucket(SHARED_EDGES, [1, 2], 0, SameDomain) == [2]
  {
    SharedDomain(0);
    SharedDomain(1);
    SharedDomain(2);
    var bucket := Bucket(SHARED_EDGES, [1, 2], 0, SameDomain);
    BucketMembers(SHARED_EDGES, [1, 2], 0, SameDomain);
    hide Bucket, DomainOf;
    assert Elements(bucket) == {2};
    DistinctSize(bucket);
    assert bucket[0] in Elements(bucket);
  }

  lemma SingleCount(edges: seq<Edge>)
    ensures |ObserversOf(edges, 0, [1, 2], 1, 0)| == 1
  {
    TwoCandidates();
    AssignmentShape(edges, 0, [1, 2], 1, 0);
    hide *;
  }

  lemma TwoCandidates()
    ensures Min(1, |Elements([1, 2]) - {0}|) == 1
  {
    var others := Elements([1, 2]) - {0};
    assert [1, 2][0] in others;
  }

  /** With degree one and two candidates, the single observer is the first representative. */
  lemma SingleObserver(edges: seq<Edge>, first: Observer)
    requires var reps := RepresentativesOf(edges, 0, [1, 2], 0); reps != [] && reps[0] == first
    ensures ObserversOf(edges, 0, [1, 2], 1, 0) == [first]
  {
    SingleCount(edges);
    VarietyFirst(edges, 0, [1, 2], 1, 0);
    hide ObserversOf, RepresentativesOf;
    var observers := ObserversOf(edges, 0, [1, 2], 1, 0);
    assert observers == observers[..1];
  }

  lemma EdgesChangeTheObserver()
    ensures ObserversOf([], 0, [1, 2], 1, 0) == [Observer(1, Independent)]
    ensures ObserversOf(SHARED_EDGES, 0, [1, 2], 1, 0) == [Observer(2, SameDomain)]
  {
    NoEdgesBuckets([1, 2], 0);
    OthersWithout([1, 2], 0);
    SharedBucket();
    hide ObserversOf, Bucket;
    assert Rotated([1, 2], 0) == [1, 2] && Rotated([2], 0) == [2];
    SingleObserver([], Observer(1, Independent));
    SingleObserver(SHARED_EDGES, Observer(2, SameDomain));
  }

  /**
    Plans for one inventory share a revision whatever the edges, and an edge-only change can
    hand a target to another observer: agents comparing revisions do not learn of it.
   */
  lemma RevisionMissesEdges(before: AssignmentPlan, after: AssignmentPlan)
    requires IsMadePlan([], [0, 1, 2], [1, 2], 1, before) && IsMadePlan(SHARED_EDGES, [0, 1, 2], [1, 2], 1, after)
    ensures before.revision == after.revision
    ensures before.assignments[0] == PeerAssignment(0, [Observer(1, Independent)])
    ensures after.assignments[0] == PeerAssignment(0, [Observer(2, SameDomain)])
  {
    EdgesChangeTheObserver();
    hide ObserversOf;
    assert [0, 1, 2][0] == 0;
  }

  // ----- what of the edges a plan depends on

  /** Under both graphs, every candidate relates to every other target in the same way. */
  ghost predicate SameRoles(e: seq<Edge>, f: seq<Edge>, targets: seq<EntityId>, candidates: seq<EntityId>) {
    forall t, c :: t in targets && c in candidates && c != t ==> RoleOf(e, t, c) == RoleOf(f, t, c)
  }

  lemma {:induction false} SameRolesSameBucket(
    e: seq<Edge>, f: seq<Edge>, candidates: seq<EntityId>, target: EntityId, role: Role)
    requires SameRoles(e, f, [target], candidates)
    ensures Bucket(e, candidates, target, role) == Bucket(f, candidates, target, role)
  {
    hide RoleOf;
    if candidates != [] {
      var last := |candidates| - 1;
      assert candidates[last] in candidates && target in [target];
      SameRolesSameBucket(e, f, candidates[..last], target, role);
    }
  }

  lemma SameObservers(
    e: seq<Edge>, f: seq<Edge>, candidates: seq<EntityId>, target: EntityId, degree: nat, i: nat)
    requires SameRoles(e, f, [target], candidates)
    ensures ObserversOf(e, target, candidates, degree, i) == ObserversOf(f, target, candidates, degree, i)
  {
    SameRolesSameBucket(e, f, candidates, target, SameDomain);
    SameRolesSameBucket(e, f, candidates, target, DifferentDomain);
    SameRolesSameBucket(e, f, candidates, target, Independent);
    hide Bucket, Choice;
  }

  /**
    For one inventory the revision is the same whatever the edges, and so is the plan if the
    edges change nobody's relation to a target. A change the revision does not announce thus
    takes a changed relation; that this is not enough is what RolesAreNotNeeded shows.
   */
  lemma RolesDecideThePlan(
    e: seq<Edge>, f: seq<Edge>, targets: seq<EntityId>, candidates: seq<EntityId>, degree: Degree,
    before: AssignmentPlan, after: AssignmentPlan)
    requires IsMadePlan(e, targets, candidates, degree, before) && IsMadePlan(f, targets, candidates, degree, after)
    ensures before.revision == after.revision
    ensures SameRoles(e, f, targets, candidates) ==> before == after
  {
    if SameRoles(e, f, targets, candidates) {
      forall i | 0 <= i < |targets| ensures before.assignments[i] == after.assignments[i] {
        assert targets[i] in targets;
        SameObservers(e, f, candidates, targets[i], degree, i);
        hide ObserversOf;
      }
      assert before.assignments == after.assignments;
    }
  }

  /** A host mounts from a file server. */
  function Mount(id: EdgeId, host: EntityId, server: EntityId): Edge {
    Edge(id, host, server, Critical, "nfs")
  }

  /** Two file servers: hosts 0 and 1 mount the first, hosts 1 and 2 the second. */
  const NARROW: seq<Edge> := [Mount(0, 0, 9), Mount(1, 1, 9), Mount(2, 1, 8), Mount(3, 2, 8)]

  /** Host 2 mounts the first one too. */
  const WIDE: seq<Edge> := [Mount(0, 0, 9), Mount(1, 1, 9), Mount(2, 1, 8), Mount(3, 2, 8), Mount(4, 2, 9)]

  lemma Mounted(edges: seq<Edge>)
    requires edges == NARROW || edges == WIDE
    ensures IsFlat(edges)
    ensures Mount(0, 0, 9) in edges && Mount(1, 1, 9) in edges && Mount(2, 1, 8) in edges && Mount(3, 2, 8) in edges
    ensures edges == WIDE <==> Mount(4, 2, 9) in edges
    ensures forall e :: e in edges ==>
      e in {Mount(0, 0, 9), Mount(1, 1, 9), Mount(2, 1, 8), Mount(3, 2, 8), Mount(4, 2, 9)}
  {
    assert edges[0] in edges && edges[1] in edges && edges[2] in edges && edges[3] in edges;
    assert WIDE[4] in WIDE;
  }

  ghost predicate Serves(edges: seq<Edge>, host: EntityId, server: EntityId) {
    exists id :: Mount(id, host, server) in edges
  }

  lemma MountDomain(edges: seq<Edge>, host: EntityId, servers: set<EntityId>)
    requires IsFlat(edges)
    requires forall e :: e in edges && e.source == host ==> e.target in servers
    requires forall y :: y in servers ==> Serves(edges, host, y)
    ensures DomainOf(edges, host) == servers
  {
    FlatDomain(edges, host);
    hide DomainOf, IsFlat;
    forall y | y in servers ensures y in DomainOf(edges, host) {
      var id :| Mount(id, host, y) in edges;
      assert Mount(id, host, y).source == host && Mount(id, host, y).target == y;
    }
  }

  lemma FirstDomain(edges: seq<Edge>)
    requires edges == NARROW || edges == WIDE
    ensures DomainOf(edges, 0) == {9}
  {
    Mounted(edges);
    hide DomainOf, IsFlat;
    assert Serves(edges, 0, 9);
    MountDomain(edges, 0, {9});
  }

  lemma MiddleDomain(edges: seq<Edge>)
    requires edges == NARROW || edges == WIDE
    ensures DomainOf(edges, 1) == {8, 9}
  {
    Mounted(edges);
    hide DomainOf, IsFlat;
    assert Serves(edges, 1, 9) && Serves(edges, 1, 8);
    MountDomain(edges, 1, {8, 9});
  }

  lemma LastDomain(edges: seq<Edge>)
    requires edges == NARROW || edges == WIDE
    ensures DomainOf(edges, 2) == if edges == WIDE then {8, 9} else {8}
  {
    Mounted(edges);
    hide DomainOf, IsFlat;
    assert Serves(edges, 2, 8);
    if edges == WIDE {
      assert Serves(edges, 2, 9);
      MountDomain(edges, 2, {8, 9});
    } else {
      MountDomain(edges, 2, {8});
    }
  }

  lemma MountRoles(edges: seq<Edge>)
    requires edges == NARROW || edges == WIDE
    ensures RoleOf(edges, 0, 1) == RoleOf(edges, 1, 2) == RoleOf(edges, 2, 1) == SameDomain
    ensures RoleOf(edges, 0, 2) == if edges == WIDE then SameDomain else DifferentDomain
  {
    hide DomainOf, Relation;
    FirstDomain(edges);
    MiddleDomain(edges);
    LastDomain(edges);
    MountRelations();
    NarrowIsNotWide();
  }

  lemma MountRelations()
    ensures Relation({8, 9}, {9}) == Relation({8}, {8, 9}) == Relation({8, 9}, {8}) == SameDomain
    ensures Relation({8, 9}, {8, 9}) == SameDomain && Relation({8}, {9}) == DifferentDomain
  {
    assert 8 in {8, 9} && 9 in {8, 9} && 9 in {9} && 8 in {8};
  }

  /** Host 1 is the first of the hosts sharing host 0's domain, whether or not host 2 shares it. */
  lemma MountObserver(edges: seq<Edge>)
    requires edges == NARROW || edges == WIDE
    ensures ObserversOf(edges, 0, [1, 2], 1, 0) == [Observer(1, SameDomain)]
  {
    MountRoles(edges);
    hide RoleOf, ObserversOf, Bucket;
    var same := Bucket(edges, [1, 2], 0, SameDomain);
    BucketOfTwo(edges, 1, 2, 0, SameDomain);
    assert same[0] == 1;
    RotatedMembers(same, 0);
    assert 0 % |same| == 0;
    assert RepresentativesOf(edges, 0, [1, 2], 0)[0] == Observer(1, SameDomain);
    SingleObserver(edges, Observer(1, SameDomain));
  }

  lemma BucketOfTwo(edges: seq<Edge>, a: EntityId, b: EntityId, target: EntityId, role: Role)
    ensures Bucket(edges, [a, b], target, role) ==
      (if a != target && RoleOf(edges, target, a) == role then [a] else []) +
      (if b != target && RoleOf(edges, target, b) == role then [b] else [])
  {
    hide RoleOf;
    assert [a, b][..1] == [a] && [a][..0] == [];
    assert Bucket(edges, [], target, role) == [];
    assert Bucket(edges, [a], target, role) ==
      if a != target && RoleOf(edges, target, a) == role then [a] else [];
  }

  /** Hosts 1 and 2 share a domain under both graphs. */
  lemma SameMountRoles(i: nat)
    requires i == 1 || i == 2
    ensures SameRoles(NARROW, WIDE, [i], [1, 2])
  {
    MountRoles(NARROW);
    MountRoles(WIDE);
    hide RoleOf;
    assert RoleOf(NARROW, i, 3 - i) == RoleOf(WIDE, i, 3 - i);
    OtherOfTwo(NARROW, WIDE, i);
  }

  lemma OtherOfTwo(e: seq<Edge>, f: seq<Edge>, i: nat)
    requires i == 1 || i == 2
    requires RoleOf(e, i, 3 - i) == RoleOf(f, i, 3 - i)
    ensures SameRoles(e, f, [i], [1, 2])
  {
    hide RoleOf;
    forall t, c | t in [i] && c in [1, 2] && c != t ensures RoleOf(e, t, c) == RoleOf(f, t, c) {
      assert t == i && c == 3 - i;
    }
  }

  lemma SameMountObservers(i: nat)
    requires i < 3
    ensures ObserversOf(NARROW, i, [1, 2], 1, i) == ObserversOf(WIDE, i, [1, 2], 1, i)
  {
    hide ObserversOf, SameRoles;
    if i == 0 {
      MountObserver(NARROW);
      MountObserver(WIDE);
    } else {
      SameMountRoles(i);
      SameObservers(NARROW, WIDE, [1, 2], i, 1, i);
    }
  }

  lemma MountPlan(edges: seq<Edge>, plan: AssignmentPlan, i: nat)
    requires IsMadePlan(edges, [0, 1, 2], [1, 2], 1, plan) && i < 3
    ensures |plan.assignments| == 3
    ensures plan.assignments[i] == PeerAssignment(i, ObserversOf(edges, i, [1, 2], 1, i))
  {
    hide ObserversOf;
    var targets := [0, 1, 2];
    assert targets[i] == i;
  }

  /**
    A changed relation need not change the plan: host 2 moves into host 0's domain, and every
    target keeps its observer.
   */
  lemma RolesAreNotNeeded(before: AssignmentPlan, after: AssignmentPlan)
    requires IsMadePlan(NARROW, [0, 1, 2], [1, 2], 1, before) && IsMadePlan(WIDE, [0, 1, 2], [1, 2], 1, after)
    ensures RoleOf(NARROW, 0, 2) != RoleOf(WIDE, 0, 2)
    ensures before == after
  {
    MountRoles(NARROW);
    MountRoles(WIDE);
    NarrowIsNotWide();
    hide RoleOf;
    SameAssignments(NARROW, WIDE, before, after);
  }

  lemma NarrowIsNotWide()
    ensures NARROW != WIDE
  {
    assert |NARROW| == 4 && |WIDE| == 5;
  }

  lemma SameAssignments(e: seq<Edge>, f: seq<Edge>, before: AssignmentPlan, after: AssignmentPlan)
    requires e == NARROW && f == WIDE
    requires IsMadePlan(e, [0, 1, 2], [1, 2], 1, before) && IsMadePlan(f, [0, 1, 2], [1, 2], 1, after)
    ensures before == after
  {
    hide ObserversOf, SameRoles;
    RolesDecideThePlan(e, f, [0, 1, 2], [1, 2], 1, before, after);
    hide IsMadePlan;
    MountPlan(e, before, 0);
    MountPlan(f, after, 0);
    forall i | 0 <= i < 3 ensures before.assignments[i] == after.assignments[i] {
      MountPlan(e, before, i);
      MountPlan(f, after, i);
      SameMountObservers(i);
    }
    assert before.assignments == after.assignments;
  }
}
