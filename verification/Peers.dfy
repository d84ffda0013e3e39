/** Peer assignment: who watches each target, and from which dependency domain. */
module Peers {
  import opened Common
  import opened Paths
  import opened Graph
  import Revision

  datatype Role = SameDomain | DifferentDomain | Independent | Filler

  datatype Observer = Observer(entity: EntityId, role: Role)

  datatype PeerAssignment = PeerAssignment(target: EntityId, observers: seq<Observer>)

  datatype AssignmentPlan = AssignmentPlan(revision: Revision.Hash, assignments: seq<PeerAssignment>)

  type Degree = Revision.Degree

  /** The entities chosen so far. */
  function Chosen(observers: seq<Observer>): set<EntityId> {
    set o | o in observers :: o.entity
  }

  ghost predicate NoRepeats(observers: seq<Observer>) {
    forall i, j :: 0 <= i < j < |observers| ==> observers[i].entity != observers[j].entity
  }

  // ----- domains and buckets

  /** Everything an entity transitively needs. */
  ghost function DomainOf(edges: seq<Edge>, x: EntityId): set<EntityId> {
    UpstreamSet(edges, x, None)
  }

  /** How a candidate with one domain relates to a target with another. */
  function Relation(candidate: set<EntityId>, target: set<EntityId>): Role {
    if candidate == {} && target == {} then Independent
    else if candidate !! target then (if candidate == {} then Independent else DifferentDomain)
    else SameDomain
  }

  ghost function RoleOf(edges: seq<Edge>, target: EntityId, candidate: EntityId): Role {
    Relation(DomainOf(edges, candidate), DomainOf(edges, target))
  }

  /** The candidates of one kind, in candidate order, without the target itself. */
  ghost function Bucket(edges: seq<Edge>, candidates: seq<EntityId>, target: EntityId, role: Role): seq<EntityId> {
    if candidates == [] then []
    else
      var last := |candidates| - 1;
      Bucket(edges, candidates[..last], target, role) +
      if candidates[last] != target && RoleOf(edges, target, candidates[last]) == role then [candidates[last]] else []
  }

  function Rotated(items: seq<EntityId>, shift: nat): seq<EntityId> {
    if items == [] then [] else items[shift % |items|..] + items[..shift % |items|]
  }

  // ----- choosing from three buckets

  function FirstUnchosen(bucket: seq<EntityId>, chosen: set<EntityId>): (r: Option<EntityId>)
    ensures r.None? <==> forall i :: 0 <= i < |bucket| ==> bucket[i] in chosen
    ensures r.Some? ==> r.value in bucket && r.value !in chosen
  {
    if bucket == [] then None
    else if bucket[0] !in chosen then Some(bucket[0])
    else FirstUnchosen(bucket[1..], chosen)
  }

  /** Take one representative of a kind, unless the degree is reached. */
  function WithOne(observers: seq<Observer>, bucket: seq<EntityId>, role: Role, degree: nat): seq<Observer> {
    var pick := FirstUnchosen(bucket, Chosen(observers));
    if |observers| >= degree || pick.None? then observers else observers + [Observer(pick.value, role)]
  }

  /** Fill up from a bucket until the degree is reached. */
  function Filled(observers: seq<Observer>, bucket: seq<EntityId>, degree: nat): seq<Observer>
    decreases |bucket|
  {
    if bucket == [] then observers
    else if |observers| < degree && bucket[0] !in Chosen(observers)
    then Filled(observers + [Observer(bucket[0], Filler)], bucket[1..], degree)
    else Filled(observers, bucket[1..], degree)
  }

  function Variety(
    same: seq<EntityId>, different: seq<EntityId>, independent: seq<EntityId>, degree: nat): seq<Observer>
  {
    WithOne(WithOne(WithOne([], same, SameDomain, degree), different, DifferentDomain, degree),
            independent, Independent, degree)
  }

  function Choice(
    same: seq<EntityId>, different: seq<EntityId>, independent: seq<EntityId>, degree: nat): seq<Observer>
  {
    Filled(Filled(Filled(Variety(same, different, independent, degree), same, degree), different, degree),
           independent, degree)
  }

  // ----- the plan

  /** The observers of a target at position i. */
  ghost function ObserversOf(
    edges: seq<Edge>, target: EntityId, candidates: seq<EntityId>, degree: nat, i: nat): seq<Observer>
  {
    Choice(Rotated(Bucket(edges, candidates, target, SameDomain), i),
           Rotated(Bucket(edges, candidates, target, DifferentDomain), i),
           Rotated(Bucket(edges, candidates, target, Independent), i),
           degree)
  }

  ghost predicate IsPlan(
    edges: seq<Edge>, targets: seq<EntityId>, candidates: seq<EntityId>, degree: nat, assignments: seq<PeerAssignment>)
  {
    && |assignments| == |targets|
    && forall i :: 0 <= i < |targets| ==>
      assignments[i] == PeerAssignment(targets[i], ObserversOf(edges, targets[i], candidates, degree, i))
  }

  /** A plan with the revision of its inventory. */
  ghost predicate IsMadePlan(
    edges: seq<Edge>, targets: seq<EntityId>, candidates: seq<EntityId>, degree: Degree, plan: AssignmentPlan)
  {
    && plan.revision == Revision.Fnv(Revision.OFFSET_BASIS, Revision.RevisionInput(targets, candidates, degree))
    && IsPlan(edges, targets, candidates, degree, plan.assignments)
  }

  /** The domains of the candidates, computed once. */
  method DomainsOf(graph: DependencyGraph, candidates: seq<EntityId>) returns (domains: map<EntityId, set<EntityId>>)
    requires graph.Valid()
    ensures forall c :: c in candidates ==> c in domains && domains[c] == DomainOf(graph.edges, c)
  {
    domains := map[];
    for i := 0 to |candidates|
      invariant forall c :: c in candidates[..i] ==> c in domains && domains[c] == DomainOf(graph.edges, c)
    {
      var reach := graph.UpstreamOf(candidates[i], None);
      domains := domains[candidates[i] := EntitiesOf(reach)];
      assert candidates[..i + 1] == candidates[..i] + [candidates[i]];
    }
    assert candidates[..|candidates|] == candidates;
  }

  /** Partition the candidates by how independent they are of the target. */
  method PartitionCandidates(
    ghost edges: seq<Edge>, candidates: seq<EntityId>, domains: map<EntityId, set<EntityId>>,
    target: EntityId, targetDomain: set<EntityId>)
    returns (same: seq<EntityId>, different: seq<EntityId>, independent: seq<EntityId>)
    requires forall c :: c in candidates ==> c in domains && domains[c] == DomainOf(edges, c)
    requires targetDomain == DomainOf(edges, target)
    ensures same == Bucket(edges, candidates, target, SameDomain)
    ensures different == Bucket(edges, candidates, target, DifferentDomain)
    ensures independent == Bucket(edges, candidates, target, Independent)
  {
    same, different, independent := [], [], [];
    for i := 0 to |candidates|
      invariant same == Bucket(edges, candidates[..i], target, SameDomain)
      invariant different == Bucket(edges, candidates[..i], target, DifferentDomain)
      invariant independent == Bucket(edges, candidates[..i], target, Independent)
    {
      var c := candidates[i];
      assert candidates[..i + 1][..i] == candidates[..i];
      if c == target {
        continue;
      }
      var domain := if c in domains then domains[c] else {};
      if domain == {} && targetDomain == {} {
        independent := independent + [c];
      } else if domain !! targetDomain {
        if domain == {} {
          independent := independent + [c];
        } else {
          different := different + [c];
        }
      } else {
        same := same + [c];
      }
    }
    assert candidates[..|candidates|] == candidates;
  }

  /** Variety before quantity: one of each kind, then whatever is left, up to the degree. */
  method Choose(same: seq<EntityId>, different: seq<EntityId>, independent: seq<EntityId>, degree: Degree)
    returns (observers: seq<Observer>)
    ensures observers == Choice(same, different, independent, degree)
  {
    var buckets := [(same, SameDomain), (different, DifferentDomain), (independent, Independent)];
    observers := [];
    var chosen: set<EntityId> := {};
    for i := 0 to 3
      invariant |observers| <= i && |observers| <= degree && chosen == Chosen(observers)
      invariant observers == (
        if i == 0 then []
        else if i == 1 then WithOne([], same, SameDomain, degree)
        else if i == 2 then WithOne(WithOne([], same, SameDomain, degree), different, DifferentDomain, degree)
        else Variety(same, different, independent, degree))
    {
      if |observers| % 0x1_0000_0000 >= degree {
        assert observers == Variety(same, different, independent, degree);
        break;
      }
      var (bucket, role) := buckets[i];
      var pick := FirstUnchosen(bucket, chosen);
      if pick.Some? {
        chosen := chosen + {pick.value};
        observers := observers + [Observer(pick.value, role)];
      }
    }
    WithinDegree(same, different, independent, degree);
    observers := Fill(observers, same, degree);
    observers := Fill(observers, different, degree);
    observers := Fill(observers, independent, degree);
  }

  lemma WithinDegree(same: seq<EntityId>, different: seq<EntityId>, independent: seq<EntityId>, degree: nat)
    ensures |Variety(same, different, independent, degree)| <= degree
  {
  }

  method Fill(observers0: seq<Observer>, bucket: seq<EntityId>, degree: Degree) returns (observers: seq<Observer>)
    requires |observers0| <= degree
    ensures observers == Filled(observers0, bucket, degree) && |observers| <= degree
  {
    observers := observers0;
    for i := 0 to |bucket|
      invariant |observers| <= degree
      invariant Filled(observers, bucket[i..], degree) == Filled(observers0, bucket, degree)
    {
      assert bucket[i..][0] == bucket[i] && bucket[i..][1..] == bucket[i + 1..];
      if |observers| % 0x1_0000_0000 >= degree {
        FullStaysFull(observers, bucket[i..], degree);
        return;
      }
      if bucket[i] !in Chosen(observers) {
        observers := observers + [Observer(bucket[i], Filler)];
      }
    }
  }

  lemma {:induction false} FullStaysFull(observers: seq<Observer>, bucket: seq<EntityId>, degree: nat)
    requires |observers| >= degree
    ensures Filled(observers, bucket, degree) == observers
    decreases |bucket|
  {
    if bucket != [] {
      FullStaysFull(observers, bucket[1..], degree);
    }
  }

  /** Partition, rotate by the target's position, choose. */
  method AssignOne(
    target: EntityId, candidates: seq<EntityId>, domains: map<EntityId, set<EntityId>>,
    graph: DependencyGraph, degree: Degree, i: nat)
    returns (observers: seq<Observer>)
    requires graph.Valid()
    requires forall c :: c in candidates ==> c in domains && domains[c] == DomainOf(graph.edges, c)
    ensures observers == ObserversOf(graph.edges, target, candidates, degree, i)
  {
    var reach := graph.UpstreamOf(target, None);
    var same, different, independent :=
      PartitionCandidates(graph.edges, candidates, domains, target, EntitiesOf(reach));
    observers := Choose(Rotated(same, i), Rotated(different, i), Rotated(independent, i), degree);
  }

  method Assign(
    targets: seq<EntityId>, candidates: seq<EntityId>, graph: DependencyGraph, degree: Degree, revision: Revision.Hash)
    returns (plan: AssignmentPlan)
    requires graph.Valid()
    ensures plan.revision == revision
    ensures IsPlan(graph.edges, targets, candidates, degree, plan.assignments)
  {
    hide ObserversOf;
    var assignments: seq<PeerAssignment> := [];
    var domains := DomainsOf(graph, candidates);
    for i := 0 to |targets|
      invariant |assignments| == i
      invariant forall j :: 0 <= j < i ==>
        assignments[j] == PeerAssignment(targets[j], ObserversOf(graph.edges, targets[j], candidates, degree, j))
    {
      var observers := AssignOne(targets[i], candidates, domains, graph, degree, i);
      assignments := assignments + [PeerAssignment(targets[i], observers)];
    }
    plan := AssignmentPlan(revision, assignments);
  }

  /** The controller's plan: the revision is computed from the ids and the degree, then the observers are assigned. */
  method MakePlan(targets: seq<EntityId>, candidates: seq<EntityId>, graph: DependencyGraph, degree: Degree)
    returns (plan: AssignmentPlan)
    requires graph.Valid()
    ensures IsMadePlan(graph.edges, targets, candidates, degree, plan)
  {
    var revision := Revision.PlanRevision(targets, candidates, degree);
    plan := Assign(targets, candidates, graph, degree, revision);
  }

  // ----- every target gets as many different observers as it can

  lemma ChosenPushed(observers: seq<Observer>, o: Observer)
    ensures Chosen(observers + [o]) == Chosen(observers) + {o.entity}
    ensures NoRepeats(observers) && o.entity !in Chosen(observers) ==> NoRepeats(observers + [o])
  {
    var after := observers + [o];
    assert after[|observers|] == o && o in after;
    assert forall p :: p in observers ==> p in after;
    if NoRepeats(observers) && o.entity !in Chosen(observers) {
      forall i, j | 0 <= i < j < |after| ensures after[i].entity != after[j].entity {
        assert observers[i] in observers;
        assert observers[i].entity in Chosen(observers);
      }
    }
  }

  lemma {:induction false} ChosenSize(observers: seq<Observer>)
    requires NoRepeats(observers)
    ensures |Chosen(observers)| == |observers|
  {
    if observers != [] {
      var last := |observers| - 1;
      var front := observers[..last];
      assert forall j :: 0 <= j < last ==> front[j] == observers[j];
      assert observers[last].entity !in Chosen(front);
      ChosenSize(front);
      ChosenPushed(front, observers[last]);
      hide NoRepeats, Chosen;
      assert observers == front + [observers[last]];
    }
  }

  /** Filling adds members of the bucket only, and all of them unless the degree is reached. */
  lemma {:induction false} FilledEffect(observers: seq<Observer>, bucket: seq<EntityId>, degree: nat)
    requires NoRepeats(observers) && |observers| <= degree
    ensures var result := Filled(observers, bucket, degree);
      && observers <= result && NoRepeats(result) && |result| <= degree
      && Chosen(result) <= Chosen(observers) + Elements(bucket)
      && (|result| < degree ==> Elements(bucket) <= Chosen(result))
      && (forall i :: |observers| <= i < |result| ==> result[i].role == Filler)
    decreases |bucket|
  {
    if bucket != [] {
      assert Elements(bucket) == {bucket[0]} + Elements(bucket[1..]) by {
        assert bucket == [bucket[0]] + bucket[1..];
      }
      if |observers| < degree && bucket[0] !in Chosen(observers) {
        ChosenPushed(observers, Observer(bucket[0], Filler));
        FilledEffect(observers + [Observer(bucket[0], Filler)], bucket[1..], degree);
      } else {
        FilledEffect(observers, bucket[1..], degree);
        ChosenGrows(observers, Filled(observers, bucket[1..], degree));
      }
    } else {
      assert Elements(bucket) == {};
    }
  }

  lemma ChosenGrows(observers: seq<Observer>, result: seq<Observer>)
    requires observers <= result
    ensures Chosen(observers) <= Chosen(result)
  {
  }

  /** What taking one representative adds. */
  lemma WithOneEffect(observers: seq<Observer>, bucket: seq<EntityId>, role: Role, degree: nat)
    requires NoRepeats(observers) && |observers| <= degree
    ensures var result := WithOne(observers, bucket, role, degree);
      && observers <= result && NoRepeats(result) && |result| <= degree
      && Chosen(result) <= Chosen(observers) + Elements(bucket)
      && forall i :: |observers| <= i < |result| ==> result[i].role == role && result[i].entity in bucket
  {
    var pick := FirstUnchosen(bucket, Chosen(observers));
    if |observers| < degree && pick.Some? {
      ChosenPushed(observers, Observer(pick.value, role));
    }
  }

  ghost predicate RolesHold(
    observers: seq<Observer>, same: seq<EntityId>, different: seq<EntityId>, independent: seq<EntityId>)
  {
    forall o :: o in observers ==>
      match o.role
      case SameDomain => o.entity in same
      case DifferentDomain => o.entity in different
      case Independent => o.entity in independent
      case Filler => true
  }

  lemma VarietyEffect(same: seq<EntityId>, different: seq<EntityId>, independent: seq<EntityId>, degree: nat)
    ensures var v := Variety(same, different, independent, degree);
      && NoRepeats(v) && |v| <= degree && RolesHold(v, same, different, independent)
      && Chosen(v) <= Elements(same) + Elements(different) + Elements(independent)
      && forall o :: o in v ==> !o.role.Filler?
  {
    var v1 := WithOne([], same, SameDomain, degree);
    var v2 := WithOne(v1, different, DifferentDomain, degree);
    WithOneEffect([], same, SameDomain, degree);
    WithOneEffect(v1, different, DifferentDomain, degree);
    WithOneEffect(v2, independent, Independent, degree);
  }

  /** How three fills in a row, from a variety without fillers, come out. */
  ghost predicate FilledUp(v: seq<Observer>, choice: seq<Observer>, supply: set<EntityId>, degree: nat) {
    && v <= choice && NoRepeats(choice) && |choice| <= degree && Chosen(choice) <= supply
    && (|choice| < degree ==> supply <= Chosen(choice))
    && (forall i :: |v| <= i < |choice| ==> choice[i].role == Filler)
  }

  lemma FillsUp(
    v: seq<Observer>, same: seq<EntityId>, different: seq<EntityId>, independent: seq<EntityId>, degree: nat)
    requires NoRepeats(v) && |v| <= degree
    requires Chosen(v) <= Elements(same) + Elements(different) + Elements(independent)
    ensures FilledUp(v, Filled(Filled(Filled(v, same, degree), different, degree), independent, degree),
                     Elements(same) + Elements(different) + Elements(independent), degree)
  {
    var f1 := Filled(v, same, degree);
    var f2 := Filled(f1, different, degree);
    var f3 := Filled(f2, independent, degree);
    FilledEffect(v, same, degree);
    FilledEffect(f1, different, degree);
    FilledEffect(f2, independent, degree);
    ChosenGrows(f1, f3);
    ChosenGrows(f2, f3);
    hide Filled, NoRepeats, Chosen, Elements;
  }

  /** A choice is as large as the degree and the supply allow, without repeats, and its roles are earned. */
  lemma ChoiceEffect(same: seq<EntityId>, different: seq<EntityId>, independent: seq<EntityId>, degree: nat)
    ensures var choice := Choice(same, different, independent, degree);
      var supply := Elements(same) + Elements(different) + Elements(independent);
      && NoRepeats(choice) && |choice| == Min(degree, |supply|) && Chosen(choice) <= supply
      && RolesHold(choice, same, different, independent)
      && Variety(same, different, independent, degree) <= choice
      && (forall i :: |Variety(same, different, independent, degree)| <= i < |choice| ==> choice[i].role == Filler)
  {
    var v := Variety(same, different, independent, degree);
    var choice := Choice(same, different, independent, degree);
    var supply := Elements(same) + Elements(different) + Elements(independent);
    VarietyEffect(same, different, independent, degree);
    FillsUp(v, same, different, independent, degree);
    assert FilledUp(v, choice, supply, degree);
    hide Filled, Variety, NoRepeats, Chosen, Elements, Choice;
    ChosenSize(choice);
    SubsetSize(Chosen(choice), supply);
    if |choice| < degree {
      assert Chosen(choice) == supply;
    }
    RolesStayEarned(v, choice, same, different, independent);
  }

  lemma RolesStayEarned(
    v: seq<Observer>, choice: seq<Observer>, same: seq<EntityId>, different: seq<EntityId>, independent: seq<EntityId>)
    requires v <= choice && RolesHold(v, same, different, independent)
    requires forall i :: |v| <= i < |choice| ==> choice[i].role == Filler
    ensures RolesHold(choice, same, different, independent)
  {
    forall o | o in choice ensures o in v || o.role == Filler {
      var i :| 0 <= i < |choice| && choice[i] == o;
    }
  }
}
