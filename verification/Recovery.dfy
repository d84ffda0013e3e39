/**
  The recovery verdict: whether an incident's roots, or all of it, are verified healthy
  by current observations, and what the incident lifecycle makes of that.
 */
module Recovery {
  import opened Common
  import opened Observations
  import opened ObservationIndex

  datatype Health = Healthy | Degraded | Unavailable | Maintenance | Unknown | NotApplicable

  datatype IncidentStatus = Open | Acknowledged | Recovering | Resolved | Reset | Suppressed {
    predicate IsActive() {
      Open? || Acknowledged? || Recovering?
    }
  }

  const HOST_UNREACHABLE := "HOST_UNREACHABLE"
  const NETWORK_PROBE := "network.tcp"

  datatype Diagnosis = Diagnosis(fingerprint: string, affected: seq<EntityId>)

  datatype Incident = Incident(
    id: nat,
    fingerprint: string,
    status: IncidentStatus,
    affected: seq<EntityId>,
    roots: seq<EntityId>,
    kinds: seq<string>,
    evidence: seq<ObservationId>
  )

  /** What the controller knows this cycle; `confirms` is the state engine's per-stream recovery verdict. */
  datatype Picture = Picture(
    latest: Index,
    confirms: Key -> bool,
    states: map<EntityId, Health>,
    services: set<EntityId>,
    diagnoses: seq<Diagnosis>
  )

  // ----- evidence

  /** The stored observations behind an incident; none at all if any of them is gone. */
  function Originals(evidence: seq<ObservationId>, store: map<ObservationId, Observation>): seq<Observation> {
    if forall i :: 0 <= i < |evidence| ==> evidence[i] in store
    then seq(|evidence|, i requires 0 <= i < |evidence| && evidence[i] in store => store[evidence[i]])
    else []
  }

  predicate Selectable(o: Observation) {
    o.status.IsConclusive() && o.probe != PROBE_BOOT
  }

  /** The conclusive evidence, restricted to the given targets if asked. */
  function Filtered(originals: seq<Observation>, roots: seq<EntityId>, rootOnly: bool): seq<Observation> {
    if originals == [] then []
    else
      var last := |originals| - 1;
      var o := originals[last];
      Filtered(originals[..last], roots, rootOnly) +
      if Selectable(o) && (!rootOnly || o.target in roots) then [o] else []
  }

  /** Evidence about the roots, or all of it when none is about them. */
  function Selected(originals: seq<Observation>, roots: seq<EntityId>, rootOnly: bool): seq<Observation> {
    var filtered := Filtered(originals, roots, rootOnly);
    if filtered == [] then Filtered(originals, roots, false) else filtered
  }

  // ----- the verdict

  /** Conclusive views of the target by someone else. */
  function RemoteViews(p: Picture, target: EntityId): set<Observation> {
    set o | o in Views(p.latest, target, NETWORK_PROBE) &&
            o.observer.Some? && o.observer != Some(target) && o.status.IsConclusive()
  }

  /** Unreachability is undone by a quorum: at least two others see the host, and none of the others disagrees. */
  predicate QuorumRecovered(p: Picture, was: Observation) {
    var remote := RemoteViews(p, was.target);
    && |remote| >= 2
    && forall o :: o in remote ==> o.status.Ok? && o.finishedAt > was.finishedAt && p.confirms(KeyOf(o))
  }

  /** One view confirms an old observation: the same observer's, or anyone's if the old one was healthy context. */
  predicate ConfirmedBy(p: Picture, was: Observation, current: Observation) {
    && (current.observer == was.observer || was.status.Ok?)
    && p.confirms(KeyOf(current)) && current.status.Ok?
    && (current.finishedAt > was.finishedAt || (!was.status.IsBad() && !was.status.Degraded?))
  }

  predicate Recovered(p: Picture, incident: Incident, was: Observation) {
    if was.probe == NETWORK_PROBE && HOST_UNREACHABLE in incident.kinds
    then QuorumRecovered(p, was)
    else exists current :: current in Views(p.latest, was.target, was.probe) && ConfirmedBy(p, was, current)
  }

  /** Some current diagnosis still blames a root, or anything involved when the whole is asked about. */
  predicate StillBlamed(p: Picture, incident: Incident, rootOnly: bool) {
    exists i :: 0 <= i < |p.diagnoses| && Blames(p.diagnoses[i], incident, rootOnly)
  }

  predicate Blames(d: Diagnosis, incident: Incident, rootOnly: bool) {
    exists e :: e in d.affected && (e in incident.roots || (!rootOnly && e in incident.affected))
  }

  predicate EntityHealthy(p: Picture, selected: seq<Observation>, e: EntityId) {
    if e in p.states
    then p.states[e].Healthy? || (p.states[e].Unknown? && exists o :: o in selected && o.target == e)
    else e in p.services
  }

  predicate Verified(p: Picture, incident: Incident, originals: seq<Observation>, rootOnly: bool) {
    var selected := Selected(originals, incident.roots, rootOnly);
    && originals != [] && selected != []
    && !StillBlamed(p, incident, rootOnly)
    && (forall o :: o in selected ==> Recovered(p, incident, o))
    && (forall e :: e in incident.affected + incident.roots && (!rootOnly || e in incident.roots) ==>
      EntityHealthy(p, selected, e))
  }

  lemma {:induction false} FilteredMembers(originals: seq<Observation>, roots: seq<EntityId>, rootOnly: bool)
    ensures forall o :: o in Filtered(originals, roots, rootOnly) <==>
      o in originals && Selectable(o) && (!rootOnly || o.target in roots)
  {
    if originals != [] {
      var last := |originals| - 1;
      FilteredMembers(originals[..last], roots, rootOnly);
      assert originals == originals[..last] + [originals[last]];
    }
  }

  lemma SelectedRoots(originals: seq<Observation>, roots: seq<EntityId>)
    requires Selected(originals, roots, false) != []
    ensures Selected(originals, roots, true) != []
    ensures forall o :: o in Selected(originals, roots, true) ==> o in Selected(originals, roots, false)
    ensures forall o :: o in Selected(originals, roots, false) && o.target in roots ==>
      o in Selected(originals, roots, true)
  {
    FilteredMembers(originals, roots, true);
    FilteredMembers(originals, roots, false);
  }

  /** Verifying all of an incident verifies its roots, also when no evidence is about a root. */
  lemma WholeImpliesRoots(p: Picture, incident: Incident, originals: seq<Observation>)
    requires Verified(p, incident, originals, false)
    ensures Verified(p, incident, originals, true)
  {
    SelectedRoots(originals, incident.roots);
    hide Selected, Recovered;
    var whole, roots := Selected(originals, incident.roots, false), Selected(originals, incident.roots, true);
    forall e | e in incident.affected + incident.roots && e in incident.roots
      ensures EntityHealthy(p, roots, e)
    {
      assert EntityHealthy(p, whole, e);
    }
  }

  /** Two different observers other than the target. */
  ghost predicate IsQuorum(p: Picture, target: EntityId, a: Observation, b: Observation) {
    && a in RemoteViews(p, target) && b in RemoteViews(p, target)
    && a.observer != b.observer && a.observer != Some(target) && b.observer != Some(target)
  }

  lemma TwoDistinct(s: set<Observation>) returns (a: Observation, b: Observation)
    requires |s| >= 2
    ensures a in s && b in s && a != b
  {
    a :| a in s;
    assert |s - {a}| >= 1;
    b :| b in s - {a};
  }

  /**
    A verified unreachability incident with network evidence about a target has a quorum:
    two different observers, neither the target, both currently fine and later than every
    selected network observation of that target, with no conclusive remote view disagreeing.
   */
  lemma UnreachableNeedsQuorum(
    p: Picture, incident: Incident, originals: seq<Observation>, rootOnly: bool, was: Observation)
    returns (a: Observation, b: Observation)
    requires Verified(p, incident, originals, rootOnly) && HOST_UNREACHABLE in incident.kinds
    requires WellKeyed(p.latest)
    requires was in Selected(originals, incident.roots, rootOnly) && was.probe == NETWORK_PROBE
    ensures IsQuorum(p, was.target, a, b) && a.status.Ok? && b.status.Ok?
    ensures forall o :: o in RemoteViews(p, was.target) ==> p.confirms(KeyOf(o))
    ensures forall o, v ::
      (o in RemoteViews(p, was.target) && v in Selected(originals, incident.roots, rootOnly)
       && v.probe == NETWORK_PROBE && v.target == was.target) ==> o.status.Ok? && o.finishedAt > v.finishedAt
  {
    hide Selected, Views;
    assert Recovered(p, incident, was);
    a, b := TwoDistinct(RemoteViews(p, was.target));
    ViewsHaveDistinctObservers(p.latest, was.target, NETWORK_PROBE, a, b);
    forall o, v | o in RemoteViews(p, was.target) && v in Selected(originals, incident.roots, rootOnly)
      && v.probe == NETWORK_PROBE && v.target == was.target
      ensures o.status.Ok? && o.finishedAt > v.finishedAt
    {
      assert Recovered(p, incident, v);
    }
  }

  /**
    Outside that quorum rule, a verified incident needs every selected fault to be undone by
    the very observer that reported it, with a later healthy observation.
   */
  lemma FaultNeedsItsObserver(
    p: Picture, incident: Incident, originals: seq<Observation>, rootOnly: bool, was: Observation)
    returns (current: Observation)
    requires Verified(p, incident, originals, rootOnly)
    requires was in Selected(originals, incident.roots, rootOnly) && (was.status.IsBad() || was.status.Degraded?)
    requires was.probe != NETWORK_PROBE || HOST_UNREACHABLE !in incident.kinds
    ensures current in Views(p.latest, was.target, was.probe) && current.observer == was.observer
    ensures current.status.Ok? && current.finishedAt > was.finishedAt && p.confirms(KeyOf(current))
  {
    hide Selected;
    assert Recovered(p, incident, was);
    current :| current in Views(p.latest, was.target, was.probe) && ConfirmedBy(p, was, current);
  }

  /** Current views undo one piece of evidence: a healthy quorum of others, or the observer that reported it. */
  ghost predicate IsUndone(p: Picture, incident: Incident, was: Observation) {
    if was.probe == NETWORK_PROBE && HOST_UNREACHABLE in incident.kinds
    then
      && (exists a, b :: IsQuorum(p, was.target, a, b))
      && forall o :: o in RemoteViews(p, was.target) ==> IsLaterAndHealthy(p, was, o)
    else
      exists v :: v in Views(p.latest, was.target, was.probe) && v.observer == was.observer &&
        IsLaterAndHealthy(p, was, v)
  }

  ghost predicate IsLaterAndHealthy(p: Picture, was: Observation, current: Observation) {
    current.status.Ok? && current.finishedAt > was.finishedAt && p.confirms(KeyOf(current))
  }

  lemma UndoneIsRecovered(p: Picture, incident: Incident, was: Observation)
    requires IsUndone(p, incident, was)
    ensures Recovered(p, incident, was)
  {
    hide Views, RemoteViews;
    if was.probe == NETWORK_PROBE && HOST_UNREACHABLE in incident.kinds {
      var a, b :| IsQuorum(p, was.target, a, b);
      var remote := RemoteViews(p, was.target);
      SubsetSize({a, b}, remote);
    } else {
      var v :| v in Views(p.latest, was.target, was.probe) && v.observer == was.observer &&
        IsLaterAndHealthy(p, was, v);
      assert ConfirmedBy(p, was, v);
    }
  }

  /**
    The other way: once all conclusive evidence is undone, nothing involved is blamed and every
    entity involved is healthy, both the roots and the whole verify.
   */
  lemma FullRecoveryVerifies(p: Picture, incident: Incident, originals: seq<Observation>, rootOnly: bool)
    requires exists o :: o in originals && Selectable(o)
    requires forall o :: o in originals && Selectable(o) ==> IsUndone(p, incident, o)
    requires !StillBlamed(p, incident, false)
    requires forall e :: e in incident.affected + incident.roots ==> e in p.states && p.states[e].Healthy?
    ensures Verified(p, incident, originals, rootOnly)
  {
    FilteredMembers(originals, incident.roots, rootOnly);
    FilteredMembers(originals, incident.roots, false);
    hide Filtered, IsUndone, Recovered;
    var selected := Selected(originals, incident.roots, rootOnly);
    var o :| o in originals && Selectable(o);
    assert o in Filtered(originals, incident.roots, false);
    forall was | was in selected ensures Recovered(p, incident, was) {
      UndoneIsRecovered(p, incident, was);
    }
  }

  /** When the picture is indexed from fresh observations, every view the verdict can use is fresh. */
  lemma ViewsAreFresh(
    p: Picture, clock: Clock, observations: seq<Observation>, target: EntityId, probe: string, o: Observation)
    requires p.latest == IndexOf(FreshOnly(clock, observations))
    requires o in Views(p.latest, target, probe)
    ensures IsFresh(clock, o) && o in observations && o.target == target && o.probe == probe
  {
    IndexHoldsNewest(observations);
    FreshnessCommutes(clock, observations);
    hide IndexOf, FreshOnly, IsFresh;
  }

  /** What an observer said last of one probe against one entity, and that it still counts. */
  ghost predicate IsLastWord(clock: Clock, observations: seq<Observation>, o: Observation) {
    && o in observations && IsFresh(clock, o)
    && forall x :: x in observations && KeyOf(x) == KeyOf(o) ==> x.finishedAt <= o.finishedAt
  }

  /** Among all observations, fresh or not, an indexed view is its observer's last word. */
  lemma ViewIsLastWord(
    p: Picture, clock: Clock, observations: seq<Observation>, target: EntityId, probe: string, o: Observation)
    requires p.latest == IndexOf(FreshOnly(clock, observations))
    requires o in Views(p.latest, target, probe)
    ensures IsLastWord(clock, observations, o) && o.target == target && o.probe == probe
  {
    IndexHoldsNewest(observations);
    FreshnessCommutes(clock, observations);
    hide IndexOf, FreshOnly, IsFresh;
    ViewsKeyed(IndexOf(observations), target, probe, o);
    assert IsNewest(observations, o);
  }

  /**
    Outside the quorum rule, over everything observed: an incident verifies only if for each
    selected fault the last word of the very observer that reported it, on that probe and
    entity, is fresh, later and healthy. Silence and stale health never undo a fault.
   */
  lemma LastWordUndoesFault(
    p: Picture, clock: Clock, observations: seq<Observation>, incident: Incident, originals: seq<Observation>,
    rootOnly: bool, was: Observation) returns (current: Observation)
    requires p.latest == IndexOf(FreshOnly(clock, observations))
    requires Verified(p, incident, originals, rootOnly)
    requires was in Selected(originals, incident.roots, rootOnly) && (was.status.IsBad() || was.status.Degraded?)
    requires was.probe != NETWORK_PROBE || HOST_UNREACHABLE !in incident.kinds
    ensures KeyOf(current) == KeyOf(was) && IsLastWord(clock, observations, current) && p.confirms(KeyOf(current))
    ensures current.status.Ok? && current.finishedAt > was.finishedAt
  {
    current := FaultNeedsItsObserver(p, incident, originals, rootOnly, was);
    ViewIsLastWord(p, clock, observations, was.target, was.probe, current);
  }

  /**
    Under the quorum rule, over everything observed: two observers other than the host have a
    healthy, fresh last word on it, later than all selected network evidence about it.
   */
  lemma LastWordsMakeTheQuorum(
    p: Picture, clock: Clock, observations: seq<Observation>, incident: Incident, originals: seq<Observation>,
    rootOnly: bool, was: Observation) returns (a: Observation, b: Observation)
    requires p.latest == IndexOf(FreshOnly(clock, observations))
    requires Verified(p, incident, originals, rootOnly) && HOST_UNREACHABLE in incident.kinds
    requires was in Selected(originals, incident.roots, rootOnly) && was.probe == NETWORK_PROBE
    ensures IsLastWord(clock, observations, a) && IsLastWord(clock, observations, b)
    ensures a.target == b.target == was.target && a.probe == b.probe == NETWORK_PROBE
    ensures a.observer != b.observer && a.observer != Some(was.target) && b.observer != Some(was.target)
    ensures a.observer.Some? && b.observer.Some? && a.status.Ok? && b.status.Ok?
    ensures p.confirms(KeyOf(a)) && p.confirms(KeyOf(b))
    ensures a.finishedAt > was.finishedAt && b.finishedAt > was.finishedAt
  {
    IndexHoldsNewest(FreshOnly(clock, observations));
    a, b := UnreachableNeedsQuorum(p, incident, originals, rootOnly, was);
    ViewIsLastWord(p, clock, observations, was.target, NETWORK_PROBE, a);
    ViewIsLastWord(p, clock, observations, was.target, NETWORK_PROBE, b);
  }

  // ----- the verdict loop and the lifecycle

  datatype Verdict = Verdict(roots: bool, whole: bool)

  function VerdictOf(p: Picture, store: map<ObservationId, Observation>, incident: Incident): Verdict {
    var originals := Originals(incident.evidence, store);
    Verdict(Verified(p, incident, originals, true), Verified(p, incident, originals, false))
  }

  predicate IsDiagnosed(p: Picture, incident: Incident) {
    exists i :: 0 <= i < |p.diagnoses| && p.diagnoses[i].fingerprint == incident.fingerprint
  }

  /** Judge every active incident that is not diagnosed again. */
  method JudgeIncidents(p: Picture, store: map<ObservationId, Observation>, incidents: seq<Incident>)
    returns (verdicts: map<nat, Verdict>)
    requires forall i, j :: 0 <= i < j < |incidents| ==> incidents[i].id != incidents[j].id
    ensures forall i :: 0 <= i < |incidents| ==>
      if incidents[i].status.IsActive() && !IsDiagnosed(p, incidents[i])
      then incidents[i].id in verdicts && verdicts[incidents[i].id] == VerdictOf(p, store, incidents[i])
      else incidents[i].id !in verdicts
    ensures forall id :: id in verdicts ==> exists i :: 0 <= i < |incidents| && incidents[i].id == id
    ensures forall id :: id in verdicts ==> verdicts[id].whole ==> verdicts[id].roots
  {
    hide VerdictOf, IsDiagnosed;
    verdicts := map[];
    for n := 0 to |incidents|
      invariant forall i :: 0 <= i < n ==>
        if incidents[i].status.IsActive() && !IsDiagnosed(p, incidents[i])
        then incidents[i].id in verdicts && verdicts[incidents[i].id] == VerdictOf(p, store, incidents[i])
        else incidents[i].id !in verdicts
      invariant forall i :: n <= i < |incidents| ==> incidents[i].id !in verdicts
      invariant forall id :: id in verdicts ==> exists i :: 0 <= i < n && incidents[i].id == id
      invariant forall id :: id in verdicts ==> verdicts[id].whole ==> verdicts[id].roots
    {
      if incidents[n].status.IsActive() && !IsDiagnosed(p, incidents[n]) {
        VerdictIsConsistent(p, store, incidents[n]);
        verdicts := verdicts[incidents[n].id := VerdictOf(p, store, incidents[n])];
      }
    }
  }

  lemma VerdictIsConsistent(p: Picture, store: map<ObservationId, Observation>, incident: Incident)
    ensures VerdictOf(p, store, incident).whole ==> VerdictOf(p, store, incident).roots
  {
    var originals := Originals(incident.evidence, store);
    if Verified(p, incident, originals, false) {
      WholeImpliesRoots(p, incident, originals);
    }
  }

  /** The status of an active incident nothing diagnoses any more. */
  function StatusAfter(status: IncidentStatus, verdict: Verdict): IncidentStatus {
    if verdict.whole then Resolved
    else if verdict.roots && !status.Recovering? then Recovering
    else if !verdict.roots && status.Recovering? then Open
    else status
  }

  /** One cycle for the incidents nothing diagnoses any more, updated in place. */
  method Reconcile(p: Picture, store: map<ObservationId, Observation>, incidents: array<Incident>)
    requires forall i, j :: 0 <= i < j < incidents.Length ==> incidents[i].id != incidents[j].id
    modifies incidents
    ensures forall i :: 0 <= i < incidents.Length ==>
      var before := old(incidents[i]);
      incidents[i] == if before.status.IsActive() && !IsDiagnosed(p, before)
        then before.(status := StatusAfter(before.status, VerdictOf(p, store, before))) else before
    ensures forall i, j | 0 <= i < incidents.Length && 0 <= j < |p.diagnoses| ::
      p.diagnoses[j].fingerprint == old(incidents[i]).fingerprint ==> incidents[i] == old(incidents[i])
    ensures forall i | 0 <= i < incidents.Length ::
      old(incidents[i]).status in {Resolved, Reset, Suppressed} ==> incidents[i] == old(incidents[i])
  {
    hide VerdictOf;
    assert forall i, j | 0 <= i < incidents.Length && 0 <= j < |p.diagnoses| ::
      p.diagnoses[j].fingerprint == incidents[i].fingerprint ==> IsDiagnosed(p, incidents[i]);
    hide IsDiagnosed;
    var verdicts := JudgeIncidents(p, store, incidents[..]);
    ghost var before := incidents[..];
    for i := 0 to incidents.Length
      invariant forall j :: 0 <= j < i ==>
        incidents[j] == if before[j].status.IsActive() && !IsDiagnosed(p, before[j])
          then before[j].(status := StatusAfter(before[j].status, VerdictOf(p, store, before[j]))) else before[j]
      invariant forall j :: i <= j < incidents.Length ==> incidents[j] == before[j]
    {
      var incident := incidents[i];
      if incident.id in verdicts {
        incidents[i] := incident.(status := StatusAfter(incident.status, verdicts[incident.id]));
      }
    }
  }

  /** An incident resolves in a cycle exactly when all of it verifies; it is then also verified at its roots. */
  lemma ResolvedIsVerified(p: Picture, store: map<ObservationId, Observation>, before: Incident)
    requires before.status in {Open, Acknowledged, Recovering}
    ensures before.status.IsActive()
    ensures var originals := Originals(before.evidence, store);
      var after := StatusAfter(before.status, VerdictOf(p, store, before));
      && (after.Resolved? <==> Verified(p, before, originals, false))
      && (after.Resolved? || after.Recovering? <==> Verified(p, before, originals, true))
      && (!Verified(p, before, originals, true) ==>
        after == if before.status == Acknowledged then Acknowledged else Open)
  {
    VerdictIsConsistent(p, store, before);
  }
}
