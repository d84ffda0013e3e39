/** When an incident verifies, said in one formula over evidence, views, states and diagnoses. */
module RecoveryVerdict {
  import opened Common
  import opened Observations
  import opened ObservationIndex
  import opened Recovery

  type Store = map<ObservationId, Observation>

  /** A stored observation behind the incident that says something about health. */
  ghost predicate IsEvidence(store: Store, incident: Incident, o: Observation) {
    && (exists i :: 0 <= i < |incident.evidence| && incident.evidence[i] in store && store[incident.evidence[i]] == o)
    && o.status !in {Unsupported, Status.NotApplicable} && o.probe != PROBE_BOOT
  }

  /** Evidence a verdict goes by: for the roots, what is about a root, or all of it if none is. */
  ghost predicate Counts(store: Store, incident: Incident, rootOnly: bool, o: Observation) {
    && IsEvidence(store, incident, o)
    && (!rootOnly || o.target in incident.roots ||
        forall r :: IsEvidence(store, incident, r) ==> r.target !in incident.roots)
  }

  /** An observer's current observation of one probe against one entity. */
  ghost predicate IsView(p: Picture, target: EntityId, probe: string, v: Observation) {
    v.target == target && v.probe == probe && KeyOf(v) in p.latest && p.latest[KeyOf(v)] == v
  }

  /** Someone else's current, conclusive network view of an entity. */
  ghost predicate IsRemoteView(p: Picture, target: EntityId, v: Observation) {
    && IsView(p, target, NETWORK_PROBE, v)
    && v.observer.Some? && v.observer.value != target && v.status !in {Unsupported, Status.NotApplicable}
  }

  /** Current views have overtaken a piece of evidence. */
  ghost predicate IsCleared(p: Picture, incident: Incident, o: Observation) {
    if o.probe == NETWORK_PROBE && HOST_UNREACHABLE in incident.kinds then
      && (exists a, b :: IsRemoteView(p, o.target, a) && IsRemoteView(p, o.target, b) && a.observer != b.observer)
      && forall v :: IsRemoteView(p, o.target, v) ==>
        v.status == Ok && v.finishedAt > o.finishedAt && p.confirms(KeyOf(v))
    else
      exists v ::
        && IsView(p, o.target, o.probe, v)
        && v.status == Ok && p.confirms(KeyOf(v))
        && (o.status == Ok || (v.observer == o.observer && v.finishedAt > o.finishedAt))
  }

  ghost predicate Concerns(incident: Incident, rootOnly: bool, e: EntityId) {
    e in incident.roots || (!rootOnly && e in incident.affected)
  }

  /** Healthy, or unknown but measured, or a service that has no state of its own. */
  ghost predicate IsWell(p: Picture, store: Store, incident: Incident, rootOnly: bool, e: EntityId) {
    if e !in p.states then e in p.services
    else
      p.states[e] == Healthy ||
      (p.states[e] == Unknown && exists o :: Counts(store, incident, rootOnly, o) && o.target == e)
  }

  /** No current diagnosis affects anything concerned. */
  ghost predicate IsUnblamed(p: Picture, incident: Incident, rootOnly: bool) {
    forall i, e :: 0 <= i < |p.diagnoses| && e in p.diagnoses[i].affected ==> !Concerns(incident, rootOnly, e)
  }

  ghost predicate IsRecovered(p: Picture, store: Store, incident: Incident, rootOnly: bool) {
    && (forall i :: 0 <= i < |incident.evidence| ==> incident.evidence[i] in store)
    && (exists o :: Counts(store, incident, rootOnly, o))
    && (forall o :: Counts(store, incident, rootOnly, o) ==> IsCleared(p, incident, o))
    && IsUnblamed(p, incident, rootOnly)
    && forall e :: Concerns(incident, rootOnly, e) ==> IsWell(p, store, incident, rootOnly, e)
  }

  // ----- each part of the verdict

  lemma SelectedCounts(store: Store, incident: Incident, rootOnly: bool, o: Observation)
    requires forall i :: 0 <= i < |incident.evidence| ==> incident.evidence[i] in store
    ensures o in Selected(Originals(incident.evidence, store), incident.roots, rootOnly) <==>
      Counts(store, incident, rootOnly, o)
  {
    var originals := Originals(incident.evidence, store);
    FilteredMembers(originals, incident.roots, rootOnly);
    FilteredMembers(originals, incident.roots, false);
    var narrow := Filtered(originals, incident.roots, rootOnly);
    hide Filtered;
    forall r ensures r in originals && Selectable(r) <==> IsEvidence(store, incident, r) {
      OriginalsAreEvidence(store, incident, r);
    }
    hide Originals, Selectable, IsEvidence;
    if narrow != [] {
      assert narrow[0] in narrow;
    }
  }

  lemma OriginalsAreEvidence(store: Store, incident: Incident, r: Observation)
    requires forall i :: 0 <= i < |incident.evidence| ==> incident.evidence[i] in store
    ensures r in Originals(incident.evidence, store) && Selectable(r) <==> IsEvidence(store, incident, r)
  {
    var originals := Originals(incident.evidence, store);
    assert forall i :: 0 <= i < |incident.evidence| ==> originals[i] == store[incident.evidence[i]];
  }

  lemma RemoteViewsAreViews(p: Picture, target: EntityId, v: Observation)
    requires WellKeyed(p.latest)
    ensures v in RemoteViews(p, target) <==> IsRemoteView(p, target, v)
  {
    ViewsKeyed(p.latest, target, NETWORK_PROBE, v);
    hide Views;
  }

  lemma QuorumIsCleared(p: Picture, incident: Incident, o: Observation)
    requires WellKeyed(p.latest) && o.probe == NETWORK_PROBE && HOST_UNREACHABLE in incident.kinds
    ensures QuorumRecovered(p, o) <==> IsCleared(p, incident, o)
  {
    var remote := RemoteViews(p, o.target);
    forall v ensures v in remote <==> IsRemoteView(p, o.target, v) {
      RemoteViewsAreViews(p, o.target, v);
    }
    hide RemoteViews, Views;
    if |remote| >= 2 {
      var a, b := TwoDistinct(remote);
      OneViewPerObserver(p, o.target, a, b);
    }
    if a, b :| IsRemoteView(p, o.target, a) && IsRemoteView(p, o.target, b) && a.observer != b.observer {
      SubsetSize({a, b}, remote);
    }
  }

  lemma OneViewPerObserver(p: Picture, target: EntityId, a: Observation, b: Observation)
    requires IsRemoteView(p, target, a) && IsRemoteView(p, target, b) && a != b
    ensures a.observer != b.observer
  {
    assert a.observer == b.observer ==> KeyOf(a) == KeyOf(b);
  }

  lemma RecoveredIsCleared(p: Picture, incident: Incident, o: Observation)
    requires WellKeyed(p.latest) && o.status !in {Unsupported, Status.NotApplicable}
    ensures Recovered(p, incident, o) <==> IsCleared(p, incident, o)
  {
    if o.probe == NETWORK_PROBE && HOST_UNREACHABLE in incident.kinds {
      QuorumIsCleared(p, incident, o);
    } else {
      forall v ensures v in Views(p.latest, o.target, o.probe) <==> IsView(p, o.target, o.probe, v) {
        ViewsKeyed(p.latest, o.target, o.probe, v);
      }
      hide Views, QuorumRecovered;
      assert o.status.IsBad() || o.status == Status.Degraded <==> o.status != Ok;
      forall v ensures ConfirmedBy(p, o, v) <==>
        v.status == Ok && p.confirms(KeyOf(v)) &&
        (o.status == Ok || (v.observer == o.observer && v.finishedAt > o.finishedAt))
      {
      }
    }
  }

  lemma BlamedOrNot(p: Picture, incident: Incident, rootOnly: bool)
    ensures StillBlamed(p, incident, rootOnly) <==> !IsUnblamed(p, incident, rootOnly)
  {
    if !IsUnblamed(p, incident, rootOnly) {
      var i, e :| 0 <= i < |p.diagnoses| && e in p.diagnoses[i].affected && Concerns(incident, rootOnly, e);
      assert Blames(p.diagnoses[i], incident, rootOnly);
      assert StillBlamed(p, incident, rootOnly);
    }
    if StillBlamed(p, incident, rootOnly) {
      var i :| 0 <= i < |p.diagnoses| && Blames(p.diagnoses[i], incident, rootOnly);
      var e :| e in p.diagnoses[i].affected && (e in incident.roots || (!rootOnly && e in incident.affected));
      assert Concerns(incident, rootOnly, e);
    }
  }

  lemma HealthyIsWell(p: Picture, store: Store, incident: Incident, rootOnly: bool, e: EntityId)
    requires forall i :: 0 <= i < |incident.evidence| ==> incident.evidence[i] in store
    ensures EntityHealthy(p, Selected(Originals(incident.evidence, store), incident.roots, rootOnly), e) <==>
      IsWell(p, store, incident, rootOnly, e)
  {
    hide Selected, Originals, Counts;
    forall o ensures o in Selected(Originals(incident.evidence, store), incident.roots, rootOnly) <==>
      Counts(store, incident, rootOnly, o)
    {
      SelectedCounts(store, incident, rootOnly, o);
    }
  }

  // ----- the whole verdict

  lemma VerifiedIsRecovered(p: Picture, store: Store, incident: Incident, rootOnly: bool)
    requires WellKeyed(p.latest)
    requires forall i :: 0 <= i < |incident.evidence| ==> incident.evidence[i] in store
    ensures Verified(p, incident, Originals(incident.evidence, store), rootOnly) <==>
      IsRecovered(p, store, incident, rootOnly)
  {
    var originals := Originals(incident.evidence, store);
    var selected := Selected(originals, incident.roots, rootOnly);
    NothingSelectedOfNone(incident.roots, rootOnly);
    BlamedOrNot(p, incident, rootOnly);
    forall o ensures o in selected <==> Counts(store, incident, rootOnly, o) {
      SelectedCounts(store, incident, rootOnly, o);
    }
    forall o | Counts(store, incident, rootOnly, o)
      ensures Recovered(p, incident, o) <==> IsCleared(p, incident, o)
    {
      RecoveredIsCleared(p, incident, o);
    }
    forall e ensures EntityHealthy(p, selected, e) <==> IsWell(p, store, incident, rootOnly, e) {
      HealthyIsWell(p, store, incident, rootOnly, e);
    }
    hide Selected, Originals, Counts, Recovered, IsCleared, EntityHealthy, IsWell, StillBlamed, IsUnblamed;
    if selected != [] {
      assert selected[0] in selected;
    }
  }

  lemma NothingSelectedOfNone(roots: seq<EntityId>, rootOnly: bool)
    ensures Selected([], roots, rootOnly) == []
  {
  }

  /**
    Exactly when an incident's roots, and all of it, verify: every observation behind it is still
    stored, some of them count, current views have cleared each that counts, no diagnosis affects
    anything concerned, and everything concerned is well.
   */
  lemma VerdictIsRecovery(p: Picture, store: Store, incident: Incident)
    requires WellKeyed(p.latest)
    ensures VerdictOf(p, store, incident).roots <==> IsRecovered(p, store, incident, true)
    ensures VerdictOf(p, store, incident).whole <==> IsRecovered(p, store, incident, false)
  {
    hide Verified, IsRecovered;
    if forall i :: 0 <= i < |incident.evidence| ==> incident.evidence[i] in store {
      VerifiedIsRecovered(p, store, incident, true);
      VerifiedIsRecovered(p, store, incident, false);
    } else {
      MissingEvidence(p, store, incident, true);
      MissingEvidence(p, store, incident, false);
    }
  }

  lemma MissingEvidence(p: Picture, store: Store, incident: Incident, rootOnly: bool)
    requires exists i :: 0 <= i < |incident.evidence| && incident.evidence[i] !in store
    ensures !Verified(p, incident, Originals(incident.evidence, store), rootOnly)
    ensures !IsRecovered(p, store, incident, rootOnly)
  {
  }
}
