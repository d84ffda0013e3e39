/** The newest observation per entity, probe and observer, and the freshness that limits it. */
module ObservationIndex {
  import opened Common
  import opened Rfc3339
  import opened Observations

  datatype Key = Key(target: EntityId, probe: string, observer: Option<EntityId>)

  type Index = map<Key, Observation>

  function KeyOf(o: Observation): Key {
    Key(o.target, o.probe, o.observer)
  }

  /** Keep the newest per key; an equally new observation replaces the one held. */
  function Inserted(index: Index, o: Observation): Index {
    var key := KeyOf(o);
    if key in index && index[key].finishedAt > o.finishedAt then index else index[key := o]
  }

  function IndexOf(observations: seq<Observation>): Index {
    if observations == [] then map[]
    else
      var last := |observations| - 1;
      Inserted(IndexOf(observations[..last]), observations[last])
  }

  class ObservationIndex {
    var latest: Index

    constructor ()
      ensures latest == map[]
    {
      latest := map[];
    }

    /** The key now holds the newer of the two, and no other key changes. */
    method Insert(o: Observation)
      modifies this
      ensures latest == Inserted(old(latest), o)
      ensures latest.Keys == old(latest.Keys) + {KeyOf(o)}
      ensures forall k :: k in old(latest) && k != KeyOf(o) ==> latest[k] == old(latest)[k]
      ensures KeyOf(o) in latest && latest[KeyOf(o)].finishedAt >= o.finishedAt
    {
      var key := KeyOf(o);
      if key in latest && latest[key].finishedAt > o.finishedAt {
      } else {
        latest := latest[key := o];
      }
    }

    /** The newest view of one probe against one entity; ties go to the greatest observer. */
    method Latest(target: EntityId, probe: string) returns (result: Option<Observation>)
      requires WellKeyed(latest)
      ensures result.None? <==> Views(latest, target, probe) == {}
      ensures result.Some? ==> IsLatest(latest, target, probe, result.value)
      ensures result.Some? ==>
        forall v | v in Views(latest, target, probe) && v.finishedAt == result.value.finishedAt :: v != result.value ==>
        && result.value.observer.Some?
        && (v.observer.None? || v.observer.value < result.value.observer.value)
    {
      result := None;
      var views := Views(latest, target, probe);
      var rest := views;
      while rest != {}
        invariant rest <= views
        invariant result.None? ==> rest == views
        invariant result.Some? ==> result.value in views && result.value !in rest
        invariant result.Some? ==> forall v :: v in views && v !in rest ==>
          v == result.value || LaterView(v, result.value)
      {
        var v :| v in rest;
        if result.None? || LaterView(result.value, v) {
          result := Some(v);
        } else {
          ViewsHaveDistinctObservers(latest, target, probe, v, result.value);
        }
        rest := rest - {v};
      }
    }

    /** Every observer's view of one probe against one entity, by observer. */
    method All(target: EntityId, probe: string) returns (result: seq<Observation>)
      requires WellKeyed(latest)
      ensures Elements(result) == Views(latest, target, probe) && |result| == |Views(latest, target, probe)|
      ensures forall j :: 0 < j < |result| ==> result[j].observer.Some?
      ensures forall i, j :: 0 <= i < j < |result| && result[i].observer.Some? ==>
        result[i].observer.value < result[j].observer.value
    {
      var views := Views(latest, target, probe);
      result := ByObserver(latest, target, probe, views);
      forall j | 0 < j < |result| ensures result[j].observer.Some? {
        assert ObserverLess(result[0].observer, result[j].observer);
      }
      forall i, j | 0 <= i < j < |result| && result[i].observer.Some?
        ensures result[i].observer.value < result[j].observer.value
      {
        assert ObserverLess(result[i].observer, result[j].observer);
      }
    }
  }

  /** Sort views by observer. */
  method ByObserver(ghost index: Index, ghost target: EntityId, ghost probe: string, views: set<Observation>)
    returns (result: seq<Observation>)
    requires WellKeyed(index) && views <= Views(index, target, probe)
    ensures Elements(result) == views && |result| == |views|
    ensures forall i, j :: 0 <= i < j < |result| ==> ObserverLess(result[i].observer, result[j].observer)
  {
    hide WellKeyed, Views;
    result := [];
    var rest := views;
    while rest != {}
      invariant rest <= views && |result| + |rest| == |views|
      invariant forall v :: v in views <==> v in rest || v in result
      invariant forall i, j :: 0 <= i < j < |result| ==> ObserverLess(result[i].observer, result[j].observer)
      invariant forall i, v :: 0 <= i < |result| && v in rest ==> ObserverLess(result[i].observer, v.observer)
      decreases rest
    {
      LeastObserver(index, target, probe, rest);
      var v :| v in rest && IsLeast(rest, v);
      result := result + [v];
      rest := rest - {v};
    }
  }

  /** None before Some, then by entity. */
  predicate ObserverLess(a: Option<EntityId>, b: Option<EntityId>) {
    match (a, b)
    case (None, Some(_)) => true
    case (Some(x), Some(y)) => x < y
    case _ => false
  }

  predicate LaterView(a: Observation, b: Observation) {
    a.finishedAt < b.finishedAt || (a.finishedAt == b.finishedAt && ObserverLess(a.observer, b.observer))
  }

  predicate IsLeast(rest: set<Observation>, v: Observation) {
    v in rest && forall w :: w in rest ==> w == v || ObserverLess(v.observer, w.observer)
  }

  lemma {:induction false} LeastObserver(index: Index, target: EntityId, probe: string, rest: set<Observation>)
    requires WellKeyed(index) && rest <= Views(index, target, probe) && rest != {}
    ensures exists v :: IsLeast(rest, v)
    decreases |rest|
  {
    hide WellKeyed, Views;
    var o :| o in rest;
    if rest == {o} {
      assert IsLeast(rest, o);
    } else {
      LeastObserver(index, target, probe, rest - {o});
      var m :| IsLeast(rest - {o}, m);
      ViewsHaveDistinctObservers(index, target, probe, o, m);
      if ObserverLess(o.observer, m.observer) {
        assert IsLeast(rest, o);
      } else {
        assert IsLeast(rest, m);
      }
    }
  }

  method FromObservations(observations: seq<Observation>) returns (index: ObservationIndex)
    ensures fresh(index) && index.latest == IndexOf(observations)
  {
    index := new ObservationIndex();
    for i := 0 to |observations|
      invariant fresh(index) && index.latest == IndexOf(observations[..i])
    {
      assert observations[..i + 1][..i] == observations[..i];
      index.Insert(observations[i]);
    }
    assert observations[..|observations|] == observations;
  }

  // ----- what the index holds

  ghost predicate WellKeyed(index: Index) {
    forall k :: k in index ==> KeyOf(index[k]) == k
  }

  /** Among the given observations, o is one of the newest with its key. */
  ghost predicate IsNewest(observations: seq<Observation>, o: Observation) {
    o in observations && forall x :: x in observations && KeyOf(x) == KeyOf(o) ==> x.finishedAt <= o.finishedAt
  }

  /** The index holds a newest observation for every key that ever occurred, and nothing else. */
  lemma {:induction false} IndexHoldsNewest(observations: seq<Observation>)
    ensures WellKeyed(IndexOf(observations))
    ensures forall o :: o in observations ==> KeyOf(o) in IndexOf(observations)
    ensures forall k :: k in IndexOf(observations) ==> IsNewest(observations, IndexOf(observations)[k])
  {
    if observations != [] {
      var last := |observations| - 1;
      assert observations == observations[..last] + [observations[last]];
      IndexHoldsNewest(observations[..last]);
      hide IndexOf;
      var before, after := IndexOf(observations[..last]), IndexOf(observations);
      assert after == Inserted(before, observations[last]) by { IndexUnfolds(observations); }
      forall k | k in after ensures IsNewest(observations, after[k]) {
        if k in before {
          assert IsNewest(observations[..last], before[k]);
        }
      }
    }
  }

  lemma IndexUnfolds(observations: seq<Observation>)
    requires observations != []
    ensures IndexOf(observations) ==
      Inserted(IndexOf(observations[..|observations| - 1]), observations[|observations| - 1])
  {
  }

  // ----- arrival order

  /** No two different observations are the newest with one key. */
  ghost predicate UniqueNewest(observations: seq<Observation>) {
    forall x, y :: IsNewest(observations, x) && IsNewest(observations, y) && KeyOf(x) == KeyOf(y) ==> x == y
  }

  lemma SameNewest(a: seq<Observation>, b: seq<Observation>, o: Observation)
    requires Elements(a) == Elements(b)
    ensures IsNewest(a, o) <==> IsNewest(b, o)
  {
    assert forall x :: x in a <==> x in Elements(a);
    assert forall x :: x in b <==> x in Elements(b);
  }

  lemma SameIndex(a: seq<Observation>, b: seq<Observation>)
    requires Elements(a) == Elements(b) && UniqueNewest(a)
    ensures IndexOf(a) == IndexOf(b)
  {
    IndexHoldsNewest(a);
    IndexHoldsNewest(b);
    hide IndexOf;
    assert forall x :: x in a <==> x in Elements(a);
    assert forall x :: x in b <==> x in Elements(b);
    forall k ensures k in IndexOf(a) <==> k in IndexOf(b) {
    }
    forall k | k in IndexOf(a) ensures IndexOf(a)[k] == IndexOf(b)[k] {
      SameNewest(a, b, IndexOf(b)[k]);
    }
  }

  ghost predicate IsPermutation(a: seq<Observation>, b: seq<Observation>) {
    multiset(a) == multiset(b)
  }

  lemma PermutationMembers(a: seq<Observation>, b: seq<Observation>)
    requires IsPermutation(a, b)
    ensures Elements(a) == Elements(b)
  {
    forall x ensures x in a <==> x in b {
      assert x in multiset(a) <==> x in multiset(b);
    }
  }

  /**
    The index is the same for every arrival order of the observations exactly when no key has
    two different newest observations; it then does not depend on repeats either.
   */
  lemma OrderIndependence(observations: seq<Observation>)
    ensures (forall other :: IsPermutation(other, observations) ==> IndexOf(other) == IndexOf(observations))
      <==> UniqueNewest(observations)
    ensures UniqueNewest(observations) ==>
      forall other :: Elements(other) == Elements(observations) ==> IndexOf(other) == IndexOf(observations)
  {
    hide IndexOf, IsNewest, IsPermutation;
    if UniqueNewest(observations) {
      forall other | Elements(other) == Elements(observations) ensures IndexOf(other) == IndexOf(observations) {
        SameIndex(observations, other);
      }
      forall other | IsPermutation(other, observations) ensures IndexOf(other) == IndexOf(observations) {
        PermutationMembers(other, observations);
      }
    } else {
      var x, y :| IsNewest(observations, x) && IsNewest(observations, y) && KeyOf(x) == KeyOf(y) && x != y;
      var a := ArrivingLast(observations, x);
      var b := ArrivingLast(observations, y);
      assert IndexOf(a)[KeyOf(x)] != IndexOf(b)[KeyOf(x)];
    }
  }

  /** Any newest observation wins in some arrival order: the one where it comes last. */
  lemma ArrivingLast(observations: seq<Observation>, x: Observation) returns (other: seq<Observation>)
    requires IsNewest(observations, x)
    ensures IsPermutation(other, observations)
    ensures KeyOf(x) in IndexOf(other) && IndexOf(other)[KeyOf(x)] == x
  {
    var i :| 0 <= i < |observations| && observations[i] == x;
    var rest := observations[..i] + observations[i + 1..];
    other := rest + [x];
    assert observations == observations[..i] + [x] + observations[i + 1..];
    IndexHoldsNewest(rest);
    IndexUnfolds(other);
    assert other[..|rest|] == rest;
    hide IndexOf;
    if KeyOf(x) in IndexOf(rest) {
      var held := IndexOf(rest)[KeyOf(x)];
      assert held in rest && held in observations;
    }
  }

  // ----- views of one probe against one entity

  /** Every observer's latest observation of one probe against one entity. */
  function Views(index: Index, target: EntityId, probe: string): set<Observation> {
    set k | k in index && k.target == target && k.probe == probe :: index[k]
  }

  lemma ViewsKeyed(index: Index, target: EntityId, probe: string, o: Observation)
    requires WellKeyed(index)
    ensures o in Views(index, target, probe) <==>
      o.target == target && o.probe == probe && KeyOf(o) in index && index[KeyOf(o)] == o
  {
  }

  /** Two views of one probe against one entity by one observer are one view. */
  lemma ViewsHaveDistinctObservers(index: Index, target: EntityId, probe: string, a: Observation, b: Observation)
    requires WellKeyed(index) && a in Views(index, target, probe) && b in Views(index, target, probe)
    ensures a.observer == b.observer ==> a == b
  {
    ViewsKeyed(index, target, probe, a);
    ViewsKeyed(index, target, probe, b);
  }

  /** o is a newest view; nothing ever inserted for the entity and probe is newer. */
  ghost predicate IsLatest(index: Index, target: EntityId, probe: string, o: Observation) {
    o in Views(index, target, probe) && forall v :: v in Views(index, target, probe) ==> v.finishedAt <= o.finishedAt
  }

  lemma LatestIsMaximum(observations: seq<Observation>, target: EntityId, probe: string, o: Observation)
    requires IsLatest(IndexOf(observations), target, probe, o)
    ensures o in observations && o.target == target && o.probe == probe
    ensures forall x :: x in observations && x.target == target && x.probe == probe ==> x.finishedAt <= o.finishedAt
  {
    var index := IndexOf(observations);
    IndexHoldsNewest(observations);
    hide IndexOf;
    ViewsKeyed(index, target, probe, o);
    forall x | x in observations && x.target == target && x.probe == probe ensures x.finishedAt <= o.finishedAt {
      var held := index[KeyOf(x)];
      ViewsKeyed(index, target, probe, held);
      assert IsNewest(observations, held);
    }
  }

  // ----- freshness

  /** How long one probe's answer stays evidence; the controller's own votes last at least the fallback. */
  function HorizonFor(
    probe: string, observer: Option<EntityId>, controller: Option<EntityId>,
    horizons: map<string, int>, fallback: int): int
  {
    var own := if probe in horizons then horizons[probe] else fallback;
    if observer.Some? && observer == controller then Max(own, fallback) else own
  }

  datatype Clock = Clock(now: Timestamp, controller: Option<EntityId>, horizons: map<string, int>, fallback: int)

  predicate IsFresh(clock: Clock, o: Observation) {
    clock.now - o.finishedAt <= HorizonFor(o.probe, o.observer, clock.controller, clock.horizons, clock.fallback)
  }

  /**
    How old an observation may be: the probe's own horizon or else the fallback, and for the
    controller's own observations never less than the fallback.
   */
  lemma FreshnessLasts(clock: Clock, o: Observation)
    ensures o.observer.None? || o.observer != clock.controller ==>
      (IsFresh(clock, o) <==>
       clock.now - o.finishedAt <= if o.probe in clock.horizons then clock.horizons[o.probe] else clock.fallback)
    ensures o.observer.Some? && o.observer == clock.controller ==>
      (IsFresh(clock, o) <==>
       clock.now - o.finishedAt <= clock.fallback ||
       (o.probe in clock.horizons && clock.now - o.finishedAt <= clock.horizons[o.probe]))
  {
  }

  function FreshOnly(clock: Clock, observations: seq<Observation>): seq<Observation> {
    if observations == [] then []
    else
      var last := |observations| - 1;
      FreshOnly(clock, observations[..last]) + if IsFresh(clock, observations[last]) then [observations[last]] else []
  }

  function FreshPart(clock: Clock, index: Index): Index {
    map k | k in index && IsFresh(clock, index[k]) :: index[k]
  }

  /** With one key, staying fresh is a matter of time alone. */
  lemma NewerStaysFresh(clock: Clock, a: Observation, b: Observation)
    requires KeyOf(a) == KeyOf(b) && a.finishedAt <= b.finishedAt && IsFresh(clock, a)
    ensures IsFresh(clock, b)
  {
  }

  lemma FreshPartInserted(clock: Clock, index: Index, o: Observation)
    requires WellKeyed(index)
    ensures FreshPart(clock, Inserted(index, o)) ==
      if IsFresh(clock, o) then Inserted(FreshPart(clock, index), o) else FreshPart(clock, index)
  {
    var key := KeyOf(o);
    if key in index {
      var held := index[key];
      if held.finishedAt > o.finishedAt && IsFresh(clock, o) {
        NewerStaysFresh(clock, o, held);
      }
      if held.finishedAt <= o.finishedAt && IsFresh(clock, held) {
        NewerStaysFresh(clock, held, o);
      }
    }
  }

  /** Filtering before indexing is the same as indexing and then filtering. */
  lemma {:induction false} FreshnessCommutes(clock: Clock, observations: seq<Observation>)
    ensures IndexOf(FreshOnly(clock, observations)) == FreshPart(clock, IndexOf(observations))
  {
    if observations != [] {
      var last := |observations| - 1;
      var o := observations[last];
      FreshnessCommutes(clock, observations[..last]);
      IndexHoldsNewest(observations[..last]);
      FreshPartInserted(clock, IndexOf(observations[..last]), o);
      IndexUnfolds(observations);
      var kept := FreshOnly(clock, observations[..last]);
      if IsFresh(clock, o) {
        IndexUnfolds(kept + [o]);
        assert (kept + [o])[..|kept|] == kept;
      }
      assert FreshOnly(clock, observations) == if IsFresh(clock, o) then kept + [o] else kept;
    }
  }
}
