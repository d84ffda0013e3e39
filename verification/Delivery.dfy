/** The controller's side of delivery: accept, deduplicate or reject the observations of a batch. */
module Delivery {
  import opened Common
  import opened Observations

  datatype Response = Response(accepted: nat, duplicates: nat, rejected: seq<ObservationId>)

  type Store = map<ObservationId, Observation>

  /** Store a batch, keeping what is already there under an id. */
  function Stored(store: Store, known: set<EntityId>, batch: seq<Observation>): (result: Store)
    ensures store.Keys <= result.Keys
  {
    if batch == [] then store
    else
      var last := |batch| - 1;
      var before := Stored(store, known, batch[..last]);
      var o := batch[last];
      if o.target in known && o.id !in before then before[o.id := o] else before
  }

  function Rejected(known: set<EntityId>, batch: seq<Observation>): (ids: seq<ObservationId>)
    ensures |ids| <= |batch|
  {
    if batch == [] then []
    else
      var last := |batch| - 1;
      Rejected(known, batch[..last]) + if batch[last].target in known then [] else [batch[last].id]
  }

  class Controller {
    var known: set<EntityId>
    var store: Store

    constructor (known: set<EntityId>)
      ensures this.known == known && store == map[]
    {
      this.known := known;
      store := map[];
    }

    /** Every observation is accepted, a duplicate or rejected; the accepted ones are exactly the newly stored ones. */
    method IngestAgentBatch(batch: seq<Observation>) returns (response: Response)
      modifies this`store
      ensures store == Stored(old(store), known, batch)
      ensures response.rejected == Rejected(known, batch)
      ensures response.accepted == |store| - |old(store)|
      ensures response.accepted + response.duplicates + |response.rejected| == |batch|
    {
      var accepted, rejected := Partition(known, batch);
      PartitionCounts(known, batch);
      AcceptedStores(store, known, batch);
      var inserted, duplicates := ApplyObservations(accepted);
      response := Response(inserted, duplicates, rejected);
    }

    /** Insert what is absent, counting inserted observations and duplicates. */
    method ApplyObservations(observations: seq<Observation>) returns (inserted: nat, duplicates: nat)
      requires forall o :: o in observations ==> o.target in known
      modifies this`store
      ensures store == Stored(old(store), known, observations)
      ensures inserted == |store| - |old(store)| && inserted + duplicates == |observations|
    {
      inserted, duplicates := 0, 0;
      for i := 0 to |observations|
        invariant store == Stored(old(store), known, observations[..i])
        invariant inserted == |store| - |old(store)| && inserted + duplicates == i
      {
        assert observations[..i + 1][..i] == observations[..i];
        if observations[i].id !in store {
          store := store[observations[i].id := observations[i]];
          inserted := inserted + 1;
        } else {
          duplicates := duplicates + 1;
        }
      }
      assert observations[..|observations|] == observations;
    }
  }

  /** Split a batch by whether the controller knows the target. */
  method Partition(known: set<EntityId>, batch: seq<Observation>)
    returns (accepted: seq<Observation>, rejected: seq<ObservationId>)
    ensures accepted == Accepted(known, batch) && rejected == Rejected(known, batch)
    ensures forall o :: o in accepted <==> o in batch && o.target in known
  {
    accepted, rejected := [], [];
    for i := 0 to |batch|
      invariant accepted == Accepted(known, batch[..i]) && rejected == Rejected(known, batch[..i])
      invariant forall o :: o in accepted <==> o in batch[..i] && o.target in known
    {
      assert batch[..i + 1] == batch[..i] + [batch[i]] && batch[..i + 1][..i] == batch[..i];
      if batch[i].target in known {
        accepted := accepted + [batch[i]];
      } else {
        rejected := rejected + [batch[i].id];
      }
    }
    assert batch[..|batch|] == batch;
  }

  function Accepted(known: set<EntityId>, batch: seq<Observation>): seq<Observation> {
    if batch == [] then []
    else
      var last := |batch| - 1;
      Accepted(known, batch[..last]) + if batch[last].target in known then [batch[last]] else []
  }

  lemma {:induction false} PartitionCounts(known: set<EntityId>, batch: seq<Observation>)
    ensures |Accepted(known, batch)| + |Rejected(known, batch)| == |batch|
  {
    if batch != [] {
      PartitionCounts(known, batch[..|batch| - 1]);
    }
  }

  lemma {:induction false} AcceptedStores(store: Store, known: set<EntityId>, batch: seq<Observation>)
    ensures Stored(store, known, Accepted(known, batch)) == Stored(store, known, batch)
  {
    if batch != [] {
      var last := |batch| - 1;
      AcceptedStores(store, known, batch[..last]);
      if batch[last].target in known {
        var accepted := Accepted(known, batch);
        assert accepted[..|accepted| - 1] == Accepted(known, batch[..last]);
      } else {
        assert Accepted(known, batch) == Accepted(known, batch[..last]);
      }
    }
  }

  /** Rejection is decided by the target alone, and everything else in the batch ends up stored. */
  lemma {:induction false} StoredOrRejected(store: Store, known: set<EntityId>, batch: seq<Observation>, o: Observation)
    requires o in batch
    ensures o.target in known ==> o.id in Stored(store, known, batch)
    ensures o.target !in known ==> o.id in Rejected(known, batch)
  {
    var last := |batch| - 1;
    if o != batch[last] {
      assert o in batch[..last];
      StoredOrRejected(store, known, batch[..last], o);
    }
  }

  /** Every rejected id is that of an observation of an unknown target. */
  lemma {:induction false} RejectedFrom(known: set<EntityId>, batch: seq<Observation>, id: ObservationId)
    returns (o: Observation)
    requires id in Rejected(known, batch)
    ensures o in batch && o.id == id && o.target !in known
  {
    var last := |batch| - 1;
    if batch[last].target !in known && batch[last].id == id {
      o := batch[last];
    } else {
      o := RejectedFrom(known, batch[..last], id);
    }
  }

  /** A stored observation is an old one or came from the batch with a known target; old ones are never rewritten. */
  lemma {:induction false} StoredContents(store: Store, known: set<EntityId>, batch: seq<Observation>)
    ensures forall id :: id in store ==> Stored(store, known, batch)[id] == store[id]
    ensures forall id :: id in Stored(store, known, batch) && id !in store ==>
      var o := Stored(store, known, batch)[id];
      o in batch && o.id == id && o.target in known
  {
    if batch != [] {
      var last := |batch| - 1;
      StoredContents(store, known, batch[..last]);
      assert forall o :: o in batch[..last] ==> o in batch;
    }
  }

  lemma {:induction false} StoredGrows(store: Store, known: set<EntityId>, batch: seq<Observation>)
    ensures |store| <= |Stored(store, known, batch)|
    ensures |Stored(store, known, batch)| + |Rejected(known, batch)| <= |store| + |batch|
  {
    if batch != [] {
      StoredGrows(store, known, batch[..|batch| - 1]);
    }
  }

  /** Replaying a batch stores nothing new. */
  lemma {:induction false} ReplayIsIdempotent(store: Store, known: set<EntityId>, batch: seq<Observation>, prefix: nat)
    requires prefix <= |batch|
    ensures Stored(Stored(store, known, batch), known, batch[..prefix]) == Stored(store, known, batch)
  {
    if prefix > 0 {
      ReplayIsIdempotent(store, known, batch, prefix - 1);
      assert batch[..prefix][..prefix - 1] == batch[..prefix - 1];
      StoredOrRejected(store, known, batch, batch[prefix - 1]);
    }
  }
}
