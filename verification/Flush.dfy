/** The agent's flush loop as a function of what it is answered, and what the controller answers. */
module Flush {
  import opened Common
  import opened Observations
  import opened SpoolOrder
  import opened Spool
  import opened Delivery

  /** The largest batch the agent sends at once. */
  const MAX_BATCH: nat := 500

  /** What the i-th request of a flush is answered, given its batch; None is a failed call. */
  type Answers = (nat, seq<Row>) -> Option<Response>

  /** The ids of a batch that the response does not reject, in batch order. */
  function Confirmed(batch: seq<Row>, rejected: seq<ObservationId>): (ids: seq<ObservationId>)
    ensures Elements(ids) == ConfirmedIds(batch, rejected)
  {
    if batch == [] then []
    else
      var last := |batch| - 1;
      var front := Confirmed(batch[..last], rejected);
      assert batch == batch[..last] + [batch[last]];
      assert Elements(front + [batch[last].id]) == Elements(front) + {batch[last].id};
      if batch[last].id in rejected then front else front + [batch[last].id]
  }

  function ConfirmedIds(batch: seq<Row>, rejected: seq<ObservationId>): set<ObservationId> {
    set r | r in batch && r.id !in rejected :: r.id
  }

  /** What one answered request leaves in the spool. */
  function AfterResponse(rows: set<Row>, batch: seq<Row>, response: Response): (left: set<Row>)
    ensures left <= rows && (DistinctIds(rows) ==> DistinctIds(left))
  {
    Without(rows, ConfirmedIds(batch, response.rejected))
  }

  /** How one round of the loop ends. */
  datatype Round =
    | Empty
    | Unreachable
    | Answered(rows: set<Row>, accepted: nat, again: bool)
  {
    function Sent(): nat {
      if Empty? then 0 else 1
    }

    predicate Again() {
      Answered? && again
    }

    function Accepted(): nat {
      if Answered? then accepted else 0
    }

    function Left(before: set<Row>): set<Row> {
      if Answered? then rows else before
    }
  }

  /** One round: send the first batch, take off what is confirmed, go on unless something was rejected. */
  function RoundOf(rows: set<Row>, answers: Answers, i: nat): Round
    requires DistinctIds(rows)
  {
    var batch := ReplayBatch(rows, MAX_BATCH);
    if batch == [] then Empty
    else
      match answers(i, batch)
      case None => Unreachable
      case Some(response) =>
        Answered(AfterResponse(rows, batch, response), response.accepted, response.rejected == [])
  }

  /** What a flush leaves, how often it called, what was accepted, and whether its last call failed. */
  datatype Outcome = Outcome(rows: set<Row>, requests: nat, delivered: nat, failed: bool)

  /** A whole flush, from its i-th request on. */
  ghost function Flushed(rows: set<Row>, answers: Answers, i: nat): Outcome
    requires DistinctIds(rows)
    decreases |rows|
  {
    RoundShrinks(rows, answers, i);
    var round := RoundOf(rows, answers, i);
    if round.Again() then Plus(round.Sent(), round.Accepted(), Flushed(round.Left(rows), answers, i + 1))
    else Outcome(round.Left(rows), round.Sent(), round.Accepted(), round.Unreachable?)
  }

  /** An outcome with earlier requests and deliveries counted in. */
  function Plus(requests: nat, delivered: nat, rest: Outcome): Outcome {
    Outcome(rest.rows, requests + rest.requests, delivered + rest.delivered, rest.failed)
  }

  lemma FlushedUnfolds(rows: set<Row>, answers: Answers, i: nat)
    requires DistinctIds(rows)
    ensures var round := RoundOf(rows, answers, i); var left := round.Left(rows);
      && DistinctIds(left)
      && (round.Again() ==> |left| < |rows| && round.Sent() == 1)
      && Flushed(rows, answers, i) ==
        if round.Again() then Plus(round.Sent(), round.Accepted(), Flushed(left, answers, i + 1))
        else Outcome(left, round.Sent(), round.Accepted(), round.Unreachable?)
  {
    RoundShrinks(rows, answers, i);
  }

  /** Going on means a whole, non-empty batch was taken off. */
  lemma RoundShrinks(rows: set<Row>, answers: Answers, i: nat)
    requires DistinctIds(rows)
    ensures var round := RoundOf(rows, answers, i);
      round.Answered? ==>
        && round.rows <= rows && DistinctIds(round.rows)
        && (round.again ==> rows != {} && |round.rows| == |rows| - Min(MAX_BATCH, |rows|))
  {
    var batch := ReplayBatch(rows, MAX_BATCH);
    if batch != [] && answers(i, batch).Some? && answers(i, batch).value.rejected == [] {
      WholeBatchLeaves(rows, answers(i, batch).value);
    }
  }

  lemma BatchInRows(rows: set<Row>)
    requires DistinctIds(rows)
    ensures var batch := ReplayBatch(rows, MAX_BATCH);
      Elements(batch) <= rows && |Elements(batch)| == |batch| == Min(MAX_BATCH, |rows|)
  {
    var order := Sorted(Replay, rows);
    SortedIsOrdered(Replay, rows);
    OrderedIsDistinct(Replay, order);
    var batch := ReplayBatch(rows, MAX_BATCH);
    DistinctSize(batch);
    assert forall r :: r in batch ==> r in Elements(order);
  }

  /** A response without rejections takes the whole batch off the spool. */
  lemma WholeBatchLeaves(rows: set<Row>, response: Response)
    requires DistinctIds(rows) && response.rejected == []
    ensures var batch := ReplayBatch(rows, MAX_BATCH);
      |AfterResponse(rows, batch, response)| == |rows| - Min(MAX_BATCH, |rows|)
  {
    var batch := ReplayBatch(rows, MAX_BATCH);
    BatchInRows(rows);
    var left := AfterResponse(rows, batch, response);
    forall r | r in rows ensures r.id in ConfirmedIds(batch, []) <==> r in Elements(batch) {
      if r.id in ConfirmedIds(batch, []) {
        var b :| b in batch && b.id == r.id;
        assert b in Elements(batch);
      }
    }
    assert left == rows - Elements(batch);
  }

  /** Whatever is answered, a flush ends, with one request per started batch at most. */
  lemma {:induction false} FlushIsBounded(rows: set<Row>, answers: Answers, i: nat)
    requires DistinctIds(rows)
    ensures var end := Flushed(rows, answers, i);
      end.rows <= rows && end.requests <= (|rows| + 499) / 500
    decreases |rows|
  {
    RoundShrinks(rows, answers, i);
    var round := RoundOf(rows, answers, i);
    if round.Answered? && round.again {
      FlushIsBounded(round.rows, answers, i + 1);
    } else if round.Empty? {
      BatchInRows(rows);
    }
  }

  // ----- a flush, call by call

  /** One call: the batch sent and what came back. */
  datatype Trip = Trip(batch: seq<Row>, answer: Option<Response>)

  function AcceptedIn(trips: seq<Trip>): nat {
    if trips == [] then 0
    else
      (if trips[0].answer.Some? then trips[0].answer.value.accepted else 0) + AcceptedIn(trips[1..])
  }

  /** The i-th call sends the most urgent rows and takes off what its answer does not reject. */
  ghost predicate IsTrip(before: set<Row>, trip: Trip, after: set<Row>, answers: Answers, i: nat) {
    && trip.batch != [] && IsReplayBatch(before, MAX_BATCH, trip.batch) && trip.answer == answers(i, trip.batch)
    && forall r :: r in after <==> r in before && Stays(trip, r)
  }

  /** Not confirmed: the call failed, or the answer rejects every row sent under this id. */
  ghost predicate Stays(trip: Trip, r: Row) {
    trip.answer.None? || forall b :: b in trip.batch && b.id == r.id ==> b.id in trip.answer.value.rejected
  }

  /** Nothing was rejected, so the loop goes on. */
  predicate IsClean(trip: Trip) {
    trip.answer.Some? && trip.answer.value.rejected == []
  }

  /**
    The calls of a flush from the i-th on: one after another, on after every clean answer and
    only then, and none for an empty spool.
   */
  ghost predicate IsJourney(
    spools: seq<set<Row>>, trips: seq<Trip>, answers: Answers, i: nat, end: Outcome)
  {
    && |spools| == |trips| + 1 && spools[|trips|] == end.rows
    && (forall j :: 0 <= j < |trips| ==> IsTrip(spools[j], trips[j], spools[j + 1], answers, i + j))
    && (forall j :: 0 <= j < |trips| - 1 ==> IsClean(trips[j]))
    && (trips == [] || IsClean(trips[|trips| - 1]) ==> end.rows == {})
    && end.requests == |trips| && end.delivered == AcceptedIn(trips)
    && (end.failed <==> trips != [] && trips[|trips| - 1].answer.None?)
  }

  lemma RoundIsTrip(rows: set<Row>, answers: Answers, i: nat) returns (trip: Trip)
    requires DistinctIds(rows) && !RoundOf(rows, answers, i).Empty?
    ensures var round := RoundOf(rows, answers, i);
      && IsTrip(rows, trip, round.Left(rows), answers, i) && (round.Again() <==> IsClean(trip))
      && round.Accepted() == AcceptedIn([trip]) && round.Sent() == 1
      && (round.Unreachable? <==> trip.answer.None?)
  {
    var batch := ReplayBatch(rows, MAX_BATCH);
    trip := Trip(batch, answers(i, batch));
    ReplayBatchIsOne(rows, MAX_BATCH, batch);
    hide ReplayBatch, IsReplayBatch;
    assert [trip][1..] == [];
  }

  lemma EmptyRound(rows: set<Row>, answers: Answers, i: nat)
    requires DistinctIds(rows) && RoundOf(rows, answers, i).Empty?
    ensures rows == {}
  {
  }

  /** Every flush is such a journey, whatever is answered. */
  lemma {:induction false} FlushIsJourney(rows: set<Row>, answers: Answers, i: nat)
    returns (spools: seq<set<Row>>, trips: seq<Trip>)
    requires DistinctIds(rows)
    ensures IsJourney(spools, trips, answers, i, Flushed(rows, answers, i)) && spools[0] == rows
    decreases |rows|
  {
    hide RoundOf, IsTrip, Flushed;
    FlushedUnfolds(rows, answers, i);
    var round := RoundOf(rows, answers, i);
    if round.Empty? {
      EmptyRound(rows, answers, i);
      spools, trips := [rows], [];
    } else {
      var trip := RoundIsTrip(rows, answers, i);
      if round.Again() {
        var later, more := FlushIsJourney(round.Left(rows), answers, i + 1);
        FirstTrip(rows, trip, later, more, answers, i, Flushed(round.Left(rows), answers, i + 1));
        spools, trips := [rows] + later, [trip] + more;
      } else {
        spools, trips := [rows, round.Left(rows)], [trip];
      }
    }
  }

  lemma FirstTrip(
    rows: set<Row>, trip: Trip, later: seq<set<Row>>, more: seq<Trip>, answers: Answers, i: nat, rest: Outcome)
    requires IsJourney(later, more, answers, i + 1, rest) && IsTrip(rows, trip, later[0], answers, i) && IsClean(trip)
    ensures IsJourney([rows] + later, [trip] + more, answers, i, Plus(1, AcceptedIn([trip]), rest))
  {
    hide IsTrip;
    var spools, trips := [rows] + later, [trip] + more;
    assert trips[1..] == more && [trip][1..] == [];
    forall j | 0 <= j < |trips| ensures IsTrip(spools[j], trips[j], spools[j + 1], answers, i + j) {
      if j > 0 {
        assert IsTrip(later[j - 1], more[j - 1], later[j - 1 + 1], answers, i + 1 + (j - 1));
        assert spools[j] == later[j - 1] && spools[j + 1] == later[j] && trips[j] == more[j - 1];
      }
    }
    forall j | 0 <= j < |trips| - 1 ensures IsClean(trips[j]) {
      if j > 0 {
        assert IsClean(more[j - 1]);
      }
    }
  }

  // ----- what the controller answers

  function ObservationsOf(batch: seq<Row>): seq<Observation> {
    seq(|batch|, i requires 0 <= i < |batch| => batch[i].observation)
  }

  /** What the controller answers a batch, with the store it leaves. */
  function Answer(store: Store, known: set<EntityId>, batch: seq<Row>): (Store, Response) {
    var observations := ObservationsOf(batch);
    var stored := Stored(store, known, observations);
    var rejected := Rejected(known, observations);
    StoredGrows(store, known, observations);
    (stored, Response(|stored| - |store|, |batch| - (|stored| - |store|) - |rejected|, rejected))
  }
}
