/** What repeated flushing finally leaves behind, and what it brings to the controller. */
module Convergence {
  import opened Common
  import opened SpoolOrder
  import opened Spool
  import opened Delivery
  import opened Flush

  /** What a spool holds: rows with distinct ids, each under its observation's id. */
  ghost predicate IsOutbox(rows: set<Row>) {
    DistinctIds(rows) && WellKeyed(rows)
  }

  lemma FewerIsOutbox(rows: set<Row>, left: set<Row>)
    requires IsOutbox(rows) && left <= rows
    ensures IsOutbox(left)
  {
  }

  /** Every batch is answered, rejecting exactly the rows whose target is unknown. */
  ghost predicate Honest(answers: Answers, known: set<EntityId>) {
    forall i, batch :: IsOutbox(Elements(batch)) ==>
      answers(i, batch).Some? && RejectsUnknown(answers(i, batch).value, known, batch)
  }

  /** The controller's own rejections are honest. */
  lemma ControllerIsHonest(known: set<EntityId>, batch: seq<Row>, response: Response)
    requires IsOutbox(Elements(batch))
    requires response.rejected == Rejected(known, ObservationsOf(batch))
    ensures RejectsUnknown(response, known, batch)
  {
    var observations := ObservationsOf(batch);
    forall r | r in batch
      ensures r.id in response.rejected <==> r.observation.target !in known
    {
      var i :| 0 <= i < |batch| && batch[i] == r;
      assert observations[i] == r.observation;
      if r.observation.target !in known {
        StoredOrRejected(map[], known, observations, r.observation);
      }
      if r.id in response.rejected {
        var o := RejectedFrom(known, observations, r.id);
        var j :| 0 <= j < |observations| && observations[j] == o;
        assert batch[j] in Elements(batch) && r in Elements(batch) && batch[j].id == r.id;
      }
    }
    if response.rejected != [] {
      var o := RejectedFrom(known, observations, response.rejected[0]);
      var j :| 0 <= j < |observations| && observations[j] == o;
      assert batch[j] in batch;
    }
  }

  ghost predicate RejectsUnknown(response: Response, known: set<EntityId>, batch: seq<Row>) {
    && (forall r :: r in batch ==> (r.id in response.rejected <==> r.observation.target !in known))
    && (response.rejected != [] ==> exists r :: r in batch && r.observation.target !in known)
  }

  predicate IsKnown(known: set<EntityId>, r: Row) {
    r.observation.target in known
  }

  ghost function UnknownBefore(rows: set<Row>, known: set<EntityId>, r: Row): set<Row> {
    set u | u in rows && !IsKnown(known, u) && Before(Replay, u, r)
  }

  /** Never deliverable: the target is unknown, or a whole batch of unknown targets ranks ahead. */
  ghost predicate IsStuck(rows: set<Row>, known: set<EntityId>, r: Row) {
    !IsKnown(known, r) || |UnknownBefore(rows, known, r)| >= MAX_BATCH
  }

  ghost function StuckRows(rows: set<Row>, known: set<EntityId>): set<Row> {
    set r | r in rows && IsStuck(rows, known, r)
  }

  /** Whatever reaches a batch has less than a batch of rows ahead of it. */
  lemma BatchRowsAreNearFront(rows: set<Row>, known: set<EntityId>, r: Row)
    requires DistinctIds(rows) && r in ReplayBatch(rows, MAX_BATCH)
    ensures |UnknownBefore(rows, known, r)| < MAX_BATCH
  {
    var order := Sorted(Replay, rows);
    SortedIsOrdered(Replay, rows);
    OrderedIsDistinct(Replay, order);
    assert Elements(order) == rows;
    hide Sorted, Before, IsKnown;
    var k :| 0 <= k < Min(MAX_BATCH, |order|) && order[k] == r;
    forall u | u in UnknownBefore(rows, known, r) ensures u in Elements(order[..k]) {
      assert u in Elements(order);
      BeforeStandsInFront(Replay, order, k, u);
    }
    SubsetSize(UnknownBefore(rows, known, r), Elements(order[..k]));
    DistinctSize(order[..k]);
  }

  /** Everything in the batch ranks ahead of everything that is not. */
  lemma BatchRanksAhead(rows: set<Row>, b: Row, r: Row)
    requires DistinctIds(rows) && r in rows
    requires b in ReplayBatch(rows, MAX_BATCH) && r !in ReplayBatch(rows, MAX_BATCH)
    ensures Before(Replay, b, r)
  {
    var order := Sorted(Replay, rows);
    var batch := ReplayBatch(rows, MAX_BATCH);
    SortedIsOrdered(Replay, rows);
    assert r in Elements(order) && batch == order[..|batch|];
    hide Sorted, Before;
    SplitMember(order, |batch|, r);
    FrontRanksFirst(Replay, order, |batch|, b, r);
  }

  /** A batch of unknown targets only means every known row behind it is stuck. */
  lemma UnknownBatchBlocks(rows: set<Row>, known: set<EntityId>, r: Row)
    requires DistinctIds(rows) && r in rows && IsKnown(known, r)
    requires forall b :: b in ReplayBatch(rows, MAX_BATCH) ==> !IsKnown(known, b)
    ensures |UnknownBefore(rows, known, r)| >= MAX_BATCH
  {
    var batch := ReplayBatch(rows, MAX_BATCH);
    BatchInRows(rows);
    forall b | b in Elements(batch) ensures b in UnknownBefore(rows, known, r) {
      BatchRanksAhead(rows, b, r);
    }
    SubsetSize(Elements(batch), UnknownBefore(rows, known, r));
    assert |batch| == |rows| ==> Elements(batch) == rows by {
      SubsetSize(Elements(batch), rows);
    }
  }

  /** One answered request removes known rows of the batch and nothing else. */
  lemma ResponseRemovesKnown(rows: set<Row>, known: set<EntityId>, response: Response)
    requires DistinctIds(rows)
    requires RejectsUnknown(response, known, ReplayBatch(rows, MAX_BATCH))
    ensures var batch := ReplayBatch(rows, MAX_BATCH);
      AfterResponse(rows, batch, response) == set r | r in rows && !(r in batch && IsKnown(known, r))
  {
    var batch := ReplayBatch(rows, MAX_BATCH);
    BatchInRows(rows);
    forall r | r in rows
      ensures r.id in ConfirmedIds(batch, response.rejected) <==> r in batch && IsKnown(known, r)
    {
      if r.id in ConfirmedIds(batch, response.rejected) {
        var b :| b in batch && b.id !in response.rejected && b.id == r.id;
        assert b in Elements(batch);
      }
    }
  }

  /** Removing only known rows that are not stuck does not change who is stuck. */
  lemma StuckIsStable(rows: set<Row>, left: set<Row>, known: set<EntityId>)
    requires left <= rows
    requires forall r :: r in rows && r !in left ==> !IsStuck(rows, known, r)
    ensures StuckRows(left, known) == StuckRows(rows, known)
  {
    forall r ensures UnknownBefore(left, known, r) == UnknownBefore(rows, known, r) {
      assert forall u :: u in rows && !IsKnown(known, u) ==> u in left;
    }
  }

  /** The shape of one request against an honest controller. */
  lemma HonestRequest(rows: set<Row>, known: set<EntityId>, response: Response)
    requires DistinctIds(rows)
    requires RejectsUnknown(response, known, ReplayBatch(rows, MAX_BATCH))
    ensures Spared(rows, AfterResponse(rows, ReplayBatch(rows, MAX_BATCH), response), known)
  {
    var batch := ReplayBatch(rows, MAX_BATCH);
    var left := AfterResponse(rows, batch, response);
    ResponseRemovesKnown(rows, known, response);
    forall r | r in rows && r !in left ensures !IsStuck(rows, known, r) {
      BatchRowsAreNearFront(rows, known, r);
    }
    StuckIsStable(rows, left, known);
    DeliverableMeansProgress(rows, known);
  }

  /** If anything is deliverable, the batch holds a known row. */
  lemma DeliverableMeansProgress(rows: set<Row>, known: set<EntityId>)
    requires DistinctIds(rows)
    ensures rows != StuckRows(rows, known) ==> exists b :: b in ReplayBatch(rows, MAX_BATCH) && IsKnown(known, b)
    ensures forall b :: b in ReplayBatch(rows, MAX_BATCH) ==> b in rows
  {
    BatchInRows(rows);
    assert forall b :: b in ReplayBatch(rows, MAX_BATCH) ==> b in Elements(ReplayBatch(rows, MAX_BATCH));
    if rows != StuckRows(rows, known) && forall b :: b in ReplayBatch(rows, MAX_BATCH) ==> !IsKnown(known, b) {
      var r :| r in rows && !IsStuck(rows, known, r);
      UnknownBatchBlocks(rows, known, r);
    }
  }

  /** A round either finds the spool empty or is answered, and keeps exactly the stuck rows stuck. */
  lemma HonestRound(rows: set<Row>, answers: Answers, known: set<EntityId>, i: nat)
    requires IsOutbox(rows) && Honest(answers, known)
    ensures var round := RoundOf(rows, answers, i);
      && !round.Unreachable? && (round.Empty? ==> rows == {})
      && (round.Answered? ==> Spared(rows, round.rows, known))
  {
    var batch := ReplayBatch(rows, MAX_BATCH);
    BatchInRows(rows);
    if batch != [] {
      assert IsOutbox(Elements(batch));
      HonestRequest(rows, known, answers(i, batch).value);
    }
  }

  /** Nothing stuck is gone, nobody's being stuck has changed, and something is gone if it could be. */
  ghost predicate Spared(rows: set<Row>, left: set<Row>, known: set<EntityId>) {
    && left <= rows && StuckRows(left, known) == StuckRows(rows, known) <= left
    && (rows != StuckRows(rows, known) ==> left != rows)
  }

  lemma SparedTransitive(rows: set<Row>, mid: set<Row>, end: set<Row>, known: set<EntityId>)
    requires Spared(rows, mid, known) && Spared(mid, end, known)
    ensures Spared(rows, end, known)
  {
  }

  /** One flush delivers nothing that is stuck, and something if anything is not. */
  lemma {:induction false} HonestFlush(rows: set<Row>, answers: Answers, known: set<EntityId>, i: nat)
    requires IsOutbox(rows) && Honest(answers, known)
    ensures Spared(rows, Flushed(rows, answers, i).rows, known)
    decreases |rows|
  {
    HonestRound(rows, answers, known, i);
    RoundShrinks(rows, answers, i);
    FlushedUnfolds(rows, answers, i);
    var round := RoundOf(rows, answers, i);
    if round.Answered? && round.again {
      HonestFlush(round.rows, answers, known, i + 1);
      SparedTransitive(rows, round.rows, Flushed(round.rows, answers, i + 1).rows, known);
    }
  }

  /** Some honest answers make one flush take the spool from `before` to `end`. */
  ghost predicate HonestlyFlushed(known: set<EntityId>, before: set<Row>, end: set<Row>) {
    && IsOutbox(before)
    && exists answers :: Honest(answers, known) && end == Flushed(before, answers, 0).rows
  }

  lemma HonestStep(known: set<EntityId>, before: set<Row>, end: set<Row>)
    requires HonestlyFlushed(known, before, end)
    ensures Spared(before, end, known)
  {
    var answers :| Honest(answers, known) && end == Flushed(before, answers, 0).rows;
    HonestFlush(before, answers, known, 0);
  }

  /** The spool before and after each of a series of flushes, with nothing else happening. */
  ghost predicate FlushSeries(known: set<EntityId>, spools: seq<set<Row>>) {
    forall k :: 0 < k < |spools| ==> HonestlyFlushed(known, spools[k - 1], spools[k])
  }

  /** After n flushes the rows are down to the stuck ones, or n have gone. */
  ghost predicate Converging(rows: set<Row>, left: set<Row>, stuck: set<Row>, n: nat) {
    stuck <= left <= rows && (left == stuck || |left| + n <= |rows|)
  }

  lemma ConvergingStep(rows: set<Row>, before: set<Row>, end: set<Row>, stuck: set<Row>, n: nat)
    requires n > 0 && Converging(rows, before, stuck, n - 1)
    requires stuck <= end <= before && (before != stuck ==> end != before)
    ensures Converging(rows, end, stuck, n)
  {
    SubsetSize(end, before);
  }

  lemma {:induction false} SeriesConverges(known: set<EntityId>, spools: seq<set<Row>>, n: nat)
    requires n < |spools| && FlushSeries(known, spools)
    ensures StuckRows(spools[n], known) == StuckRows(spools[0], known)
    ensures Converging(spools[0], spools[n], StuckRows(spools[0], known), n)
    decreases n
  {
    if n > 0 {
      SeriesConverges(known, spools, n - 1);
      HonestStep(known, spools[n - 1], spools[n]);
      ConvergingStep(spools[0], spools[n - 1], spools[n], StuckRows(spools[0], known), n);
    }
  }

  /**
    With an honest controller and nothing else happening, flushing as often as there are
    rows delivers exactly the rows whose target is known and that have fewer than a
    batch of unknown-target rows ahead of them; further flushing changes nothing.
   */
  lemma FlushFixpoint(known: set<EntityId>, spools: seq<set<Row>>, n: nat, r: Row)
    requires n < |spools| && FlushSeries(known, spools)
    requires n >= |spools[0]| && r in spools[0]
    ensures r !in spools[n] <==> IsKnown(known, r) && |UnknownBefore(spools[0], known, r)| < MAX_BATCH
  {
    SeriesConverges(known, spools, n);
    assert |spools[n]| == 0 ==> spools[n] == {};
  }

  // ----- the controller itself

  /** An agent's spool and the controller's store. */
  datatype Site = Site(rows: set<Row>, store: Store)

  /** One round of the loop with the controller at the other end. */
  function AfterRound(s: Site, known: set<EntityId>): (end: Site)
    requires DistinctIds(s.rows)
    ensures end.rows <= s.rows && DistinctIds(end.rows)
  {
    var batch := ReplayBatch(s.rows, MAX_BATCH);
    var (store, response) := Answer(s.store, known, batch);
    if batch == [] then s else Site(AfterResponse(s.rows, batch, response), store)
  }

  predicate GoesOn(s: Site, known: set<EntityId>)
    requires DistinctIds(s.rows)
  {
    var batch := ReplayBatch(s.rows, MAX_BATCH);
    batch != [] && Rejected(known, ObservationsOf(batch)) == []
  }

  lemma GoingOnShrinks(s: Site, known: set<EntityId>)
    requires DistinctIds(s.rows) && GoesOn(s, known)
    ensures |AfterRound(s, known).rows| < |s.rows|
  {
    var batch := ReplayBatch(s.rows, MAX_BATCH);
    WholeBatchLeaves(s.rows, Answer(s.store, known, batch).1);
  }

  /** A whole flush, the store passed on from request to request. */
  function FlushedTo(s: Site, known: set<EntityId>): (end: Site)
    requires DistinctIds(s.rows)
    ensures end.rows <= s.rows
    decreases |s.rows|
  {
    if GoesOn(s, known) then GoingOnShrinks(s, known); FlushedTo(AfterRound(s, known), known) else AfterRound(s, known)
  }

  /** The store the i-th request of a flush meets. */
  function StoreAt(s: Site, known: set<EntityId>, i: nat): Store
    requires DistinctIds(s.rows)
    decreases i
  {
    if i == 0 || !GoesOn(s, known) then s.store else StoreAt(AfterRound(s, known), known, i - 1)
  }

  /** What the controller answers the requests of one flush. */
  function ControllerAnswers(s: Site, known: set<EntityId>): Answers
    requires DistinctIds(s.rows)
  {
    (i: nat, batch: seq<Row>) => Some(Answer(StoreAt(s, known, i), known, batch).1)
  }

  lemma ControllerAnswersAreHonest(s: Site, known: set<EntityId>)
    requires DistinctIds(s.rows)
    ensures Honest(ControllerAnswers(s, known), known)
  {
    var answers := ControllerAnswers(s, known);
    forall i, batch | IsOutbox(Elements(batch)) ensures RejectsUnknown(answers(i, batch).value, known, batch) {
      ControllerIsHonest(known, batch, answers(i, batch).value);
    }
  }

  /** The flush loop under these answers is the flush that passes the store on. */
  lemma {:induction false} FlushMeetsTheStore(start: Site, known: set<EntityId>, i: nat, s: Site)
    requires DistinctIds(start.rows) && DistinctIds(s.rows)
    requires forall m: nat :: StoreAt(start, known, i + m) == StoreAt(s, known, m)
    ensures var end := Flushed(s.rows, ControllerAnswers(start, known), i);
      && end.rows == FlushedTo(s, known).rows && !end.failed
      && |s.store| + end.delivered == |FlushedTo(s, known).store|
    decreases |s.rows|
  {
    hide RoundOf, Flushed, AfterRound, ControllerAnswers, GoesOn, DistinctIds;
    assert StoreAt(start, known, i + 0) == StoreAt(s, known, 0);
    FlushedUnfolds(s.rows, ControllerAnswers(start, known), i);
    RoundMeetsTheStore(start, known, i, s);
    if GoesOn(s, known) {
      GoingOnShrinks(s, known);
      var next := AfterRound(s, known);
      forall m: nat ensures StoreAt(start, known, i + 1 + m) == StoreAt(next, known, m) {
        assert StoreAt(start, known, i + (m + 1)) == StoreAt(s, known, m + 1);
      }
      FlushMeetsTheStore(start, known, i + 1, next);
    }
  }

  lemma RoundMeetsTheStore(start: Site, known: set<EntityId>, i: nat, s: Site)
    requires DistinctIds(start.rows) && DistinctIds(s.rows) && StoreAt(start, known, i) == s.store
    ensures var round := RoundOf(s.rows, ControllerAnswers(start, known), i);
      && round.Again() == GoesOn(s, known) && round.Left(s.rows) == AfterRound(s, known).rows
      && |s.store| + round.Accepted() == |AfterRound(s, known).store| && !round.Unreachable?
  {
  }

  lemma FlushIsHonest(s: Site, known: set<EntityId>)
    requires IsOutbox(s.rows)
    ensures HonestlyFlushed(known, s.rows, FlushedTo(s, known).rows)
  {
    hide FlushedTo, Flushed, Honest, ControllerAnswers, StoreAt, DistinctIds;
    ControllerAnswersAreHonest(s, known);
    FlushMeetsTheStore(s, known, 0, s);
  }

  /** A flush against the controller reports exactly how many observations it newly stored. */
  lemma DeliveredIsStored(s: Site, known: set<EntityId>)
    requires DistinctIds(s.rows)
    ensures var end := Flushed(s.rows, ControllerAnswers(s, known), 0);
      end.delivered == |FlushedTo(s, known).store| - |s.store| && !end.failed
  {
    hide FlushedTo, Flushed, ControllerAnswers, StoreAt, DistinctIds;
    FlushMeetsTheStore(s, known, 0, s);
  }

  /** With every target known one flush empties the spool, in as few requests as batches allow. */
  lemma {:induction false} KnownFlushEmpties(rows: set<Row>, answers: Answers, known: set<EntityId>, i: nat)
    requires IsOutbox(rows) && Honest(answers, known) && forall r :: r in rows ==> IsKnown(known, r)
    ensures var end := Flushed(rows, answers, i);
      end.rows == {} && end.requests == (|rows| + 499) / 500
    decreases |rows|
  {
    FlushedUnfolds(rows, answers, i);
    KnownRound(rows, answers, known, i);
    RoundShrinks(rows, answers, i);
    var round := RoundOf(rows, answers, i);
    hide RoundOf, Flushed, Honest;
    if rows != {} {
      KnownFlushEmpties(round.rows, answers, known, i + 1);
    }
  }

  lemma KnownRound(rows: set<Row>, answers: Answers, known: set<EntityId>, i: nat)
    requires IsOutbox(rows) && Honest(answers, known) && forall r :: r in rows ==> IsKnown(known, r)
    ensures if rows == {} then RoundOf(rows, answers, i).Empty? else RoundOf(rows, answers, i).Again()
  {
    var batch := ReplayBatch(rows, MAX_BATCH);
    BatchInRows(rows);
    if rows != {} {
      assert IsOutbox(Elements(batch));
      assert RejectsUnknown(answers(i, batch).value, known, batch);
      forall r | r in batch ensures IsKnown(known, r) {
        assert r in Elements(batch);
      }
    }
  }

  /** What leaves a spool is stored, what stays is not stored by that, and the store is not rewritten. */
  ghost predicate Moved(s: Site, end: Site) {
    && end.rows <= s.rows
    && (forall r :: r in s.rows && r !in end.rows ==> r.id in end.store)
    && (forall r :: r in s.rows && r !in end.rows && r.id !in s.store ==> end.store[r.id] == r.observation)
    && (forall r :: r in end.rows && r.id in end.store ==> r.id in s.store)
    && (forall id :: id in s.store ==> id in end.store && end.store[id] == s.store[id])
  }

  lemma NothingMoves(s: Site)
    ensures Moved(s, s)
  {
  }

  lemma MovedTransitive(s: Site, mid: Site, end: Site)
    requires Moved(s, mid) && Moved(mid, end)
    ensures Moved(s, end)
  {
  }

  lemma RoundMoves(s: Site, known: set<EntityId>)
    requires IsOutbox(s.rows)
    ensures Moved(s, AfterRound(s, known))
  {
    var batch := ReplayBatch(s.rows, MAX_BATCH);
    var end := AfterRound(s, known);
    if batch != [] {
      BatchInRows(s.rows);
      assert IsOutbox(Elements(batch));
      var (store, response) := Answer(s.store, known, batch);
      ControllerIsHonest(known, batch, response);
      ResponseRemovesKnown(s.rows, known, response);
      assert end == Site((set r | r in s.rows && !(r in batch && IsKnown(known, r))), store);
      hide ReplayBatch, Stored, Rejected, Answer, AfterRound, AfterResponse, RejectsUnknown;
      BatchMoves(s, end, known, batch);
    } else {
      NothingMoves(s);
    }
  }

  lemma BatchMoves(s: Site, end: Site, known: set<EntityId>, batch: seq<Row>)
    requires IsOutbox(s.rows) && Elements(batch) <= s.rows
    requires end.rows == set r | r in s.rows && !(r in batch && IsKnown(known, r))
    requires end.store == Stored(s.store, known, ObservationsOf(batch))
    ensures Moved(s, end)
  {
    StoredContents(s.store, known, ObservationsOf(batch));
    hide Stored, ObservationsOf, IsKnown;
    forall r | r in s.rows && r.id in end.store && r.id !in s.store
      ensures r in batch && IsKnown(known, r) && end.store[r.id] == r.observation
    {
      StoredRow(s, known, batch, r);
    }
    forall r | r in s.rows && r !in end.rows ensures r.id in end.store {
      KnownRowIsStored(s.store, known, batch, r);
    }
  }

  /** A newly stored id under which a row waits is that row's, from the batch. */
  lemma StoredRow(s: Site, known: set<EntityId>, batch: seq<Row>, r: Row)
    requires IsOutbox(s.rows) && Elements(batch) <= s.rows && r in s.rows
    requires var store := Stored(s.store, known, ObservationsOf(batch)); r.id in store && r.id !in s.store
    ensures r in batch && IsKnown(known, r) && Stored(s.store, known, ObservationsOf(batch))[r.id] == r.observation
  {
    var observations := ObservationsOf(batch);
    StoredContents(s.store, known, observations);
    hide Stored;
    var o := Stored(s.store, known, observations)[r.id];
    var j :| 0 <= j < |observations| && observations[j] == o;
    assert batch[j] in Elements(batch);
  }

  lemma KnownRowIsStored(store: Store, known: set<EntityId>, batch: seq<Row>, r: Row)
    requires r in batch && IsKnown(known, r) && r.id == r.observation.id
    ensures r.id in Stored(store, known, ObservationsOf(batch))
  {
    var observations := ObservationsOf(batch);
    var i :| 0 <= i < |batch| && batch[i] == r;
    assert observations[i] == r.observation;
    StoredOrRejected(store, known, observations, r.observation);
  }

  lemma {:induction false} FlushMoves(s: Site, known: set<EntityId>)
    requires IsOutbox(s.rows)
    ensures Moved(s, FlushedTo(s, known))
    decreases |s.rows|
  {
    RoundMoves(s, known);
    if GoesOn(s, known) {
      GoingOnShrinks(s, known);
      FlushMoves(AfterRound(s, known), known);
      MovedTransitive(s, AfterRound(s, known), FlushedTo(s, known));
    }
  }

  /** Spool and store after n flushes in a row. */
  function FlushedTimes(s: Site, known: set<EntityId>, n: nat): (end: Site)
    requires DistinctIds(s.rows)
    ensures end.rows <= s.rows
    decreases n
  {
    if n == 0 then s else FlushedTo(FlushedTimes(s, known, n - 1), known)
  }

  lemma AnotherFlushMoves(s: Site, mid: Site, known: set<EntityId>)
    requires IsOutbox(s.rows) && mid.rows <= s.rows && Moved(s, mid)
    ensures IsOutbox(mid.rows) && Moved(s, FlushedTo(mid, known))
  {
    FewerIsOutbox(s.rows, mid.rows);
    hide Moved, FlushedTo;
    FlushMoves(mid, known);
    MovedTransitive(s, mid, FlushedTo(mid, known));
  }

  lemma {:induction false} FlushesMove(s: Site, known: set<EntityId>, n: nat)
    requires IsOutbox(s.rows)
    ensures Moved(s, FlushedTimes(s, known, n))
    decreases n
  {
    hide Moved, FlushedTo, DistinctIds, WellKeyed;
    if n == 0 {
      NothingMoves(s);
    } else {
      FlushesMove(s, known, n - 1);
      AnotherFlushMoves(s, FlushedTimes(s, known, n - 1), known);
    }
  }

  lemma SpoolsAlong(s: Site, known: set<EntityId>, n: nat) returns (spools: seq<set<Row>>)
    requires IsOutbox(s.rows)
    ensures |spools| == n + 1 && spools[0] == s.rows && spools[n] == FlushedTimes(s, known, n).rows
    ensures FlushSeries(known, spools)
  {
    hide FlushedTo, HonestlyFlushed;
    spools := seq(n + 1, k requires 0 <= k => FlushedTimes(s, known, k).rows);
    forall k | 0 < k < |spools| ensures HonestlyFlushed(known, spools[k - 1], spools[k]) {
      FlushIsHonest(FlushedTimes(s, known, k - 1), known);
    }
  }

  /**
    With the controller reachable, its inventory fixed and nothing else happening: after as
    many flushes as there were rows, and ever after, exactly the rows whose target is known and
    that had fewer than a batch of unknown-target rows ahead have left the spool. They are in
    the store, as they were recorded unless their id was taken; nothing still spooled was stored.
   */
  lemma DeliveryFixpoint(s: Site, known: set<EntityId>, n: nat, r: Row)
    requires IsOutbox(s.rows) && n >= |s.rows| && r in s.rows
    ensures var end := FlushedTimes(s, known, n);
      && (r !in end.rows <==> IsKnown(known, r) && |UnknownBefore(s.rows, known, r)| < 500)
      && (r !in end.rows ==> r.id in end.store)
      && (r.id !in s.store ==> (r.id in end.store <==> r !in end.rows))
      && (r.id !in s.store && r !in end.rows ==> end.store[r.id] == r.observation)
  {
    hide FlushedTimes, IsKnown, FlushSeries, UnknownBefore, IsOutbox;
    var spools := SpoolsAlong(s, known, n);
    FlushesMove(s, known, n);
    FlushFixpoint(known, spools, n, r);
  }
}
