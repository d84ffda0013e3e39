/**
  Agents, a lossy network and the controller as one state machine. Requests and
  replies stay in the network once sent: not using one models losing it, using one late
  or twice models delay and duplication. An agent forgets what it was waiting for when a
  call fails or it crashes; its spool and the controller's store are durable.
 */
module Protocol {
  import opened Common
  import opened TextOrder
  import opened Rfc3339
  import opened Observations
  import opened SpoolOrder
  import opened Spool
  import opened Delivery
  import opened Flush
  import opened Convergence

  type AgentName = nat

  datatype Request = Request(agent: AgentName, batch: seq<Row>)

  datatype Reply = Reply(request: Request, response: Response)

  /**
    `accepted` sums what every processed batch reported; `recorded`, `expired` (evicted for age) and
    `evicted` (for space) are history.
   */
  datatype State = State(
    spools: map<AgentName, set<Row>>,
    pending: map<AgentName, Request>,
    requests: set<Request>,
    replies: set<Reply>,
    known: set<EntityId>,
    store: Store,
    accepted: nat,
    recorded: Store,
    expired: set<ObservationId>,
    evicted: set<ObservationId>
  )

  /** Each statement of an eviction is a step of its own, so a crash may come between any two. */
  datatype Step =
    | Record(agent: AgentName, observations: seq<Observation>)
    | AgeOut(agent: AgentName, cutoff: string)
    | TrimRows(agent: AgentName, maxRows: nat)
    | TrimBytes(agent: AgentName, maxBytes: nat)
    | Send(agent: AgentName)
    | Process(request: Request)
    | Receive(agent: AgentName, reply: Reply)
    | Forget(agent: AgentName)
    | Discover(known: set<EntityId>)

  function Initial(): State {
    State(map[], map[], {}, {}, {}, map[], 0, map[], {}, {})
  }

  function SpoolOf(s: State, agent: AgentName): set<Row> {
    if agent in s.spools then s.spools[agent] else {}
  }

  /** Observations are immutable facts: an id never names two different ones. */
  ghost predicate OneFactPerId(recorded: Store, observations: seq<Observation>) {
    && (forall o :: o in observations && o.id in recorded ==> recorded[o.id] == o)
    && (forall o, p :: o in observations && p in observations && o.id == p.id ==> o == p)
  }

  function WithRecorded(recorded: Store, observations: seq<Observation>): Store {
    if observations == [] then recorded
    else
      var last := |observations| - 1;
      WithRecorded(recorded, observations[..last])[observations[last].id := observations[last]]
  }

  /** The agent's spool is down to the given rows, for want of space. */
  function Squeezed(s: State, agent: AgentName, left: set<Row>): State {
    s.(spools := s.spools[agent := left], evicted := s.evicted + IdsOf(SpoolOf(s, agent) - left))
  }

  ghost predicate Enabled(s: State, step: Step) {
    match step
    case Record(agent, observations) => OneFactPerId(s.recorded, observations)
    case AgeOut(agent, cutoff) => true
    case TrimRows(agent, maxRows) =>
      DistinctIds(SpoolOf(s, agent)) && maxRows < 2 * TWO_63 && RowExcess(|SpoolOf(s, agent)|, maxRows).Some?
    case TrimBytes(agent, maxBytes) => DistinctIds(SpoolOf(s, agent)) && SizeBytes(SpoolOf(s, agent)) > maxBytes
    case Send(agent) => agent !in s.pending && DistinctIds(SpoolOf(s, agent)) && SpoolOf(s, agent) != {}
    case Process(request) => request in s.requests
    case Receive(agent, reply) => reply in s.replies && agent in s.pending && s.pending[agent] == reply.request
    case Forget(agent) => true
    case Discover(known) => true
  }

  ghost function Apply(s: State, step: Step): State
    requires Enabled(s, step)
  {
    match step
    case Record(agent, observations) =>
      s.(spools := s.spools[agent := WithInserted(SpoolOf(s, agent), observations)],
         recorded := WithRecorded(s.recorded, observations))
    case AgeOut(agent, cutoff) =>
      var aged := Aged(SpoolOf(s, agent), cutoff);
      s.(spools := s.spools[agent := SpoolOf(s, agent) - aged], expired := s.expired + IdsOf(aged))
    case TrimRows(agent, maxRows) =>
      Squeezed(s, agent, DropFirst(SpoolOf(s, agent), RowExcess(|SpoolOf(s, agent)|, maxRows).value))
    case TrimBytes(agent, maxBytes) => Squeezed(s, agent, DropFirst(SpoolOf(s, agent), BYTE_ROUND))
    case Send(agent) =>
      var request := Request(agent, ReplayBatch(SpoolOf(s, agent), MAX_BATCH));
      s.(requests := s.requests + {request}, pending := s.pending[agent := request])
    case Process(request) =>
      var (store, response) := Answer(s.store, s.known, request.batch);
      s.(store := store, accepted := s.accepted + response.accepted, replies := s.replies + {Reply(request, response)})
    case Receive(agent, reply) =>
      s.(spools := s.spools[agent := AfterResponse(SpoolOf(s, agent), reply.request.batch, reply.response)],
         pending := s.pending - {agent})
    case Forget(agent) => s.(pending := s.pending - {agent})
    case Discover(known) => s.(known := known)
  }

  // ----- the invariant

  /** The row holds the observation recorded under its id. */
  ghost predicate Genuine(recorded: Store, r: Row) {
    r.id in recorded && r == RowOf(recorded[r.id])
  }

  ghost predicate GenuineSpools(s: State) {
    forall agent, r :: r in SpoolOf(s, agent) ==> Genuine(s.recorded, r)
  }

  ghost predicate GenuineRequests(s: State) {
    && (forall request, r :: request in s.requests && r in request.batch ==> Genuine(s.recorded, r))
    && (forall agent :: agent in s.pending ==> s.pending[agent] in s.requests)
  }

  ghost predicate GenuineStore(s: State) {
    forall id :: id in s.store ==> id in s.recorded && s.store[id] == s.recorded[id]
  }

  /** Whatever a reply does not reject is in the store. */
  ghost predicate RepliesAreBacked(s: State) {
    forall reply, r :: reply in s.replies && r in reply.request.batch && r.id !in reply.response.rejected ==>
      r.id in s.store
  }

  ghost predicate Waiting(s: State, id: ObservationId) {
    exists agent :: id in IdsOf(SpoolOf(s, agent))
  }

  function Gone(s: State): set<ObservationId> {
    s.expired + s.evicted
  }

  /** Every recorded observation is waiting in a spool, stored, or was evicted by a limit. */
  ghost predicate NothingLost(s: State) {
    forall id :: id in s.recorded ==> Waiting(s, id) || id in s.store || id in Gone(s)
  }

  ghost predicate Inv(s: State) {
    && GenuineSpools(s) && GenuineRequests(s) && GenuineStore(s) && RepliesAreBacked(s)
    && s.accepted == |s.store|
    && NothingLost(s)
  }

  // ----- every step keeps it

  ghost predicate Extends(before: Store, after: Store) {
    forall id :: id in before ==> id in after && after[id] == before[id]
  }

  lemma {:induction false} RecordedExtends(recorded: Store, observations: seq<Observation>)
    requires OneFactPerId(recorded, observations)
    ensures Extends(recorded, WithRecorded(recorded, observations))
    ensures forall o :: o in observations ==>
      o.id in WithRecorded(recorded, observations) && WithRecorded(recorded, observations)[o.id] == o
    ensures forall id :: id in WithRecorded(recorded, observations) ==>
      id in recorded || exists o :: o in observations && o.id == id
  {
    if observations != [] {
      var last := |observations| - 1;
      assert observations == observations[..last] + [observations[last]];
      RecordedExtends(recorded, observations[..last]);
    }
  }

  lemma {:induction false} InsertedRows(rows: set<Row>, observations: seq<Observation>)
    ensures rows <= WithInserted(rows, observations)
    ensures forall r :: r in WithInserted(rows, observations) ==>
      r in rows || exists o :: o in observations && r == RowOf(o)
    ensures forall o :: o in observations ==> o.id in IdsOf(WithInserted(rows, observations))
  {
    hide ToRfc3339;
    if observations != [] {
      var last := |observations| - 1;
      assert observations == observations[..last] + [observations[last]];
      InsertedRows(rows, observations[..last]);
      var before, after := WithInserted(rows, observations[..last]), WithInserted(rows, observations);
      assert IdsOf(before) <= IdsOf(after);
      assert RowOf(observations[last]) in after || observations[last].id in IdsOf(before);
    }
  }

  lemma GenuineExtends(recorded: Store, recorded': Store, r: Row)
    requires Genuine(recorded, r) && Extends(recorded, recorded')
    ensures Genuine(recorded', r)
  {
  }

  lemma RecordKeeps(s: State, agent: AgentName, observations: seq<Observation>)
    requires Inv(s) && Enabled(s, Record(agent, observations))
    ensures Inv(Apply(s, Record(agent, observations)))
  {
    var s' := Apply(s, Record(agent, observations));
    RecordedExtends(s.recorded, observations);
    InsertedRows(SpoolOf(s, agent), observations);
    assert SpoolOf(s', agent) == WithInserted(SpoolOf(s, agent), observations);
    assert forall a :: a != agent ==> SpoolOf(s', a) == SpoolOf(s, a);
    hide WithInserted, WithRecorded, RowOf;
    assert s'.store == s.store && Gone(s') == Gone(s) && s'.requests == s.requests && s'.pending == s.pending
      && s'.replies == s.replies && s'.accepted == s.accepted && Extends(s.recorded, s'.recorded);
    hide Apply;
    RecordedSpools(s, s', agent, observations);
    RecordedRequests(s, s');
    RecordedIsWaiting(s, s', agent, observations);
    BackedStaysBacked(s, s');
    hide GenuineSpools, GenuineRequests, NothingLost, RepliesAreBacked;
  }

  lemma RecordedSpools(s: State, s': State, agent: AgentName, observations: seq<Observation>)
    requires GenuineSpools(s) && Extends(s.recorded, s'.recorded)
    requires forall o :: o in observations ==> o.id in s'.recorded && s'.recorded[o.id] == o
    requires forall a :: a != agent ==> SpoolOf(s', a) == SpoolOf(s, a)
    requires forall r :: r in SpoolOf(s', agent) ==>
      r in SpoolOf(s, agent) || exists o :: o in observations && r == RowOf(o)
    ensures GenuineSpools(s')
  {
    hide ToRfc3339, PriorityOf;
    forall a, r | r in SpoolOf(s', a) ensures Genuine(s'.recorded, r) {
      if r in SpoolOf(s, a) {
        GenuineExtends(s.recorded, s'.recorded, r);
      }
    }
  }

  lemma RecordedRequests(s: State, s': State)
    requires GenuineRequests(s) && Extends(s.recorded, s'.recorded)
    requires s'.requests == s.requests && s'.pending == s.pending
    ensures GenuineRequests(s')
  {
    hide RowOf;
    forall request, r | request in s'.requests && r in request.batch ensures Genuine(s'.recorded, r) {
      GenuineExtends(s.recorded, s'.recorded, r);
    }
  }

  lemma RecordedIsWaiting(s: State, s': State, agent: AgentName, observations: seq<Observation>)
    requires NothingLost(s) && s'.store == s.store && Gone(s') == Gone(s)
    requires forall id :: id in s'.recorded ==> id in s.recorded || exists o :: o in observations && o.id == id
    requires forall a :: SpoolOf(s, a) <= SpoolOf(s', a)
    requires forall o :: o in observations ==> o.id in IdsOf(SpoolOf(s', agent))
    ensures NothingLost(s')
  {
    hide RowOf;
    forall id | id in s'.recorded ensures Waiting(s', id) || id in s'.store || id in Gone(s') {
      if id in s.recorded {
        SpoolsGrow(s, s', id);
      }
    }
  }

  lemma SpoolsGrow(s: State, s': State, id: ObservationId)
    requires forall agent :: SpoolOf(s, agent) <= SpoolOf(s', agent)
    ensures Waiting(s, id) ==> Waiting(s', id)
  {
    if agent :| id in IdsOf(SpoolOf(s, agent)) {
      assert id in IdsOf(SpoolOf(s', agent));
    }
  }

  lemma GenuineSpoolsShrink(s: State, s': State)
    requires GenuineSpools(s) && s'.recorded == s.recorded
    requires forall agent :: SpoolOf(s', agent) <= SpoolOf(s, agent)
    ensures GenuineSpools(s')
  {
    forall agent, r | r in SpoolOf(s', agent) ensures Genuine(s'.recorded, r) {
      assert r in SpoolOf(s, agent);
    }
  }

  /** Steps that leave spools, records and evictions alone lose nothing. */
  lemma SameSpoolsLoseNothing(s: State, s': State)
    requires GenuineSpools(s) && NothingLost(s)
    requires s'.spools == s.spools && s'.recorded == s.recorded && Gone(s') == Gone(s)
    requires s.store.Keys <= s'.store.Keys
    ensures GenuineSpools(s') && NothingLost(s')
  {
    assert forall agent :: SpoolOf(s', agent) == SpoolOf(s, agent);
    GenuineSpoolsShrink(s, s');
    forall id | id in s'.recorded ensures Waiting(s', id) || id in s'.store || id in Gone(s') {
      SpoolsGrow(s, s', id);
    }
  }

  /** Whatever a spool is cut down to, nothing is lost if what goes is counted as gone. */
  lemma CutKeeps(s: State, s': State, agent: AgentName, left: set<Row>)
    requires Inv(s) && left <= SpoolOf(s, agent)
    requires s' == s.(spools := s.spools[agent := left], expired := s'.expired, evicted := s'.evicted)
    requires Gone(s') == Gone(s) + IdsOf(SpoolOf(s, agent) - left)
    ensures Inv(s')
  {
    GenuineSpoolsShrink(s, s');
    hide GenuineSpools, GenuineRequests, GenuineStore;
    forall id | id in s'.recorded ensures Waiting(s', id) || id in s'.store || id in Gone(s') {
      if Waiting(s, id) {
        var a :| id in IdsOf(SpoolOf(s, a));
        if a != agent {
          assert SpoolOf(s', a) == SpoolOf(s, a);
        } else {
          SplitIds(SpoolOf(s, agent), left, id);
          assert SpoolOf(s', agent) == left;
        }
      }
    }
    assert GenuineRequests(s') by { SameRequests(s, s'); }
    assert GenuineStore(s') by { SameStore(s, s'); }
  }

  lemma SplitIds(rows: set<Row>, left: set<Row>, id: ObservationId)
    requires id in IdsOf(rows)
    ensures id in IdsOf(left) || id in IdsOf(rows - left)
  {
    var r :| r in rows && r.id == id;
    assert r in left || r in rows - left;
  }

  lemma SameRequests(s: State, s': State)
    requires GenuineRequests(s) && s'.requests == s.requests && s'.pending == s.pending && s'.recorded == s.recorded
    ensures GenuineRequests(s')
  {
  }

  lemma SameStore(s: State, s': State)
    requires GenuineStore(s) && s'.store == s.store && s'.recorded == s.recorded
    ensures GenuineStore(s')
  {
  }

  lemma EvictionKeeps(s: State, step: Step)
    requires Inv(s) && Enabled(s, step) && (step.AgeOut? || step.TrimRows? || step.TrimBytes?)
    ensures Inv(Apply(s, step))
  {
    hide Inv, DropFirst, Sorted;
    var s' := Apply(s, step);
    var rows, left := SpoolOf(s, step.agent), SpoolOf(s', step.agent);
    assert step.AgeOut? ==> rows - left == Aged(rows, step.cutoff);
    CutKeeps(s, s', step.agent, left);
  }

  lemma SendKeeps(s: State, agent: AgentName)
    requires Inv(s) && Enabled(s, Send(agent))
    ensures Inv(Apply(s, Send(agent)))
  {
    hide ReplayBatch, RowOf, NothingLost, GenuineSpools, GenuineRequests, RepliesAreBacked;
    var s' := Apply(s, Send(agent));
    var request := Request(agent, ReplayBatch(SpoolOf(s, agent), MAX_BATCH));
    BatchIsGenuine(s, agent);
    assert s' == s.(requests := s.requests + {request}, pending := s.pending[agent := request]);
    hide Apply, DistinctIds;
    SentRequests(s, s', agent, request);
    SameSpoolsLoseNothing(s, s');
    assert GenuineStore(s') && s'.replies == s.replies && s'.store == s.store;
    BackedStaysBacked(s, s');
  }

  lemma SentRequests(s: State, s': State, agent: AgentName, request: Request)
    requires GenuineRequests(s) && s'.recorded == s.recorded
    requires s'.requests == s.requests + {request} && s'.pending == s.pending[agent := request]
    requires forall r :: r in request.batch ==> Genuine(s.recorded, r)
    ensures GenuineRequests(s')
  {
    hide Genuine;
  }

  lemma BackedStaysBacked(s: State, s': State)
    requires RepliesAreBacked(s) && s'.replies == s.replies && s.store.Keys <= s'.store.Keys
    ensures RepliesAreBacked(s')
  {
  }

  lemma BatchIsGenuine(s: State, agent: AgentName)
    requires GenuineSpools(s) && DistinctIds(SpoolOf(s, agent))
    ensures forall r :: r in ReplayBatch(SpoolOf(s, agent), MAX_BATCH) ==>
      r in SpoolOf(s, agent) && Genuine(s.recorded, r)
  {
    var batch := ReplayBatch(SpoolOf(s, agent), MAX_BATCH);
    BatchInRows(SpoolOf(s, agent));
    hide ReplayBatch, RowOf;
    forall r | r in batch ensures r in SpoolOf(s, agent) && Genuine(s.recorded, r) {
      assert r in Elements(batch);
    }
  }

  lemma ProcessKeeps(s: State, request: Request)
    requires Inv(s) && Enabled(s, Process(request))
    ensures Inv(Apply(s, Process(request)))
  {
    var s' := Apply(s, Process(request));
    var observations := ObservationsOf(request.batch);
    assert s' == s.(store := Stored(s.store, s.known, observations), accepted := |s'.store|,
                    replies := s.replies + {Reply(request, Answer(s.store, s.known, request.batch).1)});
    hide Apply;
    ProcessedStore(s, s', request);
    ProcessedReplies(s, s', request, Answer(s.store, s.known, request.batch).1);
    SameSpoolsLoseNothing(s, s');
    hide NothingLost, GenuineSpools, GenuineStore, RepliesAreBacked, Stored, Answer;
    assert GenuineRequests(s');
  }

  lemma ProcessedStore(s: State, s': State, request: Request)
    requires GenuineRequests(s) && GenuineStore(s) && request in s.requests && s'.recorded == s.recorded
    requires s'.store == Stored(s.store, s.known, ObservationsOf(request.batch))
    ensures GenuineStore(s')
  {
    var observations := ObservationsOf(request.batch);
    StoredContents(s.store, s.known, observations);
    hide ToRfc3339, PriorityOf, Stored;
    forall id | id in s'.store ensures id in s'.recorded && s'.store[id] == s'.recorded[id] {
      if id !in s.store {
        var i :| 0 <= i < |observations| && observations[i] == s'.store[id];
        assert request.batch[i] in request.batch && Genuine(s.recorded, request.batch[i]);
      }
    }
  }

  lemma ProcessedReplies(s: State, s': State, request: Request, response: Response)
    requires GenuineRequests(s) && RepliesAreBacked(s) && request in s.requests
    requires s'.store == Stored(s.store, s.known, ObservationsOf(request.batch))
    requires response.rejected == Rejected(s.known, ObservationsOf(request.batch))
    requires s'.replies == s.replies + {Reply(request, response)}
    ensures RepliesAreBacked(s')
  {
    hide Stored, Rejected, RowOf;
    forall reply, r | reply in s'.replies && r in reply.request.batch && r.id !in reply.response.rejected
      ensures r.id in s'.store
    {
      if reply !in s.replies {
        UnrejectedIsStored(s, request, r);
      }
    }
  }

  /** Processing a batch stores every row it does not reject. */
  lemma UnrejectedIsStored(s: State, request: Request, r: Row)
    requires GenuineRequests(s) && request in s.requests && r in request.batch
    requires r.id !in Rejected(s.known, ObservationsOf(request.batch))
    ensures r.id in Stored(s.store, s.known, ObservationsOf(request.batch))
  {
    var observations := ObservationsOf(request.batch);
    var i :| 0 <= i < |request.batch| && request.batch[i] == r;
    assert observations[i] == r.observation && Genuine(s.recorded, r);
    StoredOrRejected(s.store, s.known, observations, r.observation);
  }

  lemma ReceiveKeeps(s: State, agent: AgentName, reply: Reply)
    requires Inv(s) && Enabled(s, Receive(agent, reply))
    ensures Inv(Apply(s, Receive(agent, reply)))
  {
    var s' := Apply(s, Receive(agent, reply));
    GenuineSpoolsShrink(s, s');
    forall id | id in s'.recorded ensures Waiting(s', id) || id in s'.store || id in Gone(s') {
      if Waiting(s, id) {
        var a :| id in IdsOf(SpoolOf(s, a));
        var r :| r in SpoolOf(s, a) && r.id == id;
        if r in SpoolOf(s', a) {
          assert id in IdsOf(SpoolOf(s', a));
        }
      }
    }
  }

  /** Crashing and discovering touch no observation. */
  lemma QuietKeeps(s: State, step: Step)
    requires Inv(s) && (step.Forget? || step.Discover?)
    ensures Inv(Apply(s, step))
  {
    SameSpoolsLoseNothing(s, Apply(s, step));
  }

  lemma StepKeeps(s: State, step: Step)
    requires Inv(s) && Enabled(s, step)
    ensures Inv(Apply(s, step))
  {
    hide Inv, Apply;
    match step
    case Record(agent, observations) => RecordKeeps(s, agent, observations);
    case AgeOut(agent, cutoff) => EvictionKeeps(s, step);
    case TrimRows(agent, maxRows) => EvictionKeeps(s, step);
    case TrimBytes(agent, maxBytes) => EvictionKeeps(s, step);
    case Send(agent) => SendKeeps(s, agent);
    case Process(request) => ProcessKeeps(s, request);
    case Receive(agent, reply) => ReceiveKeeps(s, agent, reply);
    case Forget(agent) => QuietKeeps(s, step);
    case Discover(known) => QuietKeeps(s, step);
  }

  // ----- whole runs

  ghost predicate IsStep(s: State, step: Step, s': State) {
    Enabled(s, step) && s' == Apply(s, step)
  }

  /** Each state is the one before after an enabled step. */
  ghost predicate IsPath(states: seq<State>, steps: seq<Step>) {
    && |states| == |steps| + 1
    && forall k :: 0 <= k < |steps| ==> IsStep(states[k], steps[k], states[k + 1])
  }

  /** A run: a path from the initial state. */
  ghost predicate IsRun(states: seq<State>, steps: seq<Step>) {
    IsPath(states, steps) && states[0] == Initial()
  }

  /**
    In every state of every run nothing recorded is lost, nothing is stored that was not
    recorded as such, and the accepted counts add up to the distinct ids stored.
   */
  lemma {:induction false} RunsLoseNothing(states: seq<State>, steps: seq<Step>, k: nat)
    requires IsRun(states, steps) && k < |states|
    ensures Inv(states[k])
    decreases k
  {
    if k > 0 {
      RunsLoseNothing(states, steps, k - 1);
      assert IsStep(states[k - 1], steps[k - 1], states[k - 1 + 1]);
      StepKeeps(states[k - 1], steps[k - 1]);
    }
  }

  /** In every run each spool holds rows with distinct ids, each under its observation's id. */
  lemma SpoolsAreOutboxes(states: seq<State>, steps: seq<Step>, k: nat, agent: AgentName)
    requires IsRun(states, steps) && k < |states|
    ensures IsOutbox(SpoolOf(states[k], agent))
  {
    RunsLoseNothing(states, steps, k);
    assert forall r :: r in SpoolOf(states[k], agent) ==> Genuine(states[k].recorded, r);
  }

  /** In every run a waiting agent with nothing pending can send: its rows have distinct ids. */
  lemma SendIsEnabled(states: seq<State>, steps: seq<Step>, k: nat, agent: AgentName)
    requires IsRun(states, steps) && k < |states|
    ensures Enabled(states[k], Send(agent)) <==> agent !in states[k].pending && SpoolOf(states[k], agent) != {}
  {
    SpoolsAreOutboxes(states, steps, k, agent);
  }

  /**
    In every run a row leaves a spool because it is too old, because the spool is over a limit, or
    by a reply while its content is already stored.
   */
  lemma RowsLeaveStored(states: seq<State>, steps: seq<Step>, k: nat, agent: AgentName, r: Row)
    requires IsRun(states, steps) && k < |steps|
    requires r in SpoolOf(states[k], agent) && r !in SpoolOf(states[k + 1], agent)
    ensures var rows, step := SpoolOf(states[k], agent), steps[k];
      || (step.AgeOut? && Less(r.recordedAt, step.cutoff) && r.id in states[k + 1].expired)
      || (step.TrimRows? && |rows| > BoundLimit(step.maxRows) && r.id in states[k + 1].evicted)
      || (step.TrimBytes? && Enabled(states[k], step) && step.agent == agent && r.id in states[k + 1].evicted)
      || (step.Receive? && r.id in states[k].store && states[k].store[r.id] == r.observation)
  {
    hide DropFirst, ToRfc3339, PriorityOf;
    var s, step := states[k], steps[k];
    RunsLoseNothing(states, steps, k);
    assert IsStep(s, step, states[k + 1]);
    assert Genuine(s.recorded, r);
    hide Inv, GenuineRequests, GenuineStore, NothingLost, IsRun;
    if step.Record? {
      InsertedRows(SpoolOf(s, agent), step.observations);
    } else if step.TrimRows? {
      var rows := SpoolOf(s, step.agent);
      NothingDroppedOfNone(rows, RowExcess(|rows|, step.maxRows).value);
    }
  }

  lemma NothingDroppedOfNone(rows: set<Row>, k: nat)
    requires DistinctIds(rows)
    ensures k == 0 ==> DropFirst(rows, k) == rows
  {
    var order := Sorted(Eviction, rows);
    assert order[0..] == order;
  }

  /**
    In every run, while a failure or reboot is lost for space, only such keep waiting in that
    spool; while anything abnormal is, nothing routine does; and within one priority nothing older.
   */
  lemma SpaceTakesRoutineFirst(
    states: seq<State>, steps: seq<Step>, k: nat, agent: AgentName, gone: Row, stays: Row)
    requires IsRun(states, steps) && k < |steps| && (steps[k].TrimRows? || steps[k].TrimBytes?)
    requires gone in SpoolOf(states[k], agent) && gone !in SpoolOf(states[k + 1], agent)
    requires stays in SpoolOf(states[k + 1], agent)
    ensures gone.priority == stays.priority ==> IsNoLater(gone.observation, stays.observation)
    ensures IsWeighty(gone.observation) ==> IsWeighty(stays.observation)
    ensures !IsRoutine(gone.observation) ==> !IsRoutine(stays.observation)
  {
    var s, step := states[k], steps[k];
    RunsLoseNothing(states, steps, k);
    assert IsStep(s, step, states[k + 1]);
    assert Genuine(s.recorded, gone) && Genuine(s.recorded, stays);
    hide Inv, IsRun, DropFirst, Before, ToRfc3339, PriorityOf, IsNoLater, IsMoreExpendable;
    var rows := SpoolOf(s, agent);
    DroppedRankFirst(rows, if step.TrimRows? then RowExcess(|rows|, step.maxRows).value else BYTE_ROUND, gone, stays);
    assert gone.priority <= stays.priority by { ExpendableRanks(gone, stays); }
    PrioritiesRank(gone.observation, stays.observation);
    if gone.priority == stays.priority {
      OldestIsEvictedFirst(gone.observation, stays.observation);
    }
  }

  lemma ExpendableRanks(a: Row, b: Row)
    requires IsMoreExpendable(a, b)
    ensures a.priority <= b.priority
  {
  }

  predicate IsEviction(step: Step) {
    step.AgeOut? || step.TrimRows? || step.TrimBytes?
  }

  /** Without evictions, everything recorded is still waiting or stored. */
  lemma {:induction false} NoEvictionNoLoss(states: seq<State>, steps: seq<Step>, k: nat, id: ObservationId)
    requires IsRun(states, steps) && k < |states|
    requires forall i :: 0 <= i < k ==> !IsEviction(steps[i])
    requires id in states[k].recorded
    ensures Waiting(states[k], id) || id in states[k].store
  {
    RunsLoseNothing(states, steps, k);
    NothingEvicted(states, steps, k);
  }

  lemma {:induction false} NothingEvicted(states: seq<State>, steps: seq<Step>, k: nat)
    requires IsRun(states, steps) && k < |states|
    requires forall i :: 0 <= i < k ==> !IsEviction(steps[i])
    ensures Gone(states[k]) == {}
    decreases k
  {
    if k > 0 {
      NothingEvicted(states, steps, k - 1);
      assert !IsEviction(steps[k - 1]);
      assert IsStep(states[k - 1], steps[k - 1], states[k - 1 + 1]);
    }
  }

  // ----- a push is a run of its statements

  lemma OneStepMore(s: State, step: Step, states: seq<State>, steps: seq<Step>)
    requires Enabled(s, step) && IsPath(states, steps) && states[0] == Apply(s, step)
    ensures IsPath([s] + states, [step] + steps)
  {
    hide Enabled, Apply;
    var more, taken := [s] + states, [step] + steps;
    forall k | 0 <= k < |taken| ensures IsStep(more[k], taken[k], more[k + 1]) {
      if k > 0 {
        assert more[k] == states[k - 1] && taken[k] == steps[k - 1] && more[k + 1] == states[k - 1 + 1];
        assert IsStep(states[k - 1], steps[k - 1], states[k - 1 + 1]);
      }
    }
  }

  lemma {:induction false} BytesAreARun(s: State, agent: AgentName, maxBytes: nat)
    returns (states: seq<State>, steps: seq<Step>)
    requires DistinctIds(SpoolOf(s, agent))
    ensures IsPath(states, steps) && states[0] == s
    ensures SpoolOf(states[|steps|], agent) == ByteRounds(SpoolOf(s, agent), maxBytes)
    decreases |SpoolOf(s, agent)|
  {
    hide DropFirst, SizeBytes, DistinctIds;
    var rows := SpoolOf(s, agent);
    if SizeBytes(rows) <= maxBytes {
      states, steps := [s], [];
    } else {
      DropShrinks(rows, maxBytes);
      var step := TrimBytes(agent, maxBytes);
      var next := Apply(s, step);
      assert SpoolOf(next, agent) == DropFirst(rows, BYTE_ROUND);
      hide Apply, Enabled;
      assert Enabled(s, step) by { TrimIsEnabled(s, agent, maxBytes); }
      states, steps := BytesAreARun(next, agent, maxBytes);
      OneStepMore(s, step, states, steps);
      states, steps := [s] + states, [step] + steps;
    }
  }

  lemma TrimIsEnabled(s: State, agent: AgentName, maxBytes: nat)
    requires DistinctIds(SpoolOf(s, agent)) && SizeBytes(SpoolOf(s, agent)) > maxBytes
    ensures Enabled(s, TrimBytes(agent, maxBytes))
  {
  }

  /** From any state an eviction is a path of its statements, ending with the rows it leaves. */
  lemma EvictionIsARun(s: State, agent: AgentName, cutoff: string, limits: Limits)
    returns (states: seq<State>, steps: seq<Step>)
    requires DistinctIds(SpoolOf(s, agent)) && limits.maxRows < 2 * TWO_63
    ensures IsPath(states, steps) && states[0] == s
    ensures SpoolOf(states[|steps|], agent) == Evicted(SpoolOf(s, agent), cutoff, limits)
  {
    hide DropFirst, ByteRounds;
    var age := AgeOut(agent, cutoff);
    var aged := Apply(s, age);
    var young := SpoolOf(aged, agent);
    assert young == SpoolOf(s, agent) - Aged(SpoolOf(s, agent), cutoff);
    var excess := RowExcess(|young|, limits.maxRows);
    if excess.None? {
      states, steps := [aged], [];
    } else {
      var trim := TrimRows(agent, limits.maxRows);
      var trimmed := Apply(aged, trim);
      assert SpoolOf(trimmed, agent) == DropFirst(young, excess.value);
      states, steps := BytesAreARun(trimmed, agent, limits.maxBytes);
      OneStepMore(aged, trim, states, steps);
      states, steps := [aged] + states, [trim] + steps;
    }
    OneStepMore(s, age, states, steps);
    states, steps := [s] + states, [age] + steps;
  }

  /** So is a push: recording, then the eviction. */
  lemma PushIsARun(s: State, agent: AgentName, observations: seq<Observation>, cutoff: string, limits: Limits)
    returns (states: seq<State>, steps: seq<Step>)
    requires Enabled(s, Record(agent, observations)) && DistinctIds(SpoolOf(s, agent))
    requires limits.maxRows < 2 * TWO_63
    ensures IsPath(states, steps) && states[0] == s
    ensures SpoolOf(states[|steps|], agent) ==
      Evicted(WithInserted(SpoolOf(s, agent), observations), cutoff, limits)
  {
    hide Evicted, WithInserted, WithRecorded, DistinctIds;
    var record := Record(agent, observations);
    var recorded := Apply(s, record);
    assert SpoolOf(recorded, agent) == WithInserted(SpoolOf(s, agent), observations);
    states, steps := EvictionIsARun(recorded, agent, cutoff, limits);
    OneStepMore(s, record, states, steps);
    states, steps := [s] + states, [record] + steps;
  }

  /** The state after a request of the agent was sent, processed and answered. */
  ghost function Exchanged(s: State, agent: AgentName): State
    requires Enabled(s, Send(agent))
  {
    var request := Request(agent, ReplayBatch(SpoolOf(s, agent), MAX_BATCH));
    var response := Answer(s.store, s.known, request.batch).1;
    var sent := Apply(s, Send(agent));
    var processed := Apply(sent, Process(request));
    Apply(processed, Receive(agent, Reply(request, response)))
  }

  /**
    A fully delivered exchange is one round of the flush loop with the controller at the other
    end: spool and store end as that round leaves them, with its count and its decision to go on.
   */
  lemma ExchangeIsARound(s: State, agent: AgentName, answers: Answers, i: nat)
    requires Enabled(s, Send(agent)) && DistinctIds(SpoolOf(s, agent))
    requires IsAnswered(s, agent, answers, i)
    ensures EndsAsRound(s, agent, RoundOf(SpoolOf(s, agent), answers, i), Exchanged(s, agent))
    ensures forall other :: other != agent ==> SpoolOf(Exchanged(s, agent), other) == SpoolOf(s, other)
  {
    hide AfterResponse, ReplayBatch, Apply, Exchanged;
    var rows := SpoolOf(s, agent);
    BatchInRows(rows);
    ExchangeEnds(s, agent);
    var batch := ReplayBatch(rows, MAX_BATCH);
    var response := Answer(s.store, s.known, batch).1;
    assert response.rejected == Rejected(s.known, ObservationsOf(batch));
    hide Enabled, Answer, ObservationsOf, Rejected, Elements, DistinctIds;
  }

  /** The i-th answer is the one the controller gives to the agent's next batch. */
  ghost predicate IsAnswered(s: State, agent: AgentName, answers: Answers, i: nat)
    requires DistinctIds(SpoolOf(s, agent))
  {
    var batch := ReplayBatch(SpoolOf(s, agent), MAX_BATCH);
    answers(i, batch) == Some(Answer(s.store, s.known, batch).1)
  }

  ghost predicate EndsAsRound(s: State, agent: AgentName, round: Round, end: State)
    requires DistinctIds(SpoolOf(s, agent))
  {
    var site := Site(SpoolOf(s, agent), s.store);
    && Site(SpoolOf(end, agent), end.store) == AfterRound(site, s.known)
    && round.Answered? && round.rows == SpoolOf(end, agent) && round.again == GoesOn(site, s.known)
    && s.accepted + round.accepted == end.accepted && agent !in end.pending
  }

  lemma ExchangeEnds(s: State, agent: AgentName)
    requires Enabled(s, Send(agent))
    ensures var batch := ReplayBatch(SpoolOf(s, agent), MAX_BATCH);
      var (store, response) := Answer(s.store, s.known, batch);
      var end := Exchanged(s, agent);
      && end.spools == s.spools[agent := AfterResponse(SpoolOf(s, agent), batch, response)]
      && end.store == store && end.accepted == s.accepted + response.accepted && agent !in end.pending
  {
    hide AfterResponse, ReplayBatch, Answer, DropFirst, Aged, WithInserted, WithRecorded, SizeBytes, RowExcess;
  }

  /** That answer is an honest one. */
  lemma AnswersAreHonest(s: State, agent: AgentName)
    requires Inv(s) && Enabled(s, Send(agent))
    ensures var batch := ReplayBatch(SpoolOf(s, agent), MAX_BATCH);
      RejectsUnknown(Answer(s.store, s.known, batch).1, s.known, batch)
  {
    var batch := ReplayBatch(SpoolOf(s, agent), MAX_BATCH);
    BatchInRows(SpoolOf(s, agent));
    BatchIsGenuine(s, agent);
    hide ToRfc3339, PriorityOf, ReplayBatch, RejectsUnknown, Rejected, Stored;
    ControllerIsHonest(s.known, batch, Answer(s.store, s.known, batch).1);
  }
}
