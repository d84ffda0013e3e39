/** The agent: registering and staying registered, recording observations and delivering them. */
module Agents {
  import opened Common
  import opened Observations
  import opened SpoolOrder
  import opened Spool
  import opened Flush
  import opened Sessions

  /** What becomes of one call: answered, not arrived, answered in vain, or refused for good. */
  datatype Fate = Delivered | RequestLost | ResponseLost | Refused

  class Agent {
    const environment: string
    const hostname: string
    const spool: Spool
    var registered: bool
    var agentId: Option<AgentKey>
    var sessionId: Option<SessionId>
    var failing: bool
    var spooled: nat

    constructor (environment: string, hostname: string, spool: Spool)
      ensures this.environment == environment && this.hostname == hostname && this.spool == spool
      ensures agentId == None && sessionId == None && !registered && spooled == 0
    {
      this.environment, this.hostname, this.spool := environment, hostname, spool;
      registered, agentId, sessionId, failing, spooled := false, None, None, false, 0;
    }

    /** The agent holds the session the registry has for it. */
    ghost predicate InSync(registry: AgentRegistry)
      reads this, registry
    {
      var key := KeyFor(environment, hostname);
      && agentId == Some(key) && key in registry.sessions && sessionId == Some(registry.sessions[key].session)
    }

    /** An agent only ever holds its own identity. */
    predicate OwnIdentity()
      reads this
    {
      agentId.Some? ==> agentId == Some(KeyFor(environment, hostname))
    }

    method Register(
      registry: AgentRegistry, fate: Fate, bootId: Option<string>, entity: EntityId, id: SessionId, now: int)
      returns (ok: bool)
      requires registry.Valid() && id !in registry.issued && OwnIdentity()
      modifies `registered, `agentId, `sessionId, `failing, registry
      ensures registry.Valid() && OwnIdentity()
      ensures ok == registered == fate.Delivered? && failing == !ok
      ensures ok ==> InSync(registry) && sessionId == Some(id)
      ensures !ok ==> agentId == old(agentId) && sessionId == old(sessionId)
      ensures fate.Delivered? || fate.ResponseLost? ==>
        var key := KeyFor(environment, hostname);
        registry.sessions == old(registry.sessions)[key := Session(key, id, entity, bootId, now, now)]
      ensures fate.RequestLost? || fate.Refused? ==>
        registry.sessions == old(registry.sessions) && registry.issued == old(registry.issued)
      ensures fate.Delivered? || fate.ResponseLost? ==>
        registry.Model() == Apply(old(registry.Model()), Registered(KeyFor(environment, hostname), id))
    {
      if fate.RequestLost? || fate.Refused? {
        registered, failing := false, true;
        return false;
      }
      var session := registry.Register(environment, hostname, bootId, entity, id, now);
      if fate.ResponseLost? {
        registered, failing := false, true;
        return false;
      }
      registered, failing := true, false;
      agentId, sessionId := Some(session.agent), Some(session.session);
      ok := true;
    }

    /**
      Send a heartbeat and register again if asked, or if there is no session yet. When every
      call of the exchange is delivered, agent and registry agree on the session afterwards.
     */
    method Heartbeat(
      registry: AgentRegistry, beat: Fate, again: Fate, bootId: Option<string>,
      entity: EntityId, id: SessionId, now: int)
      returns (ok: bool)
      requires registry.Valid() && id !in registry.issued && OwnIdentity()
      modifies `registered, `agentId, `sessionId, `failing, registry
      ensures registry.Valid() && OwnIdentity()
      ensures beat.Delivered? && again.Delivered? ==> ok && InSync(registry)
      ensures ok ==> InSync(registry)
      ensures old(InSync(registry)) && beat.Delivered? ==>
        ok && sessionId == old(sessionId) && registry.issued == old(registry.issued)
      ensures old(InSync(registry)) && (beat.Delivered? || beat.ResponseLost?) ==>
        var key := KeyFor(environment, hostname);
        registry.sessions == old(registry.sessions)[key := old(registry.sessions)[key].(lastSeenAt := now)]
      ensures old(agentId.Some? && sessionId.Some?) && !beat.Delivered? ==>
        && !ok && failing && agentId == old(agentId) && sessionId == old(sessionId)
        && registry.Model() == old(registry.Model()) && registered == (old(registered) && !beat.Refused?)
    {
      if agentId.None? || sessionId.None? {
        ok := Register(registry, again, bootId, entity, id, now);
        return;
      }
      if beat.RequestLost? || beat.Refused? {
        failing := true;
        if beat.Refused? {
          registered := false;
        }
        return false;
      }
      var reregister, _ := registry.Heartbeat(agentId.value, sessionId.value, now);
      if beat.ResponseLost? {
        failing := true;
        return false;
      }
      failing := false;
      if reregister {
        ok := Register(registry, again, bootId, entity, id, now);
        return;
      }
      ok := true;
    }

    // ----- observations

    /**
      Spool first, then send: what is recorded is in the spool before anything leaves it. A failed
      eviction ends the call with the rows still spooled.
     */
    method Record(observations: seq<Observation>, cutoff: string, answers: Answers)
      returns (ok: bool, ghost pushed: set<Row>, ghost outcome: Option<EvictionOutcome>)
      requires spool.Valid()
      modifies `failing, `spooled, spool
      ensures spool.Valid() && ok == outcome.Some?
      ensures IsPushed(WithInserted(old(spool.rows), observations), cutoff, spool.limits, pushed, outcome)
      ensures spool.rows == if ok && agentId.Some? && sessionId.Some? then Flushed(pushed, answers, 0).rows else pushed
    {
      hide IsPushed, Flushed, WithInserted;
      var evicted := spool.Push(observations, cutoff);
      pushed, outcome := spool.rows, evicted;
      ok := evicted.Some?;
      if ok {
        var delivered, requests := Flush(answers);
      }
    }

    /** Try to deliver everything; unregistered agents keep spooling. */
    method Flush(answers: Answers) returns (delivered: nat, requests: nat)
      requires spool.Valid()
      modifies `failing, `spooled, spool
      ensures spool.Valid() && spooled == |spool.rows|
      ensures agentId.None? || sessionId.None? ==> spool.rows == old(spool.rows) && delivered == requests == 0
      ensures agentId.None? || sessionId.None? ==> failing == old(failing)
      ensures agentId.Some? && sessionId.Some? ==>
        var end := Flushed(old(spool.rows), answers, 0);
        && spool.rows == end.rows && requests == end.requests && delivered == end.delivered
        && failing == if requests == 0 then old(failing) else end.failed
    {
      delivered, requests := 0, 0;
      if agentId.None? || sessionId.None? {
        spooled := |spool.rows|;
        return;
      }
      delivered, requests := SendAll(answers);
      spooled := |spool.rows|;
    }

    /** The loop: round after round until one of them ends it. */
    method SendAll(answers: Answers) returns (delivered: nat, requests: nat)
      requires spool.Valid()
      modifies this`failing, spool
      ensures spool.Valid()
      ensures var end := Flushed(old(spool.rows), answers, 0);
        && spool.rows == end.rows && requests == end.requests && delivered == end.delivered
        && failing == if requests == 0 then old(failing) else end.failed
    {
      hide Flushed, RoundOf;
      delivered, requests := 0, 0;
      ghost var total := Flushed(spool.rows, answers, 0);
      while true
        invariant spool.Valid()
        invariant total == Plus(requests, delivered, Flushed(spool.rows, answers, requests))
        invariant failing == (requests == 0 && old(failing))
        decreases |spool.rows|
      {
        FlushedUnfolds(spool.rows, answers, requests);
        var sent, again, accepted := SendBatch(answers, requests);
        delivered, requests := delivered + accepted, requests + sent;
        if !again {
          return;
        }
      }
    }

    /** One round of the loop; the spool is untouched unless an answer arrived. */
    method SendBatch(answers: Answers, i: nat) returns (sent: nat, again: bool, accepted: nat)
      requires spool.Valid()
      modifies this`failing, spool
      ensures spool.Valid()
      ensures var round := RoundOf(old(spool.rows), answers, i);
        && sent == round.Sent() && again == round.Again() && accepted == round.Accepted()
        && spool.rows == round.Left(old(spool.rows))
        && failing == if round.Empty? then old(failing) else round.Unreachable?
    {
      var batch := spool.Peek(MAX_BATCH);
      ReplayBatchIsOne(spool.rows, MAX_BATCH, batch);
      if batch == [] {
        return 0, false, 0;
      }
      var answer := answers(i, batch);
      if answer.None? {
        failing := true;
        return 1, false, 0;
      }
      var response := answer.value;
      var removed := spool.Acknowledge(Confirmed(batch, response.rejected));
      failing := false;
      return 1, response.rejected == [], response.accepted;
    }
  }
}
