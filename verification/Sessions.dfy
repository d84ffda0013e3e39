/** Agent sessions: registration, heartbeats and restarts on both sides. */
module Sessions {
  import opened Common

  /** Session ids are random UUIDs; all that matters is that a new one was never issued before. */
  type SessionId = nat

  /** The text an agent's stable identity is derived from. */
  type AgentKey = string

  const SEPARATOR: char := '\U{1f}'

  function KeyFor(environment: string, hostname: string): AgentKey {
    environment + [SEPARATOR] + hostname
  }

  datatype Session = Session(
    agent: AgentKey,
    session: SessionId,
    entity: EntityId,
    bootId: Option<string>,
    startedAt: int,
    lastSeenAt: int
  )

  class AgentRegistry {
    var sessions: map<AgentKey, Session>
    var assignmentRevision: nat
    ghost var issued: set<SessionId>

    /** Each entry is filed under its own agent, and every current session was issued. */
    ghost predicate Valid()
      reads this
    {
      forall key :: key in sessions ==> sessions[key].agent == key && sessions[key].session in issued
    }

    /** What runs are about: the current sessions and the ids issued so far. */
    ghost function Model(): State
      reads this
    {
      State(map key | key in sessions :: sessions[key].session, issued)
    }

    /** A controller that starts, or starts again, knows no sessions; ids issued before stay issued. */
    constructor (ghost before: State)
      ensures Valid() && sessions == map[]
      ensures Model() == Apply(before, Restarted)
    {
      sessions, assignmentRevision, issued := map[], 0, before.issued;
    }

    /** A registration replaces whatever session the agent had. */
    method Register(
      environment: string, hostname: string, bootId: Option<string>, entity: EntityId, id: SessionId, now: int)
      returns (session: Session)
      requires Valid() && id !in issued
      modifies this
      ensures Valid() && issued == old(issued) + {id}
      ensures session == Session(KeyFor(environment, hostname), id, entity, bootId, now, now)
      ensures sessions == old(sessions)[KeyFor(environment, hostname) := session]
      ensures assignmentRevision == old(assignmentRevision)
      ensures Model() == Apply(old(Model()), Registered(KeyFor(environment, hostname), id))
    {
      var key := KeyFor(environment, hostname);
      session := Session(key, id, entity, bootId, now, now);
      sessions := sessions[key := session];
      issued := issued + {id};
    }

    /** A heartbeat is accepted exactly for the current session, whose last contact alone changes. */
    method Heartbeat(agent: AgentKey, id: SessionId, at: int) returns (reregister: bool, revision: nat)
      requires Valid()
      modifies this`sessions
      ensures Valid() && revision == assignmentRevision
      ensures reregister <==> !(agent in old(sessions) && old(sessions)[agent].session == id)
      ensures sessions == if reregister then old(sessions)
        else old(sessions)[agent := old(sessions)[agent].(lastSeenAt := at)]
      ensures reregister <==> !Accepts(old(Model()), agent, id)
      ensures Model() == Apply(old(Model()), Beat(agent, id))
    {
      revision := assignmentRevision;
      if agent in sessions && sessions[agent].session == id {
        sessions := sessions[agent := sessions[agent].(lastSeenAt := at)];
        reregister := false;
      } else {
        reregister := true;
      }
    }

    method Touch(agent: AgentKey, at: int)
      requires Valid()
      modifies this`sessions
      ensures Valid() && Model() == old(Model())
      ensures sessions == if agent in old(sessions) then old(sessions)[agent := old(sessions)[agent].(lastSeenAt := at)]
        else old(sessions)
    {
      if agent in sessions {
        sessions := sessions[agent := sessions[agent].(lastSeenAt := at)];
      }
    }
  }

  // ----- runs of the registry

  /** The current session per agent, and every id ever issued, across controller restarts. */
  datatype State = State(current: map<AgentKey, SessionId>, issued: set<SessionId>)

  /** Heartbeats may carry any session, however old. */
  datatype Event =
    | Registered(agent: AgentKey, id: SessionId)
    | Beat(agent: AgentKey, id: SessionId)
    | Restarted

  ghost predicate Enabled(s: State, event: Event) {
    event.Registered? ==> event.id !in s.issued
  }

  function Apply(s: State, event: Event): State {
    match event
    case Registered(agent, id) => State(s.current[agent := id], s.issued + {id})
    case Beat(agent, id) => s
    case Restarted => s.(current := map[])
  }

  predicate Accepts(s: State, agent: AgentKey, id: SessionId) {
    agent in s.current && s.current[agent] == id
  }

  ghost predicate IsCurrent(s: State, id: SessionId) {
    exists agent :: Accepts(s, agent, id)
  }

  ghost predicate IsRun(states: seq<State>, events: seq<Event>) {
    && |states| == |events| + 1 && states[0] == State(map[], {})
    && forall k :: 0 <= k < |events| ==> Enabled(states[k], events[k]) && states[k + 1] == Apply(states[k], events[k])
  }

  /** Current sessions were issued, each to one agent only. */
  lemma {:induction false} CurrentSessionsAreOwned(states: seq<State>, events: seq<Event>, k: nat)
    requires IsRun(states, events) && k < |states|
    ensures forall agent :: agent in states[k].current ==> states[k].current[agent] in states[k].issued
    ensures forall a, b, id :: Accepts(states[k], a, id) && Accepts(states[k], b, id) ==> a == b
    decreases k
  {
    if k > 0 {
      CurrentSessionsAreOwned(states, events, k - 1);
      var before, event, after := states[k - 1], events[k - 1], states[k];
      assert states[k - 1 + 1] == Apply(before, event) && Enabled(before, event);
      forall a, b, id | Accepts(after, a, id) && Accepts(after, b, id) ensures a == b {
        assert !event.Registered? || a != event.agent ==> Accepts(before, a, id);
        assert !event.Registered? || b != event.agent ==> Accepts(before, b, id);
      }
    }
  }

  /** In every run, a session that was issued and is no longer current is never accepted again. */
  lemma {:induction false} SupersededStaysOut(
    states: seq<State>, events: seq<Event>, i: nat, j: nat, agent: AgentKey, id: SessionId)
    requires IsRun(states, events) && i <= j < |states|
    requires id in states[i].issued && !IsCurrent(states[i], id)
    ensures id in states[j].issued && !IsCurrent(states[j], id) && !Accepts(states[j], agent, id)
    decreases j
  {
    if i < j {
      SupersededStaysOut(states, events, i, j - 1, agent, id);
      var before, event := states[j - 1], events[j - 1];
      assert states[j - 1 + 1] == Apply(before, event) && Enabled(before, event);
      forall a ensures !Accepts(states[j], a, id) {
        assert !Accepts(before, a, id);
      }
    }
  }

  /** Registering again, or a controller restart, supersedes the session an agent had. */
  lemma ReplacedIsSuperseded(states: seq<State>, events: seq<Event>, k: nat, agent: AgentKey, id: SessionId)
    requires IsRun(states, events) && k < |events|
    requires Accepts(states[k], agent, id)
    requires events[k].Restarted? || (events[k].Registered? && events[k].agent == agent)
    ensures id in states[k + 1].issued && !IsCurrent(states[k + 1], id)
  {
    CurrentSessionsAreOwned(states, events, k);
    var after := states[k + 1];
    assert after == Apply(states[k], events[k]) && Enabled(states[k], events[k]);
    forall a ensures !Accepts(after, a, id) {
      if Accepts(states[k], a, id) {
        assert a == agent;
      }
    }
  }

  // ----- identities

  /**
    Two hosts share an identity only when one environment name runs on, past a separator, into the
    other's host name.
   */
  lemma SharedIdentity(e1: string, h1: string, e2: string, h2: string)
    requires |e1| <= |e2|
    ensures KeyFor(e1, h1) == KeyFor(e2, h2) <==>
      (e1 == e2 && h1 == h2) ||
      (|e1| < |e2| && e2[..|e1|] == e1 && e2[|e1|] == SEPARATOR && h1 == e2[|e1| + 1..] + [SEPARATOR] + h2)
  {
    var k1, k2 := KeyFor(e1, h1), KeyFor(e2, h2);
    if k1 == k2 {
      assert e1 == k1[..|e1|] && h1 == k1[|e1| + 1..];
      assert e2 == k2[..|e2|] && h2 == k2[|e2| + 1..];
      if |e1| < |e2| {
        assert k2[|e1|] == SEPARATOR && k2[|e2|] == SEPARATOR;
        assert h1 == k2[|e1| + 1..|e2|] + [SEPARATOR] + k2[|e2| + 1..];
      }
    }
    if |e1| < |e2| && e2[..|e1|] == e1 && e2[|e1|] == SEPARATOR && h1 == e2[|e1| + 1..] + [SEPARATOR] + h2 {
      assert e2 == e1 + [SEPARATOR] + e2[|e1| + 1..];
      assert k1 == e1 + [SEPARATOR] + (e2[|e1| + 1..] + [SEPARATOR] + h2);
    }
  }

  /** Environment names without the separator keep all hosts apart. */
  lemma IdentitiesAreDistinct(e1: string, h1: string, e2: string, h2: string)
    requires SEPARATOR !in e1 && SEPARATOR !in e2
    ensures KeyFor(e1, h1) == KeyFor(e2, h2) <==> e1 == e2 && h1 == h2
  {
    if |e1| <= |e2| {
      SharedIdentity(e1, h1, e2, h2);
    } else {
      SharedIdentity(e2, h2, e1, h1);
    }
  }
}
