/** Runtime sessions of embodied bodies: registered, refreshed, disconnected, and gated
    by the session id issued last. */
module EmbodimentSessions {
  import opened Text

  datatype Body = Body(id: string, agent: Option<string>, capabilities: set<string>)

  datatype RuntimeSession = RuntimeSession(
    embodiment: string, sessionId: string, online: bool,
    connectedAt: int, lastSeen: int, available: set<string>)

  /** One measured estimate of where a body is, or its explicit absence. */
  datatype Telemetry = Telemetry(embodiment: string, space: Option<string>, measuredAt: int, estimate: Option<string>)

  /** The presence store: registered bodies and spaces, and the current sample of each body. */
  datatype Presence = Presence(bodies: set<string>, spaces: set<string>, current: map<string, Telemetry>)

  /** The catalog of resolved records with the agents it knows, the connection table and the
      presence store. */
  datatype State = State(
    records: map<string, Body>, agents: set<string>,
    sessions: map<string, RuntimeSession>, sequence: nat, presence: Presence)

  /** The capability list a client sends: absent, a list of names, or something else. */
  datatype Offer = Unstated | Names(names: set<string>) | NotNames

  /** A timestamp with an offset, or one without. */
  datatype Clock = At(time: int) | Naive

  /** What arrives as a telemetry sample: nothing that can be read, or a sample. */
  datatype Sample = Malformed | Parsed(telemetry: Telemetry)

  datatype Error =
    | UnknownEmbodiment | SessionOffline | StaleSession
    | InvalidCapabilities | CapabilityNotConfigured
    | InvalidTime | MalformedTelemetry | UnknownSpace | ConflictingSample
    | DuplicateEmbodiment | UnknownAgent

  datatype Outcome = Noted | Done(disposition: string, session: RuntimeSession) | Rejected(error: Error)

  datatype Call =
    | NoteResolved(body: Body)
    | Register(id: string, offer: Offer, now: Clock)
    | UpdateCapabilities(id: string, offer: Offer, sid: Option<string>, now: Clock)
    | Heartbeat(id: string, sid: Option<string>, now: Clock)
    | Disconnect(id: string, sid: Option<string>, now: Clock)
    | SubmitTelemetry(sample: Sample, sid: Option<string>, now: Clock)

  function SessionId(instance: string, n: nat): string {
    "runtime-session:" + instance + ":" + Decimal(n)
  }

  lemma SessionIdInjective(instance: string, m: nat, n: nat)
    requires SessionId(instance, m) == SessionId(instance, n)
    ensures m == n
  {
    var prefix := "runtime-session:" + instance + ":";
    assert Decimal(m) == SessionId(instance, m)[|prefix|..];
    assert Decimal(n) == SessionId(instance, n)[|prefix|..];
    DecimalRoundTrip(m);
    DecimalRoundTrip(n);
  }

  // ---- What each call does ----

  /** The offered capabilities, if they are configured on the body. */
  function Subset(body: Body, offer: Offer): Result<set<string>, Error> {
    match offer
    case Unstated => Ok(body.capabilities)
    case NotNames => Err(InvalidCapabilities)
    case Names(names) => if names <= body.capabilities then Ok(names) else Err(CapabilityNotConfigured)
  }

  /** The error of a session id that does not pass, if any. */
  function Current(s: State, id: string, sid: Option<string>, allowOffline: bool): Option<Error> {
    if id !in s.sessions || (!s.sessions[id].online && !allowOffline) then Some(SessionOffline)
    else if sid != Some(s.sessions[id].sessionId) then Some(StaleSession)
    else None
  }

  /** `_require_known` and `_require_current`: the error that stops a gated call, if any. */
  function Gate(s: State, id: string, sid: Option<string>, allowOffline: bool): Option<Error> {
    if id !in s.records then Some(UnknownEmbodiment) else Current(s, id, sid, allowOffline)
  }

  /** The agents known once `body` has been read. */
  function AgentsWith(agents: set<string>, body: Body): set<string> {
    if body.agent.Some? then agents + {body.agent.value} else agents
  }

  /** Admission of a sample: a newer one replaces the current one, an older one is ignored, and a
      different one of the same time is refused. */
  function Admit(p: Presence, t: Telemetry): (Presence, Result<string, Error>) {
    if t.embodiment !in p.bodies then (p, Err(UnknownEmbodiment))
    else if t.space.Some? && t.space.value !in p.spaces then (p, Err(UnknownSpace))
    else if t.embodiment !in p.current || p.current[t.embodiment].measuredAt < t.measuredAt
    then (p.(current := p.current[t.embodiment := t]), Ok("accepted"))
    else if t == p.current[t.embodiment] then (p, Ok("duplicate"))
    else if t.measuredAt == p.current[t.embodiment].measuredAt then (p, Err(ConflictingSample))
    else (p, Ok("ignored"))
  }

  function Put(s: State, id: string, session: RuntimeSession, disposition: string): (State, Outcome) {
    (s.(sessions := s.sessions[id := session]), Done(disposition, session))
  }

  function Step(instance: string, s: State, call: Call): (State, Outcome) {
    match call
    case NoteResolved(body) =>
      var presence := s.presence.(bodies := s.presence.bodies + {body.id});
      (s.(records := s.records[body.id := body], agents := AgentsWith(s.agents, body), presence := presence), Noted)
    case Register(id, offer, now) =>
      if id !in s.records then (s, Rejected(UnknownEmbodiment))
      else
        var active := Subset(s.records[id], offer);
        if active.Err? then (s, Rejected(active.error))
        else if now.Naive? then (s, Rejected(InvalidTime))
        else
          var replaced := id in s.sessions && s.sessions[id].online;
          var session := RuntimeSession(
            id, SessionId(instance, s.sequence + 1), true, now.time, now.time, active.value);
          Put(s.(sequence := s.sequence + 1), id, session, if replaced then "replaced" else "connected")
    case UpdateCapabilities(id, offer, sid, now) =>
      var gate := Gate(s, id, sid, false);
      if gate.Some? then (s, Rejected(gate.value))
      else
        var active := Subset(s.records[id], offer);
        if active.Err? then (s, Rejected(active.error))
        else if now.Naive? then (s, Rejected(InvalidTime))
        else Put(s, id, s.sessions[id].(lastSeen := now.time, available := active.value), "capabilities")
    case Heartbeat(id, sid, now) =>
      var gate := Gate(s, id, sid, false);
      if gate.Some? then (s, Rejected(gate.value))
      else if now.Naive? then (s, Rejected(InvalidTime))
      else Put(s, id, s.sessions[id].(lastSeen := now.time), "heartbeat")
    case Disconnect(id, sid, now) =>
      var gate := Gate(s, id, sid, true);
      if gate.Some? then (s, Rejected(gate.value))
      else if now.Naive? then (s, Rejected(InvalidTime))
      else if !s.sessions[id].online then (s, Done("disconnected", s.sessions[id]))
      else Put(s, id, s.sessions[id].(online := false, lastSeen := now.time, available := {}), "disconnected")
    case SubmitTelemetry(sample, sid, now) =>
      if sample.Malformed? then (s, Rejected(MalformedTelemetry))
      else
        var id := sample.telemetry.embodiment;
        var gate := Gate(s, id, sid, false);
        if gate.Some? then (s, Rejected(gate.value))
        else if now.Naive? then (s, Rejected(InvalidTime))
        else
          var (presence, admission) := Admit(s.presence, sample.telemetry);
          if admission.Err? then (s, Rejected(admission.error))
          else Put(s.(presence := presence), id, s.sessions[id].(lastSeen := now.time), admission.value)
  }

  // ---- The objects ----

  /** Records that can be catalogued: no id twice, and no controlling agent that is unknown. */
  ghost predicate Catalogued(bodies: seq<Body>, agents: set<string>) {
    && (forall i, j | 0 <= i < j < |bodies| :: bodies[i].id != bodies[j].id)
    && forall i | 0 <= i < |bodies| :: bodies[i].agent.Some? ==> bodies[i].agent.value in agents
  }

  /** The first record that cannot be catalogued, and why. */
  ghost predicate StopsAt(bodies: seq<Body>, agents: set<string>, n: nat, error: Error)
    requires n < |bodies|
  {
    && Catalogued(bodies[..n], agents) && !Catalogued(bodies[..n + 1], agents)
    && error == if exists i | 0 <= i < n :: bodies[i].id == bodies[n].id then DuplicateEmbodiment else UnknownAgent
  }

  /** The records under their ids, or the error of the first one that cannot be catalogued. */
  method Catalogue(bodies: seq<Body>, agents: set<string>) returns (r: Result<map<string, Body>, Error>)
    ensures r.Ok? <==> Catalogued(bodies, agents)
    ensures r.Ok? ==> forall id :: id in r.value <==> exists i :: 0 <= i < |bodies| && bodies[i].id == id
    ensures r.Ok? ==> Linked(r.value, agents) && forall i | 0 <= i < |bodies| :: r.value[bodies[i].id] == bodies[i]
    ensures r.Err? ==> exists n | 0 <= n < |bodies| :: StopsAt(bodies, agents, n, r.error)
  {
    var records: map<string, Body> := map[];
    for n := 0 to |bodies|
      invariant Catalogued(bodies[..n], agents)
      invariant forall id :: id in records <==> exists i :: 0 <= i < n && bodies[i].id == id
      invariant forall i | 0 <= i < n :: records[bodies[i].id] == bodies[i]
    {
      assert bodies[..n + 1] == bodies[..n] + [bodies[n]];
      if bodies[n].id in records {
        assert StopsAt(bodies, agents, n, DuplicateEmbodiment);
        return Err(DuplicateEmbodiment);
      }
      if bodies[n].agent.Some? && bodies[n].agent.value !in agents {
        assert StopsAt(bodies, agents, n, UnknownAgent);
        return Err(UnknownAgent);
      }
      records := records[bodies[n].id := bodies[n]];
    }
    assert bodies[..|bodies|] == bodies;
    r := Ok(records);
  }

  class EmbodimentCatalog {
    var records: map<string, Body>
    var knownAgents: set<string>

    constructor (records: map<string, Body>, knownAgents: set<string>)
      ensures this.records == records && this.knownAgents == knownAgents
    {
      this.records, this.knownAgents := records, knownAgents;
    }

    method CacheResolved(body: Body)
      modifies this
      ensures records == old(records)[body.id := body]
      ensures knownAgents == AgentsWith(old(knownAgents), body)
    {
      if body.agent.Some? {
        knownAgents := knownAgents + {body.agent.value};
      }
      records := records[body.id := body];
    }
  }

  class EmbodimentPresence {
    var bodies: set<string>
    var spaces: set<string>
    var current: map<string, Telemetry>

    function Now(): Presence
      reads this
    {
      Presence(bodies, spaces, current)
    }

    constructor (bodies: set<string>, spaces: set<string>)
      ensures Now() == Presence(bodies, spaces, map[])
    {
      this.bodies, this.spaces, current := bodies, spaces, map[];
    }

    method RegisterEmbodiment(id: string)
      modifies this
      ensures Now() == old(Now()).(bodies := old(bodies) + {id})
    {
      bodies := bodies + {id};
    }

    method Submit(sample: Telemetry, now: Clock) returns (r: Result<string, Error>)
      modifies this
      ensures now.Naive? ==> r == Err(InvalidTime) && Now() == old(Now())
      ensures now.At? ==> (Now(), r) == Admit(old(Now()), sample)
    {
      if now.Naive? {
        return Err(InvalidTime);
      }
      var id := sample.embodiment;
      if id !in bodies {
        return Err(UnknownEmbodiment);
      }
      if sample.space.Some? && sample.space.value !in spaces {
        return Err(UnknownSpace);
      }
      if id !in current || sample.measuredAt > current[id].measuredAt {
        current := current[id := sample];
        r := Ok("accepted");
      } else if sample == current[id] {
        r := Ok("duplicate");
      } else if sample.measuredAt == current[id].measuredAt {
        r := Err(ConflictingSample);
      } else {
        r := Ok("ignored");
      }
    }
  }

  class EmbodimentConnections {
    const catalog: EmbodimentCatalog
    const instance: string
    var sessions: map<string, RuntimeSession>
    var sequence: nat

    /** The state with what the presence store holds. */
    function With(presence: Presence): State
      reads this, catalog
    {
      State(catalog.records, catalog.knownAgents, sessions, sequence, presence)
    }

    constructor (catalog: EmbodimentCatalog, instance: string)
      ensures this.catalog == catalog && this.instance == instance
      ensures sessions == map[] && sequence == 0
    {
      this.catalog, this.instance := catalog, instance;
      sessions, sequence := map[], 0;
    }

    /** Connecting a body that is online already gives it a new session in place of the old. */
    method Connect(id: string, offer: Offer, now: Clock) returns (out: Outcome)
      modifies this
      ensures forall p :: (With(p), out) == Step(instance, old(With(p)), Register(id, offer, now))
    {
      if id !in catalog.records {
        return Rejected(UnknownEmbodiment);
      }
      var active := Subset(catalog.records[id], offer);
      if active.Err? {
        return Rejected(active.error);
      }
      if now.Naive? {
        return Rejected(InvalidTime);
      }
      var disposition := if id in sessions && sessions[id].online then "replaced" else "connected";
      sequence := sequence + 1;
      var session := RuntimeSession(id, SessionId(instance, sequence), true, now.time, now.time, active.value);
      sessions := sessions[id := session];
      out := Done(disposition, session);
    }

    /** Refresh an online session, keeping its capabilities unless new ones are given. */
    method Touch(id: string, now: Clock, disposition: string, available: Option<set<string>>) returns (out: Outcome)
      modifies this
      ensures sequence == old(sequence)
      ensures now.At? && id in old(sessions) && old(sessions)[id].online ==>
                var previous := old(sessions)[id];
                var session := previous.(lastSeen := now.time,
                  available := if available.Some? then available.value else previous.available);
                out == Done(disposition, session) && sessions == old(sessions)[id := session]
      ensures !(now.At? && id in old(sessions) && old(sessions)[id].online) ==>
                && sessions == old(sessions)
                && out == Rejected(if now.Naive? then InvalidTime else SessionOffline)
    {
      if now.Naive? {
        return Rejected(InvalidTime);
      }
      if id !in sessions || !sessions[id].online {
        return Rejected(SessionOffline);
      }
      var previous := sessions[id];
      var session := previous.(lastSeen := now.time,
        available := if available.Some? then available.value else previous.available);
      sessions := sessions[id := session];
      out := Done(disposition, session);
    }

    /** Disconnecting, which the table allows whatever the session id. */
    method Close(id: string, now: Clock) returns (out: Outcome)
      modifies this
      ensures sequence == old(sequence)
      ensures id !in catalog.records ==> out == Rejected(UnknownEmbodiment)
      ensures id in catalog.records && now.Naive? ==> out == Rejected(InvalidTime)
      ensures id in catalog.records && now.At? && id !in old(sessions) ==> out == Rejected(SessionOffline)
      ensures out.Rejected? <==> id !in catalog.records || now.Naive? || id !in old(sessions)
      ensures out.Rejected? ==> sessions == old(sessions)
      ensures !out.Rejected? ==> forall p ::
        (With(p), out)
          == Step(instance, old(With(p)), Disconnect(id, Some(old(sessions)[id].sessionId), now))
    {
      if id !in catalog.records {
        return Rejected(UnknownEmbodiment);
      }
      if now.Naive? {
        return Rejected(InvalidTime);
      }
      if id !in sessions {
        return Rejected(SessionOffline);
      }
      var previous := sessions[id];
      if !previous.online {
        return Done("disconnected", previous);
      }
      var session := previous.(online := false, lastSeen := now.time, available := {});
      sessions := sessions[id := session];
      out := Done("disconnected", session);
    }

    function IsConnected(id: string): bool
      reads this
    {
      id in sessions && sessions[id].online
    }

    function ActiveCapabilities(id: string): set<string>
      reads this
    {
      if id in sessions && sessions[id].online then sessions[id].available else {}
    }
  }

  /** The client protocol. Every method does exactly what `Step` says of its call. */
  class EmbodimentSession {
    const connections: EmbodimentConnections
    const presence: EmbodimentPresence

    function Now(): State
      reads connections, connections.catalog, presence
    {
      connections.With(presence.Now())
    }

    constructor (connections: EmbodimentConnections, presence: EmbodimentPresence)
      ensures this.connections == connections && this.presence == presence
    {
      this.connections, this.presence := connections, presence;
    }

    method RequireCurrent(id: string, sid: Option<string>, allowOffline: bool) returns (error: Option<Error>)
      ensures error == Current(Now(), id, sid, allowOffline)
    {
      if id !in connections.sessions || (!connections.sessions[id].online && !allowOffline) {
        return Some(SessionOffline);
      }
      if sid != Some(connections.sessions[id].sessionId) {
        return Some(StaleSession);
      }
      return None;
    }

    method NoteResolved(body: Body)
      modifies connections.catalog, presence
      ensures (Now(), Noted) == Step(connections.instance, old(Now()), Call.NoteResolved(body))
    {
      connections.catalog.CacheResolved(body);
      presence.RegisterEmbodiment(body.id);
    }

    method Register(id: string, offer: Offer, now: Clock) returns (out: Outcome)
      modifies connections
      ensures (Now(), out) == Step(connections.instance, old(Now()), Call.Register(id, offer, now))
    {
      if id !in connections.catalog.records {
        return Rejected(UnknownEmbodiment);
      }
      out := connections.Connect(id, offer, now);
    }

    method UpdateCapabilities(id: string, offer: Offer, sid: Option<string>, now: Clock) returns (out: Outcome)
      modifies connections
      ensures (Now(), out) == Step(connections.instance, old(Now()), Call.UpdateCapabilities(id, offer, sid, now))
    {
      if id !in connections.catalog.records {
        return Rejected(UnknownEmbodiment);
      }
      var error := RequireCurrent(id, sid, false);
      if error.Some? {
        return Rejected(error.value);
      }
      var active := Subset(connections.catalog.records[id], offer);
      if active.Err? {
        return Rejected(active.error);
      }
      out := connections.Touch(id, now, "capabilities", Some(active.value));
    }

    method Heartbeat(id: string, sid: Option<string>, now: Clock) returns (out: Outcome)
      modifies connections
      ensures (Now(), out) == Step(connections.instance, old(Now()), Call.Heartbeat(id, sid, now))
    {
      if id !in connections.catalog.records {
        return Rejected(UnknownEmbodiment);
      }
      var error := RequireCurrent(id, sid, false);
      if error.Some? {
        return Rejected(error.value);
      }
      out := connections.Touch(id, now, "heartbeat", None);
    }

    method Disconnect(id: string, sid: Option<string>, now: Clock) returns (out: Outcome)
      modifies connections
      ensures (Now(), out) == Step(connections.instance, old(Now()), Call.Disconnect(id, sid, now))
    {
      if id !in connections.catalog.records {
        return Rejected(UnknownEmbodiment);
      }
      var error := RequireCurrent(id, sid, true);
      if error.Some? {
        return Rejected(error.value);
      }
      out := connections.Close(id, now);
    }

    method SubmitTelemetry(sample: Sample, sid: Option<string>, now: Clock) returns (out: Outcome)
      modifies connections, presence
      ensures (Now(), out) == Step(connections.instance, old(Now()), Call.SubmitTelemetry(sample, sid, now))
    {
      if sample.Malformed? {
        return Rejected(MalformedTelemetry);
      }
      var id := sample.telemetry.embodiment;
      if id !in connections.catalog.records {
        return Rejected(UnknownEmbodiment);
      }
      var error := RequireCurrent(id, sid, false);
      if error.Some? {
        return Rejected(error.value);
      }
      var admission := presence.Submit(sample.telemetry, now);
      if admission.Err? {
        return Rejected(admission.error);
      }
      out := connections.Touch(id, now, "heartbeat", None);
      out := Done(admission.value, out.session);
    }
  }

  // ---- Runs ----

  /** What a process starts with: the records and agents read, and the registered spaces. */
  datatype Setup = Setup(records: map<string, Body>, agents: set<string>, spaces: set<string>)

  function Begin(setup: Setup): State {
    State(setup.records, setup.agents, map[], 0, Presence(setup.records.Keys, setup.spaces, map[]))
  }

  /** The state after a list of calls, starting with nobody connected. */
  function Run(instance: string, setup: Setup, calls: seq<Call>): State {
    if calls == [] then Begin(setup)
    else Step(instance, Run(instance, setup, calls[..|calls| - 1]), calls[|calls| - 1]).0
  }

  /** What the last call of a non-empty list returns. */
  function LastOutcome(instance: string, setup: Setup, calls: seq<Call>): Outcome
    requires calls != []
  {
    Step(instance, Run(instance, setup, calls[..|calls| - 1]), calls[|calls| - 1]).1
  }

  function OutcomeOf(instance: string, setup: Setup, calls: seq<Call>, i: nat): Outcome
    requires i < |calls|
  {
    LastOutcome(instance, setup, calls[..i + 1])
  }

  /** The body a call is about, unless its telemetry cannot be read. */
  function Target(call: Call): Option<string> {
    match call
    case NoteResolved(body) => Some(body.id)
    case SubmitTelemetry(sample, _, _) => if sample.Malformed? then None else Some(sample.telemetry.embodiment)
    case _ => Some(call.id)
  }

  /** The session id issued last for `id`, read off the history of calls and replies. */
  ghost function LastIssued(instance: string, setup: Setup, calls: seq<Call>,
      id: string): Option<string> {
    if calls == [] then None
    else
      var last, out := calls[|calls| - 1], LastOutcome(instance, setup, calls);
      if last.Register? && last.id == id && out.Done? then Some(out.session.sessionId)
      else LastIssued(instance, setup, calls[..|calls| - 1], id)
  }

  /** Registered, with no accepted disconnect since. */
  ghost predicate Connected(instance: string, setup: Setup, calls: seq<Call>, id: string) {
    calls != [] &&
    var last, out := calls[|calls| - 1], LastOutcome(instance, setup, calls);
    if last.Register? && last.id == id && out.Done? then true
    else if last.Disconnect? && last.id == id && out.Done? then false
    else Connected(instance, setup, calls[..|calls| - 1], id)
  }

  /** The record of `id` read last: at the start or since. */
  ghost function RecordOf(setup: Setup, calls: seq<Call>, id: string): Option<Body> {
    if calls == [] then if id in setup.records then Some(setup.records[id]) else None
    else
      var last := calls[|calls| - 1];
      if last.NoteResolved? && last.body.id == id then Some(last.body)
      else RecordOf(setup, calls[..|calls| - 1], id)
  }

  lemma StepRecords(instance: string, s: State, call: Call)
    ensures var t := Step(instance, s, call).0;
      if call.NoteResolved? then
        && t.records == s.records[call.body.id := call.body]
        && t.agents == if call.body.agent.Some? then s.agents + {call.body.agent.value} else s.agents
      else t.records == s.records && t.agents == s.agents
  {
    hide SessionId, Subset, Gate, Admit;
  }

  /** Over every run, the catalog holds the records read last, and knows the agents it started with
      and those of the records read since. */
  lemma {:induction false} RecordsAreLastRead(instance: string, setup: Setup, calls: seq<Call>, id: string,
      agent: string)
    ensures var s := Run(instance, setup, calls);
      && (id in s.records <==> RecordOf(setup, calls, id).Some?)
      && (id in s.records ==> RecordOf(setup, calls, id) == Some(s.records[id]))
      && (agent in s.agents <==>
            || agent in setup.agents
            || exists i :: 0 <= i < |calls| && calls[i].NoteResolved? && calls[i].body.agent == Some(agent))
  {
    hide Step;
    if calls != [] {
      var before, last := calls[..|calls| - 1], calls[|calls| - 1];
      RecordsAreLastRead(instance, setup, before, id, agent);
      StepRecords(instance, Run(instance, setup, before), last);
      assert forall i | 0 <= i < |before| :: before[i] == calls[i];
    }
  }

  /** What an offer asks for: the names in it, or all configured capabilities if it states none. */
  ghost function Asked(record: Body, offer: Offer): set<string> {
    if offer.Names? then offer.names else record.capabilities
  }

  /** The capabilities granted by the last accepted register or update of `id`: those it asked for;
      none once it disconnected. */
  ghost function Granted(instance: string, setup: Setup, calls: seq<Call>, id: string): set<string> {
    if calls == [] then {}
    else
      var last, out := calls[|calls| - 1], LastOutcome(instance, setup, calls);
      var before := calls[..|calls| - 1];
      if (last.Register? || last.UpdateCapabilities?) && last.id == id && out.Done?
      then if RecordOf(setup, before, id).Some? then Asked(RecordOf(setup, before, id).value, last.offer) else {}
      else if last.Disconnect? && last.id == id && out.Done? then {}
      else Granted(instance, setup, before, id)
  }

  /** A rejected call changes nothing, and an accepted one touches only its own body. */
  lemma StepFrame(instance: string, s: State, call: Call, id: string)
    ensures var (t, out) := Step(instance, s, call);
      && (out.Rejected? ==> t == s)
      && (Target(call) != Some(id) || call.NoteResolved? ==>
            && (id in t.sessions <==> id in s.sessions) && (id in s.sessions ==> t.sessions[id] == s.sessions[id])
            && (id in t.presence.current <==> id in s.presence.current)
            && (id in s.presence.current ==> t.presence.current[id] == s.presence.current[id]))
      && (!call.NoteResolved? ==> t.records == s.records)
  {
  }

  /** Over every run, a body has a session exactly when an id was issued for it, and the
      session carries the id issued last. */
  lemma {:induction false} SessionIsLastIssued(instance: string, setup: Setup, calls: seq<Call>,
      id: string)
    ensures var s, issued := Run(instance, setup, calls), LastIssued(instance, setup, calls, id);
      && (id in s.sessions <==> issued.Some?)
      && (id in s.sessions ==> s.sessions[id].embodiment == id && issued == Some(s.sessions[id].sessionId))
  {
    hide SessionId, Subset;
    if calls != [] {
      var before, last := calls[..|calls| - 1], calls[|calls| - 1];
      SessionIsLastIssued(instance, setup, before, id);
      StepFrame(instance, Run(instance, setup, before), last, id);
    }
  }

  /** Over every run, a session is online exactly when its body registered and no
      disconnect was accepted since. */
  lemma {:induction false} OnlineIsConnected(instance: string, setup: Setup, calls: seq<Call>, id: string)
    ensures var s := Run(instance, setup, calls);
      Connected(instance, setup, calls, id) <==> id in s.sessions && s.sessions[id].online
  {
    hide SessionId, Subset;
    if calls != [] {
      var before, last := calls[..|calls| - 1], calls[|calls| - 1];
      OnlineIsConnected(instance, setup, before, id);
      StepFrame(instance, Run(instance, setup, before), last, id);
    }
  }

  /** Which calls change what a session advertises. */
  lemma {:induction false} StepGrants(instance: string, s: State, call: Call, id: string)
    ensures var (t, out) := Step(instance, s, call);
      var accepted := (call.Register? || call.UpdateCapabilities? || call.Disconnect?) && call.id == id && out.Done?;
      if accepted && !call.Disconnect? then
        && id in t.sessions && t.sessions[id].online
        && id in s.records && t.sessions[id].available == Asked(s.records[id], call.offer)
      else
        && (id in t.sessions <==> id in s.sessions)
        && (id in s.sessions ==>
              t.sessions[id].available == if accepted && s.sessions[id].online then {} else s.sessions[id].available)
  {
    hide SessionId;
  }

  /** Over every run, a session advertises exactly what was granted last, and nothing
      while it is offline. */
  lemma {:induction false} AdvertisedIsGranted(instance: string, setup: Setup, calls: seq<Call>,
      id: string)
    ensures var s, granted := Run(instance, setup, calls), Granted(instance, setup, calls, id);
      && (id in s.sessions ==> s.sessions[id].available == granted)
      && (!Connected(instance, setup, calls, id) ==> granted == {})
  {
    hide Step;
    if calls != [] {
      var before, last := calls[..|calls| - 1], calls[|calls| - 1];
      AdvertisedIsGranted(instance, setup, before, id);
      OnlineIsConnected(instance, setup, before, id);
      OnlineIsConnected(instance, setup, calls, id);
      RecordsAreLastRead(instance, setup, before, id, "");
      StepGrants(instance, Run(instance, setup, before), last, id);
    }
  }

  /** Which record a session was last checked against; the grant is a subset of its
      capabilities, however the record changes later. */
  ghost function CheckedAgainst(instance: string, setup: Setup, calls: seq<Call>,
      id: string): set<string> {
    if calls == [] then {}
    else
      var last, before := calls[|calls| - 1], calls[..|calls| - 1];
      if (last.Register? || last.UpdateCapabilities?) && last.id == id && LastOutcome(instance, setup, calls).Done?
      then if RecordOf(setup, before, id).Some? then RecordOf(setup, before, id).value.capabilities else {}
      else CheckedAgainst(instance, setup, before, id)
  }

  lemma {:induction false} GrantedIsConfigured(instance: string, setup: Setup, calls: seq<Call>,
      id: string)
    ensures Granted(instance, setup, calls, id) <= CheckedAgainst(instance, setup, calls, id)
  {
    hide SessionId;
    if calls != [] {
      GrantedIsConfigured(instance, setup, calls[..|calls| - 1], id);
      RecordsAreLastRead(instance, setup, calls[..|calls| - 1], id, "");
    }
  }

  /** The number of registrations accepted so far. */
  ghost function Registrations(instance: string, setup: Setup, calls: seq<Call>): nat {
    if calls == [] then 0
    else
      Registrations(instance, setup, calls[..|calls| - 1])
        + (if calls[|calls| - 1].Register? && LastOutcome(instance, setup, calls).Done? then 1 else 0)
  }

  /** The time of the last accepted call of `id` that found it connected or connected it. */
  ghost function LastSeen(instance: string, setup: Setup, calls: seq<Call>, id: string): Option<int> {
    if calls == [] then None
    else
      var last, before := calls[|calls| - 1], calls[..|calls| - 1];
      if !last.NoteResolved? && Target(last) == Some(id) && LastOutcome(instance, setup, calls).Done?
         && (last.Register? || Connected(instance, setup, before, id))
      then if last.now.At? then Some(last.now.time) else None
      else LastSeen(instance, setup, before, id)
  }

  /** The time of the last accepted register of `id`. */
  ghost function ConnectedSince(instance: string, setup: Setup, calls: seq<Call>, id: string): Option<int> {
    if calls == [] then None
    else
      var last := calls[|calls| - 1];
      if last.Register? && last.id == id && LastOutcome(instance, setup, calls).Done?
      then if last.now.At? then Some(last.now.time) else None
      else ConnectedSince(instance, setup, calls[..|calls| - 1], id)
  }

  /** Over every run, the sequence counts the registrations. */
  lemma {:induction false} SequenceCounts(instance: string, setup: Setup, calls: seq<Call>)
    ensures Run(instance, setup, calls).sequence == Registrations(instance, setup, calls)
  {
    hide SessionId, Subset, Gate, Admit;
    if calls != [] {
      SequenceCounts(instance, setup, calls[..|calls| - 1]);
    }
  }

  /** Which calls a session takes its times from. */
  lemma {:induction false} StepTimes(instance: string, s: State, call: Call, id: string)
    requires id in Step(instance, s, call).0.sessions
    ensures var (t, out) := Step(instance, s, call);
      var accepted := !call.NoteResolved? && Target(call) == Some(id) && out.Done?;
      if accepted && call.Register? then
        call.now.At? && t.sessions[id].connectedAt == t.sessions[id].lastSeen == call.now.time
      else
        && id in s.sessions && t.sessions[id].connectedAt == s.sessions[id].connectedAt
        && (accepted && s.sessions[id].online ==> call.now.At? && t.sessions[id].lastSeen == call.now.time)
        && (!(accepted && s.sessions[id].online) ==> t.sessions[id].lastSeen == s.sessions[id].lastSeen)
  {
    hide SessionId, Subset;
  }

  /** Over every run, a session knows when its body last registered and when it was last heard of. */
  lemma {:induction false} TimesAreLast(instance: string, setup: Setup, calls: seq<Call>, id: string)
    ensures var s := Run(instance, setup, calls);
      id in s.sessions ==>
        && LastSeen(instance, setup, calls, id) == Some(s.sessions[id].lastSeen)
        && ConnectedSince(instance, setup, calls, id) == Some(s.sessions[id].connectedAt)
  {
    hide Connected, Step;
    if calls != [] && id in Run(instance, setup, calls).sessions {
      var before, last := calls[..|calls| - 1], calls[|calls| - 1];
      TimesAreLast(instance, setup, before, id);
      OnlineIsConnected(instance, setup, before, id);
      StepTimes(instance, Run(instance, setup, before), last, id);
    }
  }

  // ---- The presence store over runs ----

  /** The samples of `id` that were admitted, read off the history. */
  ghost function Admitted(instance: string, setup: Setup, calls: seq<Call>, id: string): set<Telemetry> {
    if calls == [] then {}
    else
      var last, before := calls[|calls| - 1], Admitted(instance, setup, calls[..|calls| - 1], id);
      if last.SubmitTelemetry? && Target(last) == Some(id) && LastOutcome(instance, setup, calls).Done?
      then before + {last.sample.telemetry} else before
  }

  /** Over every run, every body of the catalog is registered with the presence store, and no space
      is added. */
  lemma {:induction false} PresenceFollowsCatalog(instance: string, setup: Setup, calls: seq<Call>)
    ensures var s := Run(instance, setup, calls);
      s.records.Keys <= s.presence.bodies && s.presence.spaces == setup.spaces
  {
    hide SessionId, Subset;
    if calls != [] {
      PresenceFollowsCatalog(instance, setup, calls[..|calls| - 1]);
    }
  }

  /** `x` is among the samples, and every other one was measured before it. */
  ghost predicate IsNewest(x: Telemetry, samples: set<Telemetry>) {
    x in samples && forall y | y in samples :: y == x || y.measuredAt < x.measuredAt
  }

  /** Over every run, the current sample of a body is the newest one admitted, whatever order they
      came in; no other admitted sample has its time. */
  lemma {:induction false} CurrentIsNewest(instance: string, setup: Setup, calls: seq<Call>, id: string)
    ensures var current, admitted :=
        Run(instance, setup, calls).presence.current, Admitted(instance, setup, calls, id);
      && (id in current <==> admitted != {})
      && (id in current ==> current[id].embodiment == id && IsNewest(current[id], admitted))
  {
    hide SessionId, Subset;
    if calls != [] {
      var before, last := calls[..|calls| - 1], calls[|calls| - 1];
      CurrentIsNewest(instance, setup, before, id);
      StepFrame(instance, Run(instance, setup, before), last, id);
    }
  }

  /** Two runs that admitted the same samples of a body, in whatever order and however often, leave
      the same one current. */
  lemma {:induction false} ArrivalOrderIsIrrelevant(instance: string, setup: Setup, one: seq<Call>, other: seq<Call>,
      id: string)
    requires Admitted(instance, setup, one, id) == Admitted(instance, setup, other, id) != {}
    ensures var a, b := Run(instance, setup, one).presence.current, Run(instance, setup, other).presence.current;
      id in a && id in b && a[id] == b[id]
  {
    hide Run;
    CurrentIsNewest(instance, setup, one, id);
    CurrentIsNewest(instance, setup, other, id);
  }

  /** Every record is kept under its id, and its controlling agent is known. */
  ghost predicate Linked(records: map<string, Body>, agents: set<string>) {
    forall id | id in records ::
      records[id].id == id && (records[id].agent.Some? ==> records[id].agent.value in agents)
  }

  /** A catalogue that could be built is linked, and every run keeps it so. */
  lemma {:induction false} StaysLinked(instance: string, setup: Setup, calls: seq<Call>)
    requires Linked(setup.records, setup.agents)
    ensures var s := Run(instance, setup, calls); Linked(s.records, s.agents)
  {
    hide SessionId, Subset;
    if calls != [] {
      StaysLinked(instance, setup, calls[..|calls| - 1]);
    }
  }

  // ---- Main results over runs ----

  lemma {:induction false} IssuedNumber(instance: string, setup: Setup, calls: seq<Call>)
    ensures calls != [] ==>
      var before, out := Run(instance, setup, calls[..|calls| - 1]), LastOutcome(instance, setup, calls);
      && before.sequence <= Run(instance, setup, calls).sequence
      && (calls[|calls| - 1].Register? && out.Done? ==>
            && out.session.sessionId == SessionId(instance, before.sequence + 1)
            && Run(instance, setup, calls).sequence == before.sequence + 1)
  {
    hide SessionId;
  }

  /** The id of a registration is its number. */
  lemma {:induction false} IssuedIsNumbered(instance: string, setup: Setup, calls: seq<Call>)
    requires calls != [] && calls[|calls| - 1].Register? && LastOutcome(instance, setup, calls).Done?
    ensures LastOutcome(instance, setup, calls).session.sessionId
      == "runtime-session:" + instance + ":" + Decimal(Registrations(instance, setup, calls))
  {
    IssuedNumber(instance, setup, calls);
    SequenceCounts(instance, setup, calls);
  }

  lemma {:induction false} SequenceGrows(instance: string, setup: Setup, calls: seq<Call>, n: nat)
    requires n <= |calls|
    ensures Run(instance, setup, calls[..n]).sequence <= Run(instance, setup, calls).sequence
    decreases |calls|
  {
    if n == |calls| {
      assert calls[..n] == calls;
    } else {
      var before := calls[..|calls| - 1];
      assert before[..n] == calls[..n];
      SequenceGrows(instance, setup, before, n);
      IssuedNumber(instance, setup, calls);
    }
  }

  /** No two registrations of a run, for whatever bodies, are given the same session id. */
  lemma IssuedIdsDistinct(instance: string, setup: Setup, calls: seq<Call>, i: nat, j: nat)
    requires i < j < |calls| && calls[i].Register? && calls[j].Register?
    requires OutcomeOf(instance, setup, calls, i).Done? && OutcomeOf(instance, setup, calls, j).Done?
    ensures OutcomeOf(instance, setup, calls, i).session.sessionId
         != OutcomeOf(instance, setup, calls, j).session.sessionId
  {
    hide SessionId, Run, LastOutcome;
    var first, second := calls[..i + 1], calls[..j + 1];
    IssuedNumber(instance, setup, first);
    IssuedNumber(instance, setup, second);
    assert second[..j] == calls[..j] && calls[..j][..i + 1] == first;
    SequenceGrows(instance, setup, calls[..j], i + 1);
    var m, n := Run(instance, setup, first[..i]).sequence + 1, Run(instance, setup, second[..j]).sequence + 1;
    if SessionId(instance, m) == SessionId(instance, n) {
      SessionIdInjective(instance, m, n);
    }
  }

  /** A list of names that are all configured, or no list at all. */
  ghost predicate MayOffer(record: Option<Body>, offer: Offer) {
    record.Some? && !offer.NotNames? && Asked(record.value, offer) <= record.value.capabilities
  }

  /** When the last call of a run is accepted, in terms of the history alone. A gated call
      needs the id issued last for its body and, but for a disconnect, a live connection. */
  ghost predicate Acceptable(instance: string, setup: Setup, before: seq<Call>, call: Call) {
    match call
    case NoteResolved(_) => true
    case Register(id, offer, now) => MayOffer(RecordOf(setup, before, id), offer) && now.At?
    case UpdateCapabilities(id, offer, sid, now) =>
      && MayOffer(RecordOf(setup, before, id), offer) && Connected(instance, setup, before, id)
      && sid == LastIssued(instance, setup, before, id) && now.At?
    case Heartbeat(id, sid, now) =>
      && RecordOf(setup, before, id).Some? && Connected(instance, setup, before, id)
      && sid == LastIssued(instance, setup, before, id) && now.At?
    case Disconnect(id, sid, now) =>
      RecordOf(setup, before, id).Some? && sid.Some? && sid == LastIssued(instance, setup, before, id) && now.At?
    case SubmitTelemetry(sample, sid, now) =>
      && sample.Parsed?
      && var x := sample.telemetry;
      && RecordOf(setup, before, x.embodiment).Some? && Connected(instance, setup, before, x.embodiment)
      && sid == LastIssued(instance, setup, before, x.embodiment) && now.At?
      && (x.space.Some? ==> x.space.value in setup.spaces)
      && forall y | y in Admitted(instance, setup, before, x.embodiment) && y.measuredAt == x.measuredAt ::
           y == x || exists z | z in Admitted(instance, setup, before, x.embodiment) :: y.measuredAt < z.measuredAt
  }

  lemma {:induction false} AcceptedExactly(instance: string, setup: Setup, before: seq<Call>, call: Call)
    ensures var s := Run(instance, setup, before);
      var (t, out) := Step(instance, s, call);
      && (out.Rejected? <==> !Acceptable(instance, setup, before, call))
      && (out.Rejected? ==> t == s)
  {
    hide SessionId, Run, LastIssued, Connected, Admitted, RecordOf;
    if Target(call).Some? {
      RecordsAreLastRead(instance, setup, before, Target(call).value, "");
      SessionIsLastIssued(instance, setup, before, Target(call).value);
      OnlineIsConnected(instance, setup, before, Target(call).value);
      PresenceFollowsCatalog(instance, setup, before);
      CurrentIsNewest(instance, setup, before, Target(call).value);
    }
  }

  // ---- Replies ----

  /** Why the last call of a run is turned away, in terms of the history alone. */
  ghost predicate TurnedAway(instance: string, setup: Setup, before: seq<Call>, call: Call, error: Error) {
    if call.NoteResolved? then false
    else if call.SubmitTelemetry? && call.sample.Malformed? then error == MalformedTelemetry
    else
      var id := Target(call).value;
      var record := RecordOf(setup, before, id);
      if record.None? then error == UnknownEmbodiment
      else if !call.Register? && LastIssued(instance, setup, before, id).None? then error == SessionOffline
      else if !call.Register? && !call.Disconnect? && !Connected(instance, setup, before, id)
      then error == SessionOffline
      else if !call.Register? && call.sid != LastIssued(instance, setup, before, id) then error == StaleSession
      else if (call.Register? || call.UpdateCapabilities?) && call.offer.NotNames? then error == InvalidCapabilities
      else if (call.Register? || call.UpdateCapabilities?) && !MayOffer(record, call.offer)
      then error == CapabilityNotConfigured
      else if call.now.Naive? then error == InvalidTime
      else
        && call.SubmitTelemetry?
        && var x := call.sample.telemetry;
        if x.space.Some? && x.space.value !in setup.spaces then error == UnknownSpace
        else error == ConflictingSample && Conflicts(x, Admitted(instance, setup, before, id))
  }

  /** Another sample of the same time is the newest one. */
  ghost predicate Conflicts(x: Telemetry, admitted: set<Telemetry>) {
    exists y :: IsNewest(y, admitted) && y.measuredAt == x.measuredAt && y != x
  }

  /** The reply to a rejected call says why, whatever the run. */
  lemma {:induction false} RejectedExactly(instance: string, setup: Setup, before: seq<Call>, call: Call, error: Error)
    ensures Step(instance, Run(instance, setup, before), call).1 == Rejected(error) <==>
      TurnedAway(instance, setup, before, call, error)
  {
    hide SessionId, Run, LastIssued, Connected, Admitted, RecordOf;
    if Target(call).Some? {
      var id := Target(call).value;
      RecordsAreLastRead(instance, setup, before, id, "");
      SessionIsLastIssued(instance, setup, before, id);
      OnlineIsConnected(instance, setup, before, id);
      PresenceFollowsCatalog(instance, setup, before);
      CurrentIsNewest(instance, setup, before, id);
    }
  }

  /** What an accepted call is answered with. */
  ghost predicate IsDisposition(disposition: string, instance: string, setup: Setup, before: seq<Call>, call: Call) {
    match call
    case NoteResolved(_) => false
    case Register(id, _, _) =>
      disposition == if Connected(instance, setup, before, id) then "replaced" else "connected"
    case UpdateCapabilities(_, _, _, _) => disposition == "capabilities"
    case Heartbeat(_, _, _) => disposition == "heartbeat"
    case Disconnect(_, _, _) => disposition == "disconnected"
    case SubmitTelemetry(sample, _, _) =>
      && sample.Parsed?
      && var x := sample.telemetry;
      var admitted := Admitted(instance, setup, before, x.embodiment);
      && (disposition == "accepted" <==> forall y | y in admitted :: y.measuredAt < x.measuredAt)
      && (disposition == "duplicate" <==> IsNewest(x, admitted))
      && (disposition == "ignored" <==> exists y | y in admitted :: x.measuredAt < y.measuredAt)
  }

  /** An accepted call is answered with the session that it leaves behind. */
  lemma {:induction false} RepliesExactly(instance: string, setup: Setup, before: seq<Call>, call: Call)
    ensures var (t, out) := Step(instance, Run(instance, setup, before), call);
      && (out.Noted? <==> call.NoteResolved?)
      && (out.Done? ==>
            && IsDisposition(out.disposition, instance, setup, before, call)
            && Target(call).Some? && Target(call).value in t.sessions && out.session == t.sessions[Target(call).value])
  {
    hide SessionId, Run, LastIssued, Connected, Admitted, RecordOf;
    if Target(call).Some? {
      var id := Target(call).value;
      OnlineIsConnected(instance, setup, before, id);
      CurrentIsNewest(instance, setup, before, id);
    }
  }

  // ---- Physical actions ----

  datatype ActionCode =
    UnknownBody | NotLinked | BodyOffline | Unsupported | CapabilityUnavailable | Available

  /** Gate one physical capability. `body` is the persistent record read now, if any. */
  function ActionAvailability(s: State, body: Option<Body>, agent: string, capability: string): ActionCode {
    if body.None? then UnknownBody
    else if body.value.agent != Some(agent) then NotLinked
    else
      var id := body.value.id;
      if !(id in s.sessions && s.sessions[id].online) then BodyOffline
      else if capability !in body.value.capabilities then Unsupported
      else if capability !in s.sessions[id].available then CapabilityUnavailable
      else Available
  }

  /** The read side: it asks the record it was given and the connection table. */
  class EmbodimentDirectory {
    const connections: EmbodimentConnections

    constructor (connections: EmbodimentConnections)
      ensures this.connections == connections
    {
      this.connections := connections;
    }

    method Availability(body: Option<Body>, agent: string, capability: string) returns (code: ActionCode)
      ensures forall p :: code == ActionAvailability(connections.With(p), body, agent, capability)
    {
      if body.None? {
        return UnknownBody;
      }
      var record := body.value;
      if record.agent != Some(agent) {
        return NotLinked;
      }
      if !connections.IsConnected(record.id) {
        return BodyOffline;
      }
      if capability !in record.capabilities {
        return Unsupported;
      }
      if capability !in connections.ActiveCapabilities(record.id) {
        return CapabilityUnavailable;
      }
      return Available;
    }
  }

  /** Over every run, an action is available exactly when the record read now links the
      body to the agent and configures the capability, and the history left the body
      connected with that capability granted. */
  lemma {:induction false} AvailableExactly(instance: string, setup: Setup, calls: seq<Call>,
                         body: Option<Body>, agent: string, capability: string)
    ensures ActionAvailability(Run(instance, setup, calls), body, agent, capability) == Available <==>
      && body.Some?
      && body.value.agent == Some(agent)
      && capability in body.value.capabilities
      && Connected(instance, setup, calls, body.value.id)
      && capability in Granted(instance, setup, calls, body.value.id)
  {
    if body.Some? {
      OnlineIsConnected(instance, setup, calls, body.value.id);
      AdvertisedIsGranted(instance, setup, calls, body.value.id);
    }
  }

  /** Over every run, the code names the first condition that does not hold. */
  lemma {:induction false} CodeExactly(instance: string, setup: Setup, calls: seq<Call>,
      body: Option<Body>, agent: string, capability: string)
    ensures var code := ActionAvailability(Run(instance, setup, calls), body, agent, capability);
      && (code == UnknownBody <==> body.None?)
      && (code == NotLinked <==> body.Some? && body.value.agent != Some(agent))
      && (body.Some? && body.value.agent == Some(agent) ==>
            var connected := Connected(instance, setup, calls, body.value.id);
            && (code == BodyOffline <==> !connected)
            && (code == Unsupported <==> connected && capability !in body.value.capabilities)
            && (code == CapabilityUnavailable <==>
                  && connected && capability in body.value.capabilities
                  && capability !in Granted(instance, setup, calls, body.value.id)))
  {
    if body.Some? {
      OnlineIsConnected(instance, setup, calls, body.value.id);
      AdvertisedIsGranted(instance, setup, calls, body.value.id);
    }
  }

  /** Between an accepted disconnect and the next accepted register no action of that
      body is available, whatever else happens meanwhile. */
  lemma {:induction false} NothingAfterDisconnect(instance: string, setup: Setup, calls: seq<Call>, d: nat,
      body: Body, agent: string, capability: string)
    requires d < |calls| && calls[d].Disconnect? && calls[d].id == body.id
    requires OutcomeOf(instance, setup, calls, d).Done?
    requires forall i | d < i < |calls| && calls[i].Register? && calls[i].id == body.id ::
               OutcomeOf(instance, setup, calls, i).Rejected?
    ensures ActionAvailability(Run(instance, setup, calls), Some(body), agent, capability) != Available
  {
    StaysDisconnected(instance, setup, calls, d, body.id);
    AvailableExactly(instance, setup, calls, Some(body), agent, capability);
  }

  lemma {:induction false} StaysDisconnected(instance: string, setup: Setup, calls: seq<Call>,
      d: nat, id: string)
    requires d < |calls| && calls[d].Disconnect? && calls[d].id == id
    requires OutcomeOf(instance, setup, calls, d).Done?
    requires forall i | d < i < |calls| && calls[i].Register? && calls[i].id == id ::
               OutcomeOf(instance, setup, calls, i).Rejected?
    ensures !Connected(instance, setup, calls, id)
  {
    hide SessionId, Run;
    var before := calls[..|calls| - 1];
    assert calls[..|calls|] == calls;
    if d < |before| {
      forall i | 0 <= i < |before|
        ensures OutcomeOf(instance, setup, before, i) == OutcomeOf(instance, setup, calls, i)
      {
        assert before[..i + 1] == calls[..i + 1];
      }
      StaysDisconnected(instance, setup, before, d, id);
      assert OutcomeOf(instance, setup, calls, |before|) == LastOutcome(instance, setup, calls);
    } else {
      assert calls[..d + 1] == calls;
    }
  }
}
