/** Persistent bodies and their single assignment edge: writers read, then commit one
    transaction, in any interleaving. */
module EmbodimentAssignments {
  import opened Text
  import opened Utf8Text
  import Base64

  datatype Edge = Edge(body: string, agent: string)

  /** The tables. `edges` is keyed by the key of the edge record. */
  datatype Database = Database(bodies: map<string, string>, agents: set<string>, edges: map<string, Edge>)

  datatype TxError =
    | EmbodimentExists | EmbodimentMissing | AgentMissing
    | MultipleAssignments | AssignmentConflict | EdgeExists

  // ---- The edge record of a body ----

  const TABLE := "embodiment:"

  predicate IsBodyId(id: string) {
    TABLE < id
  }

  /** The key of the assignment edge is a function of the body alone. */
  function EdgeKey(body: string): string
    requires IsBodyId(body)
  {
    var key := body[|TABLE|..];
    if ':' !in key then "embodiment_" + key else "b64_" + Base64.Encode(Utf8(body))
  }

  lemma EdgeKeyInjective(a: string, b: string)
    requires IsBodyId(a) && IsBodyId(b) && EdgeKey(a) == EdgeKey(b)
    ensures a == b
  {
    var key := EdgeKey(a);
    assert a == TABLE + a[|TABLE|..] && b == TABLE + b[|TABLE|..];
    if ':' !in a[|TABLE|..] {
      assert key[0] == 'e';
      assert a[|TABLE|..] == key[|"embodiment_"|..] == b[|TABLE|..];
    } else {
      assert key[0] == 'b';
      assert Base64.Encode(Utf8(a)) == key[4..] == Base64.Encode(Utf8(b));
      Base64.Injective(Utf8(a), Utf8(b));
      Utf8Injective(a, b);
    }
  }

  // ---- Transactions ----

  /** The records that assign `body`. */
  function EdgesOf(db: Database, body: string): set<string> {
    set k | k in db.edges && db.edges[k].body == body
  }

  function WithoutEdgesOf(db: Database, body: string): map<string, Edge> {
    map k | k in db.edges && db.edges[k].body != body :: db.edges[k]
  }

  datatype Op =
    | Create(body: string, content: string)
    | Update(body: string, content: string)
    | Delete(body: string)
    | Assign(body: string, agent: string)
    | Unassign(body: string)

  /** One atomic transaction; an error leaves the tables as they were. */
  function Transaction(db: Database, op: Op): Result<Database, TxError>
    requires IsBodyId(op.body)
  {
    match op
    case Create(body, content) =>
      if body in db.bodies then Err(EmbodimentExists)
      else Ok(db.(bodies := db.bodies[body := content]))
    case Update(body, content) =>
      if body !in db.bodies then Err(EmbodimentMissing)
      else Ok(db.(bodies := db.bodies[body := content]))
    case Delete(body) =>
      if body !in db.bodies then Err(EmbodimentMissing)
      else Ok(db.(edges := WithoutEdgesOf(db, body), bodies := db.bodies - {body}))
    case Assign(body, agent) =>
      if body !in db.bodies then Err(EmbodimentMissing)
      else if agent !in db.agents then Err(AgentMissing)
      else
        var current := EdgesOf(db, body);
        if |current| > 1 then Err(MultipleAssignments)
        else if exists k | k in current :: db.edges[k].agent != agent then Err(AssignmentConflict)
        else if |current| == 1 then Ok(db)
        else if EdgeKey(body) in db.edges then Err(EdgeExists)
        else Ok(db.(edges := db.edges[EdgeKey(body) := Edge(body, agent)]))
    case Unassign(body) =>
      if body !in db.bodies then Err(EmbodimentMissing)
      else Ok(db.(edges := WithoutEdgesOf(db, body)))
  }

  /** Some edge joins `body` to `agent`. */
  ghost predicate Joined(edges: map<string, Edge>, body: string, agent: string) {
    exists k :: k in edges && edges[k] == Edge(body, agent)
  }

  /** `agent` is assigned to `body`. */
  ghost predicate Assigned(db: Database, body: string, agent: string) {
    Joined(db.edges, body, agent)
  }

  /** Every edge stands under the key of its body and joins two existing records. */
  ghost predicate Consistent(db: Database) {
    && (forall b | b in db.bodies :: IsBodyId(b))
    && forall k | k in db.edges ::
         var e := db.edges[k];
         e.body in db.bodies && e.agent in db.agents && k == EdgeKey(e.body)
  }

  /** A body never has two assignments. */
  lemma AtMostOneAssignment(db: Database, body: string, a: string, b: string)
    requires Consistent(db) && Assigned(db, body, a) && Assigned(db, body, b)
    ensures a == b
    ensures |EdgesOf(db, body)| == 1
  {
    var k :| k in db.edges && db.edges[k] == Edge(body, a);
    assert EdgesOf(db, body) == {k};
  }

  lemma TransactionConsistent(db: Database, op: Op)
    requires Consistent(db) && IsBodyId(op.body)
    ensures Transaction(db, op).Ok? ==> Consistent(Transaction(db, op).value)
  {
  }

  /** On consistent tables an assignment fails only for a missing record or another agent. */
  lemma AssignSucceedsExactly(db: Database, body: string, agent: string)
    requires Consistent(db) && IsBodyId(body)
    ensures var r := Transaction(db, Assign(body, agent));
      && (r.Ok? <==> body in db.bodies && agent in db.agents
                     && forall other | other != agent :: !Assigned(db, body, other))
      && (r.Ok? ==> Assigned(r.value, body, agent))
      && (r.Err? ==> r.error.EmbodimentMissing? || r.error.AgentMissing? || r.error.AssignmentConflict?)
  {
    var current := EdgesOf(db, body);
    if exists k :: k in current {
      var k :| k in current;
      assert current == {k};
      assert Assigned(db, body, db.edges[k].agent);
    } else {
      assert |current| == 0;
      if EdgeKey(body) in db.edges {
        EdgeKeyInjective(body, db.edges[EdgeKey(body)].body);
      }
    }
    if body in db.bodies && agent in db.agents && forall other | other != agent :: !Assigned(db, body, other) {
      if exists k :: k in current {
        var k :| k in current;
        assert db.edges[k] == Edge(body, agent);
      } else {
        var r := Transaction(db, Assign(body, agent)).value;
        assert r.edges[EdgeKey(body)] == Edge(body, agent);
      }
    }
  }

  /** What a transaction does to the assignments: it keeps every one except those of a body
      it unassigns or deletes, and it adds at most the one it is asked for. */
  lemma AssignmentEffect(db: Database, op: Op, body: string, agent: string)
    requires Consistent(db) && IsBodyId(op.body) && Transaction(db, op).Ok?
    ensures Assigned(Transaction(db, op).value, body, agent) <==>
      || (Assigned(db, body, agent) && !((op.Unassign? || op.Delete?) && op.body == body))
      || op == Assign(body, agent)
  {
    var after := Transaction(db, op).value;
    if Assigned(db, body, agent) && !((op.Unassign? || op.Delete?) && op.body == body) {
      var k :| k in db.edges && db.edges[k] == Edge(body, agent);
      if op.Assign? && EdgesOf(db, op.body) == {} {
        assert k != EdgeKey(op.body);
      }
      assert k in after.edges && after.edges[k] == Edge(body, agent);
    }
    if op == Assign(body, agent) {
      AssignSucceedsExactly(db, body, agent);
    }
  }

  /** Body `b` exists with content `x`. */
  predicate Holds(db: Database, b: string, x: string) {
    b in db.bodies && db.bodies[b] == x
  }

  /** The operation writes or removes the record of `b`. */
  predicate Rewrites(op: Op, b: string) {
    (op.Create? || op.Update? || op.Delete?) && op.body == b
  }

  /** What a transaction does to the bodies: it keeps every one as it is, except the one it creates,
      updates or deletes; a created or updated one has the content given. The agents stay. */
  lemma RecordEffect(db: Database, op: Op, b: string, x: string)
    requires IsBodyId(op.body) && Transaction(db, op).Ok?
    ensures var after := Transaction(db, op).value;
      && (Holds(after, b, x) <==> op == Create(b, x) || op == Update(b, x) || (Holds(db, b, x) && !Rewrites(op, b)))
      && (b in after.bodies <==> (op.body == b && (op.Create? || op.Update?)) || (b in db.bodies && op != Delete(b)))
      && after.agents == db.agents
  {
  }

  /** Why a transaction fails on consistent tables: a create of a body that exists, anything else for
      one that does not, and an assignment to an unknown agent or beside another one. */
  lemma FailsExactly(db: Database, op: Op)
    requires Consistent(db) && IsBodyId(op.body)
    ensures var r := Transaction(db, op);
      && (r == Err(EmbodimentExists) <==> op.Create? && op.body in db.bodies)
      && (r == Err(EmbodimentMissing) <==> !op.Create? && op.body !in db.bodies)
      && (r == Err(AgentMissing) <==> op.Assign? && op.body in db.bodies && op.agent !in db.agents)
      && (r == Err(AssignmentConflict) <==> op.Assign? && op.body in db.bodies && op.agent in db.agents
                                             && exists a :: a != op.agent && Assigned(db, op.body, a))
      && r != Err(MultipleAssignments) && r != Err(EdgeExists)
  {
    if op.Assign? {
      AssignSucceedsExactly(db, op.body, op.agent);
    }
  }

  // ---- The tables as they are changed in place ----

  class Tables {
    var bodies: map<string, string>
    var agents: set<string>
    var edges: map<string, Edge>

    function Now(): Database
      reads this
    {
      Database(bodies, agents, edges)
    }

    constructor ()
      ensures Consistent(Now()) && bodies == map[] && edges == map[]
    {
      bodies, agents, edges := map[], {}, map[];
    }

    /** Agents are only ever added. */
    method EnsureAgent(agent: string)
      modifies this
      ensures Now() == old(Now()).(agents := old(agents) + {agent})
      ensures old(Consistent(Now())) ==> Consistent(Now())
    {
      if agent !in agents {
        agents := agents + {agent};
      }
      assert agents == old(agents) + {agent};
    }

    /** Commit one transaction. A thrown error rolls everything back. */
    method Commit(op: Op) returns (error: Option<TxError>)
      requires IsBodyId(op.body)
      modifies this
      ensures match Transaction(old(Now()), op)
              case Ok(after) => error.None? && Now() == after
              case Err(e) => error == Some(e) && Now() == old(Now())
      ensures old(Consistent(Now())) ==> Consistent(Now())
    {
      ghost var before := Now();
      if Consistent(before) {
        TransactionConsistent(before, op);
      }
      error := None;
      match op {
        case Create(body, content) =>
          if body in bodies { return Some(EmbodimentExists); }
          bodies := bodies[body := content];
        case Update(body, content) =>
          if body !in bodies { return Some(EmbodimentMissing); }
          bodies := bodies[body := content];
        case Delete(body) =>
          if body !in bodies { return Some(EmbodimentMissing); }
          edges := map k | k in edges && edges[k].body != body :: edges[k];
          bodies := bodies - {body};
        case Assign(body, agent) =>
          if body !in bodies { return Some(EmbodimentMissing); }
          if agent !in agents { return Some(AgentMissing); }
          var current := set k | k in edges && edges[k].body == body;
          assert current == EdgesOf(before, body);
          if |current| > 1 { return Some(MultipleAssignments); }
          if exists k | k in current :: edges[k].agent != agent { return Some(AssignmentConflict); }
          if |current| == 0 {
            if EdgeKey(body) in edges { return Some(EdgeExists); }
            edges := edges[EdgeKey(body) := Edge(body, agent)];
          }
        case Unassign(body) =>
          if body !in bodies { return Some(EmbodimentMissing); }
          edges := map k | k in edges && edges[k].body != body :: edges[k];
      }
    }
  }

  // ---- Listing ----

  datatype Embodied = Embodied(content: string, agent: Option<string>)

  datatype ListError = SeveralAssignments | UnknownEmbodiment

  /** No body has two edges. */
  ghost predicate Once(edges: map<string, Edge>) {
    forall j, k | j in edges && k in edges && edges[j].body == edges[k].body :: j == k
  }

  /** What `list` makes of the rows it read from the two tables. */
  ghost predicate IsListing(nodes: map<string, string>, edges: map<string, Edge>,
      r: Result<map<string, Embodied>, ListError>) {
    match r
    case Ok(listing) =>
      && Once(edges)
      && (forall k | k in edges :: edges[k].body in nodes)
      && listing.Keys == nodes.Keys
      && (forall b | b in nodes :: listing[b].content == nodes[b])
      && (forall b, a | b in nodes :: listing[b].agent == Some(a) <==> Joined(edges, b, a))
    case Err(SeveralAssignments) => !Once(edges)
    case Err(UnknownEmbodiment) => Once(edges) && exists k :: k in edges && edges[k].body !in nodes
  }

  /** `index` holds exactly the edges under `keys`, by body. */
  ghost predicate Indexed(edges: map<string, Edge>, keys: set<string>, index: map<string, string>) {
    && keys <= edges.Keys
    && (forall k | k in keys :: edges[k].body in index && index[edges[k].body] == edges[k].agent)
    && (forall b | b in index :: exists k :: k in keys && edges[k].body == b)
    && (forall j, k | j in keys && k in keys && edges[j].body == edges[k].body :: j == k)
  }

  /** The first loop of `list`, over the edge rows in any order. */
  method IndexByBody(edges: map<string, Edge>) returns (index: Option<map<string, string>>)
    ensures index.None? ==> !Once(edges)
    ensures index.Some? ==> Indexed(edges, edges.Keys, index.value)
  {
    var assignments: map<string, string> := map[];
    var rows := edges.Keys;
    while rows != {}
      invariant rows <= edges.Keys
      invariant Indexed(edges, edges.Keys - rows, assignments)
    {
      var k :| k in rows;
      if edges[k].body in assignments {
        return None;
      }
      assignments := assignments[edges[k].body := edges[k].agent];
      rows := rows - {k};
    }
    assert edges.Keys - rows == edges.Keys;
    return Some(assignments);
  }

  lemma IndexedJoined(edges: map<string, Edge>, index: map<string, string>, b: string, a: string)
    requires Indexed(edges, edges.Keys, index)
    ensures b in index && index[b] == a <==> Joined(edges, b, a)
  {
    if b in index && index[b] == a {
      var k :| k in edges.Keys && edges[k].body == b;
      assert edges[k] == Edge(b, a);
    }
  }

  /** The second loop of `list`: every node row takes its entry out of the index. An entry
      left over belongs to no node. */
  method List(nodes: map<string, string>,
      edges: map<string, Edge>) returns (r: Result<map<string, Embodied>, ListError>)
    ensures IsListing(nodes, edges, r)
  {
    var index := IndexByBody(edges);
    if index.None? {
      return Err(SeveralAssignments);
    }
    var assignments := index.value;
    var bodies: map<string, Embodied> := map[];
    var rows := nodes.Keys;
    while rows != {}
      invariant rows <= nodes.Keys
      invariant bodies.Keys == nodes.Keys - rows
      invariant forall b | b in bodies :: bodies[b].content == nodes[b]
      invariant forall b | b in bodies ::
        bodies[b].agent == if b in index.value then Some(index.value[b]) else None
      invariant assignments == index.value - bodies.Keys
    {
      var id :| id in rows;
      var agent := if id in assignments then Some(assignments[id]) else None;
      bodies := bodies[id := Embodied(nodes[id], agent)];
      assignments := assignments - {id};
      rows := rows - {id};
    }
    assert bodies.Keys == nodes.Keys;
    if assignments != map[] {
      return Err(UnknownEmbodiment);
    }
    forall b, a | b in nodes ensures bodies[b].agent == Some(a) <==> Joined(edges, b, a) {
      IndexedJoined(edges, index.value, b, a);
    }
    r := Ok(bodies);
  }

  /** On consistent tables, rows read at two different moments can be listed exactly when
      every body assigned at the second moment already existed at the first. */
  lemma ListableExactly(first: Database, second: Database, r: Result<map<string, Embodied>, ListError>)
    requires Consistent(second) && IsListing(first.bodies, second.edges, r)
    ensures r.Ok? <==> forall b, a | Assigned(second, b, a) :: b in first.bodies
    ensures r.Err? ==> r.error.UnknownEmbodiment?
  {
    if r.Ok? {
      forall b, a | Assigned(second, b, a) ensures b in first.bodies {
        var k :| k in second.edges && second.edges[k] == Edge(b, a);
      }
    } else if r.error.UnknownEmbodiment? {
      var k :| k in second.edges && second.edges[k].body !in first.bodies;
      assert Assigned(second, second.edges[k].body, second.edges[k].agent);
    }
  }

  // ---- Writers that read first and commit later ----

  /** How far a writer has come. `Ready` means that every prior read let the operation pass. */
  datatype Phase =
    | Idle
    | Asked(op: Op)
    | SawNodes(op: Op, nodes: map<string, string>)
    | SawBody(op: Op, taken: bool)
    | Ready(op: Op)

  datatype System = System(db: Database, writers: map<nat, Phase>)

  /** One atomic action: of writer `w`, or the registration of an agent. */
  datatype Step =
    | Begin(w: nat, op: Op)
    | ReadNodes(w: nat)
    | ReadEdges(w: nat)
    | ReadAgents(w: nat)
    | Commit(w: nat)
    | AddAgent(agent: string)

  function PhaseOf(s: System, w: nat): Phase {
    if w in s.writers then s.writers[w] else Idle
  }

  function Moved(s: System, w: nat, phase: Phase): System {
    s.(writers := s.writers[w := phase])
  }

  /** What a writer does with the listing of the nodes it read and the edges it reads now:
      a failed listing, or one that does not suit the operation, ends the call. */
  ghost function AfterListing(op: Op, nodes: map<string, string>, edges: map<string, Edge>): Phase
  {
    if !Once(edges) || (exists k :: k in edges && edges[k].body !in nodes) then Idle
    else match op
      case Create(body, _) => if body in nodes then Idle else Ready(op)
      case Update(body, _) => if body in nodes then Ready(op) else Idle
      case Delete(body) => if body in nodes then Ready(op) else Idle
      case Assign(body, _) =>
        if body in nodes then SawBody(op, (exists k :: k in edges && edges[k].body == body)) else Idle
      case Unassign(_) => Idle
  }

  /** A step that does not fit the writer's phase does nothing. */
  ghost function Next(s: System, step: Step): System {
    match step
    case AddAgent(agent) => s.(db := s.db.(agents := s.db.agents + {agent}))
    case Begin(w, op) =>
      if PhaseOf(s, w).Idle? && IsBodyId(op.body)
      then Moved(s, w, if op.Unassign? then Ready(op) else Asked(op)) else s
    case ReadNodes(w) =>
      var phase := PhaseOf(s, w);
      if phase.Asked? then Moved(s, w, SawNodes(phase.op, s.db.bodies)) else s
    case ReadEdges(w) =>
      var phase := PhaseOf(s, w);
      if phase.SawNodes? then Moved(s, w, AfterListing(phase.op, phase.nodes, s.db.edges)) else s
    case ReadAgents(w) =>
      var phase := PhaseOf(s, w);
      if phase.SawBody? && phase.op.Assign?
      then Moved(s, w, if phase.op.agent in s.db.agents && !phase.taken then Ready(phase.op) else Idle)
      else s
    case Commit(w) =>
      var phase := PhaseOf(s, w);
      if phase.Ready? && IsBodyId(phase.op.body) then
        match Transaction(s.db, phase.op)
        case Ok(db) => Moved(s.(db := db), w, Idle)
        case Err(_) => Moved(s, w, Idle)
      else s
  }

  ghost function Run(s: System, steps: seq<Step>): System {
    if steps == [] then s else Next(Run(s, steps[..|steps| - 1]), steps[|steps| - 1])
  }

  /** In `s`, `step` commits `op`, and the transaction goes through. */
  ghost predicate Commits(s: System, step: Step, op: Op) {
    step.Commit? && PhaseOf(s, step.w) == Ready(op) && IsBodyId(op.body) && Transaction(s.db, op).Ok?
  }

  /** A step changes the tables only by the transaction it commits or by adding an agent. */
  lemma NextDatabase(s: System, step: Step)
    ensures var phase := if step.AddAgent? then Idle else PhaseOf(s, step.w);
      if phase.Ready? && Commits(s, step, phase.op) then Next(s, step).db == Transaction(s.db, phase.op).value
      else if step.AddAgent? then Next(s, step).db == s.db.(agents := s.db.agents + {step.agent})
      else Next(s, step).db == s.db
  {
  }

  lemma NextConsistent(s: System, step: Step)
    requires Consistent(s.db)
    ensures Consistent(Next(s, step).db)
  {
    NextDatabase(s, step);
    if !step.AddAgent? && PhaseOf(s, step.w).Ready? && Commits(s, step, PhaseOf(s, step.w).op) {
      TransactionConsistent(s.db, PhaseOf(s, step.w).op);
    }
  }

  /** Safety of every interleaving: whatever the writers read and whenever they commit, every
      edge joins an existing body to an existing agent, and no body has two. */
  lemma {:induction false} RunConsistent(s: System, steps: seq<Step>)
    requires Consistent(s.db)
    ensures Consistent(Run(s, steps).db)
    ensures forall b, x, y | Assigned(Run(s, steps).db, b, x) && Assigned(Run(s, steps).db, b, y) :: x == y
  {
    if steps != [] {
      RunConsistent(s, steps[..|steps| - 1]);
      NextConsistent(Run(s, steps[..|steps| - 1]), steps[|steps| - 1]);
    }
    forall b, x, y | Assigned(Run(s, steps).db, b, x) && Assigned(Run(s, steps).db, b, y) ensures x == y {
      AtMostOneAssignment(Run(s, steps).db, b, x, y);
    }
  }

  /** The effect of one step of any writer on one assignment. */
  lemma StepEffect(s: System, step: Step, b: string, a: string)
    requires Consistent(s.db)
    ensures Assigned(Next(s, step).db, b, a) <==>
      || (Assigned(s.db, b, a) && !Commits(s, step, Unassign(b)) && !Commits(s, step, Delete(b)))
      || Commits(s, step, Assign(b, a))
  {
    NextDatabase(s, step);
    if !step.AddAgent? && PhaseOf(s, step.w).Ready? && Commits(s, step, PhaseOf(s, step.w).op) {
      AssignmentEffect(s.db, PhaseOf(s, step.w).op, b, a);
    }
  }

  /** The effect of one step of any writer on one record. */
  lemma StepRecord(s: System, step: Step, b: string, x: string)
    ensures Holds(Next(s, step).db, b, x) <==>
      || Commits(s, step, Create(b, x)) || Commits(s, step, Update(b, x))
      || (Holds(s.db, b, x) && !(step.Commit? && exists op :: Commits(s, step, op) && Rewrites(op, b)))
  {
    NextDatabase(s, step);
    if !step.AddAgent? && PhaseOf(s, step.w).Ready? && Commits(s, step, PhaseOf(s, step.w).op) {
      RecordEffect(s.db, PhaseOf(s, step.w).op, b, x);
      hide Transaction, Next;
    }
  }

  /** What the committed operations of a run leave of a body: the content that was created or updated
      last, or nothing after a delete. */
  ghost function LastRecord(s: System, steps: seq<Step>, b: string): Option<string> {
    if steps == [] then (if b in s.db.bodies then Some(s.db.bodies[b]) else None)
    else
      var most := steps[..|steps| - 1];
      var before, last := Run(s, most), steps[|steps| - 1];
      var op := if last.Commit? && PhaseOf(before, last.w).Ready? then Some(PhaseOf(before, last.w).op) else None;
      if op.Some? && Commits(before, last, op.value) && Rewrites(op.value, b) then
        (if op.value.Delete? then None else Some(op.value.content))
      else LastRecord(s, most, b)
  }

  /** Over every run a body exists exactly if it was not deleted since it was last created or updated,
      and its content is the one of that operation. */
  lemma {:induction false} RecordIsLast(s: System, steps: seq<Step>, b: string)
    ensures var db := Run(s, steps).db;
      LastRecord(s, steps, b) == if b in db.bodies then Some(db.bodies[b]) else None
  {
    if steps != [] {
      var most, last := steps[..|steps| - 1], steps[|steps| - 1];
      var before := Run(s, most);
      RecordIsLast(s, most, b);
      NextDatabase(before, last);
      if !last.AddAgent? && PhaseOf(before, last.w).Ready? && Commits(before, last, PhaseOf(before, last.w).op) {
        var op := PhaseOf(before, last.w).op;
        RecordEffect(before.db, op, b, if op.Create? || op.Update? then op.content else "");
        if b in before.db.bodies {
          RecordEffect(before.db, op, b, before.db.bodies[b]);
        }
      }
      hide Next, Transaction;
    }
  }

  /** A body disappears during a run only by a committed delete of it. */
  lemma {:induction false} GoneOnlyByDelete(s: System, steps: seq<Step>, b: string) returns (i: nat)
    requires b in s.db.bodies && b !in Run(s, steps).db.bodies
    ensures i < |steps| && Commits(Before(s, steps, i), steps[i], Delete(b))
  {
    hide Next, Transaction;
    var n := |steps| - 1;
    var most := steps[..n];
    if b in Run(s, most).db.bodies {
      var before := Run(s, most);
      StepRecord(before, steps[n], b, before.db.bodies[b]);
      var op :| Commits(before, steps[n], op) && Rewrites(op, b);
      if !op.Delete? {
        StepRecord(before, steps[n], b, op.content);
        assert false;
      }
      assert op == Delete(b);
      i := n;
    } else {
      i := GoneOnlyByDelete(s, most, b);
      assert most[..i] == steps[..i];
    }
  }

  /** The state before step `i` of a run. */
  ghost function Before(s: System, steps: seq<Step>, i: nat): System
    requires i < |steps|
  {
    Run(s, steps[..i])
  }

  /** An assignment disappears during a run only if some step of it commits the removal of
      that assignment or of its body. */
  lemma {:induction false} LostOnlyByRemoval(s: System, steps: seq<Step>, b: string, a: string) returns (i: nat)
    requires Consistent(s.db) && Assigned(s.db, b, a) && !Assigned(Run(s, steps).db, b, a)
    ensures i < |steps|
    ensures Commits(Before(s, steps, i), steps[i], Unassign(b)) || Commits(Before(s, steps, i), steps[i], Delete(b))
  {
    var n := |steps| - 1;
    var most := steps[..n];
    RunConsistent(s, most);
    if Assigned(Run(s, most).db, b, a) {
      StepEffect(Run(s, most), steps[n], b, a);
      i := n;
    } else {
      i := LostOnlyByRemoval(s, most, b, a);
      assert most[..i] == steps[..i];
    }
  }

  /** An assignment appears during a run only by a commit of exactly that assignment, made
      when body and agent exist and no other agent has the body. */
  lemma {:induction false} GainedOnlyByAssign(s: System, steps: seq<Step>, b: string, a: string) returns (i: nat)
    requires Consistent(s.db) && !Assigned(s.db, b, a) && Assigned(Run(s, steps).db, b, a)
    ensures i < |steps| && Commits(Before(s, steps, i), steps[i], Assign(b, a))
    ensures var db := Before(s, steps, i).db;
      b in db.bodies && a in db.agents && forall other | other != a :: !Assigned(db, b, other)
  {
    var n := |steps| - 1;
    var most := steps[..n];
    RunConsistent(s, most);
    if Assigned(Run(s, most).db, b, a) {
      i := GainedOnlyByAssign(s, most, b, a);
      assert most[..i] == steps[..i];
    } else {
      StepEffect(Run(s, most), steps[n], b, a);
      AssignSucceedsExactly(Run(s, most).db, b, a);
      i := n;
    }
  }

  /** No writer ever replaces the agent of a body: between two different agents lies a
      committed removal. */
  lemma NeverOverwritten(s: System, steps: seq<Step>, b: string, a: string, other: string) returns (i: nat)
    requires Consistent(s.db) && Assigned(s.db, b, a) && Assigned(Run(s, steps).db, b, other) && other != a
    ensures i < |steps|
    ensures Commits(Before(s, steps, i), steps[i], Unassign(b)) || Commits(Before(s, steps, i), steps[i], Delete(b))
  {
    RunConsistent(s, steps);
    i := LostOnlyByRemoval(s, steps, b, a);
  }

  // ---- A call that nobody interrupts ----

  /** The steps of one call of writer `w`. */
  function Call(w: nat, op: Op): seq<Step> {
    [Begin(w, op), ReadNodes(w), ReadEdges(w), ReadAgents(w), Commit(w)]
  }

  lemma {:induction false} RunStep(s: System, steps: seq<Step>, i: nat)
    requires i < |steps|
    ensures Run(s, steps[..i + 1]) == Next(Run(s, steps[..i]), steps[i])
  {
    assert steps[..i + 1][..i] == steps[..i];
  }

  /** On consistent tables a listing of the current rows succeeds. */
  lemma SnapshotListable(db: Database)
    requires Consistent(db)
    ensures Once(db.edges) && forall k | k in db.edges :: db.edges[k].body in db.bodies
  {
  }

  /** What makes the reads turn a call away makes its transaction fail or change nothing. */
  lemma ReadsForesee(db: Database, op: Op)
    requires Consistent(db) && IsBodyId(op.body)
    ensures op.Create? && op.body in db.bodies ==> Transaction(db, op).Err?
    ensures !op.Create? && op.body !in db.bodies ==> Transaction(db, op).Err?
    ensures op.Assign? && op.agent !in db.agents ==> Transaction(db, op).Err?
    ensures op.Assign? && (exists k :: k in db.edges && db.edges[k].body == op.body) ==>
      Transaction(db, op).Err? || Transaction(db, op) == Ok(db)
  {
    if op.Assign? && exists k :: k in db.edges && db.edges[k].body == op.body {
      var k :| k in db.edges && db.edges[k].body == op.body;
      assert EdgesOf(db, op.body) == {k};
    }
  }

  lemma EdgeIsAssigned(db: Database, body: string)
    ensures (exists k :: k in db.edges && db.edges[k].body == body) <==> exists a :: Assigned(db, body, a)
  {
    if k :| k in db.edges && db.edges[k].body == body {
      assert db.edges[k] == Edge(body, db.edges[k].agent);
      assert Assigned(db, body, db.edges[k].agent);
    }
  }

  /** What the reads of a call look for: a create needs a new body, an assignment a body and an agent
      that exist and no assignment yet, an update or delete a body; an unassign reads nothing before. */
  ghost predicate Passes(db: Database, op: Op) {
    match op
    case Create(body, _) => body !in db.bodies
    case Assign(body, agent) => body in db.bodies && agent in db.agents && forall a :: !Assigned(db, body, a)
    case Unassign(_) => true
    case _ => op.body in db.bodies
  }

  /** The phase of writer `w` after its listing, and the phase after it looked for the agent. */
  lemma ListedPhase(db: Database, op: Op)
    requires Consistent(db) && !op.Unassign?
    ensures var phase := AfterListing(op, db.bodies, db.edges);
      if op.Assign? then
        phase == if op.body in db.bodies then SawBody(op, exists a :: Assigned(db, op.body, a)) else Idle
      else phase == if Passes(db, op) then Ready(op) else Idle
  {
    SnapshotListable(db);
    EdgeIsAssigned(db, op.body);
    hide Consistent, Assigned, Once;
  }

  lemma {:induction false} ReadsPass(s: System, w: nat, op: Op)
    requires Consistent(s.db) && PhaseOf(s, w).Idle? && IsBodyId(op.body)
    ensures var ready := Run(s, Call(w, op)[..4]);
      ready.db == s.db && PhaseOf(ready, w) == if Passes(s.db, op) then Ready(op) else Idle
  {
    var steps := Call(w, op);
    assert steps[0] == Begin(w, op) && steps[1] == ReadNodes(w);
    assert steps[2] == ReadEdges(w) && steps[3] == ReadAgents(w);
    assert Run(s, steps[..0]) == s;
    RunStep(s, steps, 0);
    RunStep(s, steps, 1);
    RunStep(s, steps, 2);
    RunStep(s, steps, 3);
    hide Run, Transaction, AfterListing, Consistent, Call, Passes;
    if op.Unassign? {
      ReadyStays(Run(s, steps[..1]), w, op);
      assert Passes(s.db, op) by { UnassignPasses(s.db, op); }
    } else {
      ListedPhase(s.db, op);
      hide Assigned;
      AssignPasses(s.db, op);
    }
  }

  /** A writer that is ready reads no more. */
  lemma ReadyStays(s: System, w: nat, op: Op)
    requires PhaseOf(s, w) == Ready(op)
    ensures Next(s, ReadNodes(w)) == s && Next(s, ReadEdges(w)) == s && Next(s, ReadAgents(w)) == s
  {
  }

  lemma UnassignPasses(db: Database, op: Op)
    requires op.Unassign?
    ensures Passes(db, op)
  {
  }

  lemma AssignPasses(db: Database, op: Op)
    ensures op.Assign? ==>
      (Passes(db, op) <==> op.body in db.bodies && op.agent in db.agents && !exists a :: Assigned(db, op.body, a))
  {
    hide Assigned;
  }

  /** The reads of an uninterrupted call let it come to the transaction exactly if they find what they
      look for; otherwise the transaction would fail or would change nothing. */
  lemma {:induction false} UninterruptedReads(s: System, w: nat, op: Op)
    requires Consistent(s.db) && PhaseOf(s, w).Idle? && IsBodyId(op.body)
    ensures var ready := Run(s, Call(w, op)[..4]);
      && ready.db == s.db
      && PhaseOf(ready, w) == (if Passes(s.db, op) then Ready(op) else Idle)
      && (!Passes(s.db, op) ==> Transaction(s.db, op).Err? || Transaction(s.db, op) == Ok(s.db))
  {
    ReadsPass(s, w, op);
    ReadsForesee(s.db, op);
    EdgeIsAssigned(s.db, op.body);
    hide Transaction, Run, Consistent, Assigned;
  }

  /** With nothing in between, the reads and the transaction together do what the transaction
      alone would do: the reads turn away no call that would change something. */
  lemma {:induction false} UninterruptedCall(s: System, w: nat, op: Op)
    requires Consistent(s.db) && PhaseOf(s, w).Idle? && IsBodyId(op.body)
    ensures var end := Run(s, Call(w, op));
      && end.db == (match Transaction(s.db, op) case Ok(db) => db case Err(_) => s.db)
      && PhaseOf(end, w).Idle?
  {
    var steps := Call(w, op);
    UninterruptedReads(s, w, op);
    RunStep(s, steps, 4);
    assert steps[..5] == steps;
  }

  /** A listing that reads the nodes before other calls create and assign a body, and the
      edges after them, fails although the tables are consistent at both moments. */
  lemma {:induction false} TornListing(s: System, w: nat, body: string, content: string, agent: string,
      r: Result<map<string, Embodied>, ListError>)
    requires Consistent(s.db) && PhaseOf(s, w).Idle? && IsBodyId(body)
    requires body !in s.db.bodies && agent in s.db.agents
    ensures var end := Run(Run(s, Call(w, Create(body, content))), Call(w, Assign(body, agent)));
      && Consistent(end.db)
      && (IsListing(s.db.bodies, end.db.edges, r) ==> r == Err(UnknownEmbodiment))
  {
    hide Run, EdgeKey;
    var created := Run(s, Call(w, Create(body, content)));
    var end := Run(created, Call(w, Assign(body, agent)));
    UninterruptedCall(s, w, Create(body, content));
    TransactionConsistent(s.db, Create(body, content));
    UninterruptedCall(created, w, Assign(body, agent));
    TransactionConsistent(created.db, Assign(body, agent));
    assert forall other :: !Assigned(created.db, body, other);
    AssignSucceedsExactly(created.db, body, agent);
    if IsListing(s.db.bodies, end.db.edges, r) {
      assert Assigned(end.db, body, agent);
      ListableExactly(s.db, end.db, r);
    }
  }
}
