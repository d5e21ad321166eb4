/** Filtering the entities of a query and projecting one row per entity or per edge. */
module FactProjection {
  import opened Text

  type Value = string

  datatype Entity = Entity(id: string, fields: map<string, Value>)

  /** A relationship record; `related` is the id of the entity at its far end, if it has one. */
  datatype Edge = Edge(related: Option<string>, fields: map<string, Value>)

  datatype Failure = Failure(status: string, missing: seq<string>)

  datatype Verdict = Pass | Reject | Fail(failure: Failure)

  datatype Filter =
    | OnRelation(property: string, condition: string)
    | OnEntity(property: string, condition: string)
    | OnPredicate(name: string)

  /** A named predicate: roles on the edges decide it, or else a property of the entity. */
  datatype Definition = Definition(
    property: string, column: Option<string>, recognized: set<Value>, matching: set<Value>)

  /** What the schema, the operators and the loader answer. */
  datatype Knowledge = Knowledge(
    column: string -> Option<string>,                   // the column of a property of the final relation
    source: string -> string,                           // the property a value is checked as
    valid: (string, Value) -> bool,                     // a value satisfies the contract of its property
    test: (Filter, Value) -> bool,                      // a value satisfies the condition of a filter
    predicates: map<string, Definition>,
    checksRoles: bool,                                  // role values are held against a contract
    entityVerdict: (Filter, Entity) -> Verdict,         // a filter on the entity itself
    load: Entity -> Result<Entity, Failure>,            // the entity with a name to show
    operate: (Entity, seq<Edge>) -> Result<Answer, Failure>)

  datatype Answer = Answer(status: string, value: Option<Value>, missing: seq<string>)

  const UNSUPPORTED := "filter_unsupported"
  const INPUT_MISSING := "filter_input_missing"

  // ---- One filter ----

  /** The values that the edges have in a column, in order. */
  function Values(edges: seq<Edge>, column: string): (values: seq<Value>)
    ensures forall v :: v in values <==> exists e :: e in edges && column in e.fields && e.fields[column] == v
  {
    if edges == [] then []
    else
      var rest := Values(edges[1..], column);
      assert forall e :: e in edges <==> e == edges[0] || e in edges[1..];
      if column in edges[0].fields then [edges[0].fields[column]] + rest else rest
  }

  /** A condition on the relation holds if some edge satisfies it; all values must be sound. */
  function RelationVerdict(k: Knowledge, f: Filter, edges: seq<Edge>): Verdict
    requires f.OnRelation?
  {
    var column := k.column(f.property);
    if column.None? then Fail(Failure(UNSUPPORTED, [f.property]))
    else
      var values := Values(edges, column.value);
      if values == [] then Fail(Failure(INPUT_MISSING, [f.property]))
      else if exists v :: v in values && !k.valid(f.property, v) then Fail(Failure(UNSUPPORTED, [k.source(f.property)]))
      else if exists v :: v in values && k.test(f, v) then Pass
      else Reject
  }

  function PredicateVerdict(k: Knowledge, f: Filter, entity: Entity, edges: seq<Edge>): Verdict
    requires f.OnPredicate?
  {
    if f.name !in k.predicates then Fail(Failure(UNSUPPORTED, [f.name]))
    else
      var d := k.predicates[f.name];
      var values := if d.column.None? then [] else Values(edges, d.column.value);
      var roles := set v | v in values && v in d.recognized;
      if k.checksRoles && exists v :: v in values && !k.valid(d.property, v)
      then Fail(Failure(UNSUPPORTED, [k.source(d.property)]))
      else if roles == {} then k.entityVerdict(f, entity)
      else if roles <= d.matching then Pass
      else if roles !! d.matching then Reject
      else Fail(Failure(INPUT_MISSING, [f.name]))
  }

  function FilterVerdict(k: Knowledge, f: Filter, entity: Entity, edges: seq<Edge>): Verdict {
    match f
    case OnPredicate(_) => PredicateVerdict(k, f, entity, edges)
    case OnRelation(_, _) => RelationVerdict(k, f, edges)
    case OnEntity(_, _) => k.entityVerdict(f, entity)
  }

  /** The filters one after the other, up to the first that does not pass. */
  function Judge(k: Knowledge, filters: seq<Filter>, entity: Entity, edges: seq<Edge>): (v: Verdict)
    ensures v.Pass? <==> forall f | f in filters :: FilterVerdict(k, f, entity, edges).Pass?
  {
    if filters == [] then Pass
    else
      var first := FilterVerdict(k, filters[0], entity, edges);
      if first.Pass? then Judge(k, filters[1..], entity, edges) else first
  }

  /** The verdict is that of the first filter that does not pass. */
  lemma {:induction false} JudgeIsFirst(k: Knowledge, filters: seq<Filter>, entity: Entity, edges: seq<Edge>)
    returns (i: nat)
    requires !Judge(k, filters, entity, edges).Pass?
    ensures i < |filters| && FilterVerdict(k, filters[i], entity, edges) == Judge(k, filters, entity, edges)
    ensures forall j | 0 <= j < i :: FilterVerdict(k, filters[j], entity, edges).Pass?
  {
    hide FilterVerdict;
    i := 0;
    if FilterVerdict(k, filters[0], entity, edges).Pass? {
      i := JudgeIsFirst(k, filters[1..], entity, edges);
      i := i + 1;
    }
  }

  // ---- What the filters ask, said of the edges ----

  /** An edge has a value for the condition, a sound one that satisfies it. */
  predicate Satisfies(k: Knowledge, f: Filter, e: Edge)
    requires f.OnRelation?
  {
    var column := k.column(f.property);
    && column.Some? && column.value in e.fields
    && k.valid(f.property, e.fields[column.value]) && k.test(f, e.fields[column.value])
  }

  /** What a condition on the relation decides. Without a column for its property, or with an unsound
      value, it is unsupported; without a value its input is missing; otherwise one edge with a value
      that satisfies it is enough to pass, and it rejects if there is none. */
  lemma {:induction false} RelationMeaning(k: Knowledge, f: Filter, edges: seq<Edge>)
    requires f.OnRelation?
    ensures var v, column := RelationVerdict(k, f, edges), k.column(f.property);
      if column.None? then v == Fail(Failure("filter_unsupported", [f.property]))
      else
        var c := column.value;
        if !exists e :: e in edges && c in e.fields
        then v == Fail(Failure("filter_input_missing", [f.property]))
        else if exists e :: e in edges && c in e.fields && !k.valid(f.property, e.fields[c])
        then v == Fail(Failure("filter_unsupported", [k.source(f.property)]))
        else
          && (v.Pass? <==> exists e :: e in edges && c in e.fields && k.test(f, e.fields[c]))
          && (v.Reject? <==> forall e | e in edges && c in e.fields :: !k.test(f, e.fields[c]))
  {
    if k.column(f.property).Some? {
      var c := k.column(f.property).value;
      var values := Values(edges, c);
      hide Values;
      if values != [] {
        assert values[0] in values;
      }
      if e :| e in edges && c in e.fields {
        assert e.fields[c] in values;
      }
    }
  }

  /** Edge `e` carries a role that the predicate knows. */
  predicate HasRole(d: Definition, e: Edge) {
    d.column.Some? && d.column.value in e.fields && e.fields[d.column.value] in d.recognized
  }

  ghost function Roles(d: Definition, edges: seq<Edge>): set<Value> {
    var values := if d.column.None? then [] else Values(edges, d.column.value);
    set v | v in values && v in d.recognized
  }

  lemma {:induction false} RolesOnEdges(d: Definition, edges: seq<Edge>)
    ensures Roles(d, edges) == {} <==> !exists e :: e in edges && HasRole(d, e)
    ensures Roles(d, edges) <= d.matching <==>
      forall e | e in edges && HasRole(d, e) :: e.fields[d.column.value] in d.matching
    ensures Roles(d, edges) !! d.matching <==>
      forall e | e in edges && HasRole(d, e) :: e.fields[d.column.value] !in d.matching
  {
    hide Values;
    var roles := Roles(d, edges);
    forall e | e in edges && HasRole(d, e) ensures e.fields[d.column.value] in roles {
    }
    forall v | v in roles ensures exists e :: e in edges && HasRole(d, e) && e.fields[d.column.value] == v {
    }
  }

  /** What a named predicate decides. Roles that the edges carry decide it together; without one the
      entity decides; roles that disagree leave it open. */
  lemma {:induction false} PredicateMeaning(k: Knowledge, f: Filter, x: Entity, edges: seq<Edge>)
    requires f.OnPredicate?
    ensures var v := PredicateVerdict(k, f, x, edges);
      if f.name !in k.predicates then v == Fail(Failure("filter_unsupported", [f.name]))
      else
        var d := k.predicates[f.name];
        if k.checksRoles && d.column.Some?
          && exists e :: e in edges && d.column.value in e.fields && !k.valid(d.property, e.fields[d.column.value])
        then v == Fail(Failure("filter_unsupported", [k.source(d.property)]))
        else if !exists e :: e in edges && HasRole(d, e) then v == k.entityVerdict(f, x)
        else
          && (v.Pass? <==> forall e | e in edges && HasRole(d, e) :: e.fields[d.column.value] in d.matching)
          && (v.Reject? <==> forall e | e in edges && HasRole(d, e) :: e.fields[d.column.value] !in d.matching)
          && (v.Fail? ==> v == Fail(Failure("filter_input_missing", [f.name])))
  {
    if f.name in k.predicates {
      var d := k.predicates[f.name];
      RolesOnEdges(d, edges);
      hide Values;
      var values := if d.column.None? then [] else Values(edges, d.column.value);
      assert Roles(d, edges) == set v | v in values && v in d.recognized;
      hide Roles;
    }
  }

  /** An entity meets a filter, given the edges about it. */
  ghost predicate Meets(k: Knowledge, f: Filter, x: Entity, about: set<Edge>) {
    match f
    case OnEntity(_, _) => k.entityVerdict(f, x).Pass?
    case OnRelation(property, _) =>
      && k.column(property).Some?
      && (forall e | e in about && k.column(property).value in e.fields ::
            k.valid(property, e.fields[k.column(property).value]))
      && exists e :: e in about && Satisfies(k, f, e)
    case OnPredicate(name) =>
      && name in k.predicates
      && var d := k.predicates[name];
      && (k.checksRoles && d.column.Some? ==>
            forall e | e in about && d.column.value in e.fields :: k.valid(d.property, e.fields[d.column.value]))
      && if exists e :: e in about && HasRole(d, e)
         then forall e | e in about && HasRole(d, e) :: e.fields[d.column.value] in d.matching
         else k.entityVerdict(f, x).Pass?
  }

  /** A filter passes exactly for the entities that meet it. */
  lemma {:induction false} PassesExactly(k: Knowledge, f: Filter, x: Entity, edges: seq<Edge>, about: set<Edge>)
    requires forall e :: e in about <==> e in edges
    ensures FilterVerdict(k, f, x, edges).Pass? <==> Meets(k, f, x, about)
  {
    match f
    case OnEntity(_, _) =>
    case OnRelation(_, _) => RelationMeaning(k, f, edges); hide RelationVerdict;
    case OnPredicate(_) => PredicateMeaning(k, f, x, edges); hide PredicateVerdict;
  }

  /** A condition on the relation passes on one edge exactly if the edge satisfies it. */
  lemma {:induction false} PassesOnEdge(k: Knowledge, f: Filter, e: Edge)
    requires f.OnRelation?
    ensures RelationVerdict(k, f, [e]).Pass? <==> Satisfies(k, f, e)
  {
    RelationMeaning(k, f, [e]);
    hide RelationVerdict;
    assert e in [e];
  }

  /** No verdict depends on the order of the edges or on how often one is listed. */
  lemma {:induction false} VerdictIgnoresOrder(k: Knowledge, filters: seq<Filter>, entity: Entity, a: seq<Edge>,
      b: seq<Edge>)
    requires forall e :: e in a <==> e in b
    ensures Judge(k, filters, entity, a) == Judge(k, filters, entity, b)
  {
    if filters != [] {
      VerdictIgnoresOrder(k, filters[1..], entity, a, b);
      FilterIgnoresOrder(k, filters[0], entity, a, b);
    }
  }

  lemma {:induction false} MoreValues(a: seq<Edge>, b: seq<Edge>, column: string)
    requires forall e :: e in a ==> e in b
    ensures forall v :: v in Values(a, column) ==> v in Values(b, column)
    ensures Values(a, column) != [] ==> Values(b, column) != []
  {
    forall v | v in Values(a, column) ensures v in Values(b, column) {
      var e :| e in a && column in e.fields && e.fields[column] == v;
      assert e in b;
    }
    if Values(a, column) != [] {
      assert Values(a, column)[0] in Values(b, column);
    }
  }

  lemma {:induction false} SameValues(a: seq<Edge>, b: seq<Edge>, column: string)
    requires forall e :: e in a <==> e in b
    ensures forall v :: v in Values(a, column) <==> v in Values(b, column)
    ensures Values(a, column) == [] <==> Values(b, column) == []
  {
    MoreValues(a, b, column);
    MoreValues(b, a, column);
  }

  lemma {:induction false} FilterIgnoresOrder(k: Knowledge, f: Filter, entity: Entity, a: seq<Edge>, b: seq<Edge>)
    requires forall e :: e in a <==> e in b
    ensures FilterVerdict(k, f, entity, a) == FilterVerdict(k, f, entity, b)
  {
    hide Values;
    match f {
      case OnRelation(property, _) =>
        if k.column(property).Some? {
          SameValues(a, b, k.column(property).value);
        }
      case OnPredicate(name) =>
        if name in k.predicates && k.predicates[name].column.Some? {
          var column := k.predicates[name].column.value;
          var d := k.predicates[name];
          SameValues(a, b, column);
          assert (set v | v in Values(a, column) && v in d.recognized)
            == (set v | v in Values(b, column) && v in d.recognized);
        }
      case OnEntity(_, _) =>
    }
  }

  // ---- Filtering a collection ----

  datatype Row = Row(
    entity: Entity, status: string, value: Option<Value>, about: string, edges: seq<Edge>, missing: seq<string>)

  /** What is asked: `each` asks for rows, `perEdge` for one row per edge. */
  datatype Request = Request(filters: seq<Filter>, each: bool, perEdge: bool)

  predicate IsRelational(f: Filter) {
    f.OnRelation?
  }

  predicate IsPlain(f: Filter) {
    !f.OnRelation?
  }

  function Select<T(!new)>(items: seq<T>, keep: T -> bool): (r: seq<T>)
    ensures forall x :: x in r <==> x in items && keep(x)
    ensures |r| <= |items|
  {
    if items == [] then []
    else
      var rest := Select(items[..|items| - 1], keep);
      var last := items[|items| - 1];
      assert items == items[..|items| - 1] + [last];
      if keep(last) then rest + [last] else rest
  }

  /** All conditions on the relation, bound to one edge. */
  function EdgeVerdict(k: Knowledge, filters: seq<Filter>, edge: Edge): (v: Verdict)
    requires forall f | f in filters :: f.OnRelation?
    ensures v.Pass? <==> forall f | f in filters :: RelationVerdict(k, f, [edge]).Pass?
  {
    if filters == [] then Pass
    else
      assert filters[0] in filters;
      var first := RelationVerdict(k, filters[0], [edge]);
      if first.Pass? then EdgeVerdict(k, filters[1..], edge) else first
  }

  predicate Binds(k: Knowledge, filters: seq<Filter>, edge: Edge) {
    forall f | f in filters && f.OnRelation? :: RelationVerdict(k, f, [edge]).Pass?
  }

  function Binding(k: Knowledge, filters: seq<Filter>): Edge -> bool {
    (e: Edge) => Binds(k, filters, e)
  }

  lemma {:induction false} PassIsBinding(k: Knowledge, filters: seq<Filter>, e: Edge)
    requires forall f | f in filters :: f.OnRelation?
    ensures EdgeVerdict(k, filters, e).Pass? <==> Binding(k, filters)(e)
  {
  }

  lemma SelectStep<T(!new)>(items: seq<T>, i: nat, keep: T -> bool)
    requires i < |items|
    ensures Select(items[..i + 1], keep) == Select(items[..i], keep) + if keep(items[i]) then [items[i]] else []
  {
    assert items[..i + 1][..i] == items[..i];
  }

  /** The edges that satisfy every edge condition at once. One that cannot be judged fails the
      whole query. */
  method BindEdges(k: Knowledge, filters: seq<Filter>, edges: seq<Edge>) returns (r: Result<seq<Edge>, Failure>)
    requires forall f | f in filters :: f.OnRelation?
    ensures r.Ok? ==> r.value == Select(edges, Binding(k, filters))
    ensures r.Ok? <==> forall e | e in edges :: !EdgeVerdict(k, filters, e).Fail?
  {
    hide RelationVerdict, EdgeVerdict, Binds, Binding, Select;
    var bound: seq<Edge> := [];
    assert Select([], Binding(k, filters)) == [];
    for i := 0 to |edges|
      invariant bound == Select(edges[..i], Binding(k, filters))
      invariant forall j | 0 <= j < i :: !EdgeVerdict(k, filters, edges[j]).Fail?
    {
      SelectStep(edges, i, Binding(k, filters));
      PassIsBinding(k, filters, edges[i]);
      var verdict := EdgeVerdict(k, filters, edges[i]);
      if verdict.Fail? {
        return Err(verdict.failure);
      }
      if verdict.Pass? {
        bound := bound + [edges[i]];
      }
    }
    assert edges[..|edges|] == edges;
    r := Ok(bound);
  }

  function About(id: string): Edge -> bool {
    (e: Edge) => e.related == Some(id)
  }

  function EdgesOf(edges: seq<Edge>, id: string): seq<Edge> {
    Select(edges, About(id))
  }

  function HasEdge(edges: seq<Edge>): Entity -> bool {
    (x: Entity) => exists e :: e in edges && e.related == Some(x.id)
  }

  function AboutOneOf(entities: seq<Entity>): Edge -> bool {
    (e: Edge) => exists x :: x in entities && e.related == Some(x.id)
  }

  function VerdictOn(k: Knowledge, filters: seq<Filter>, edges: seq<Edge>, x: Entity): Verdict {
    Judge(k, filters, x, EdgesOf(edges, x.id))
  }

  function Passing(k: Knowledge, filters: seq<Filter>, edges: seq<Edge>): Entity -> bool {
    (x: Entity) => VerdictOn(k, filters, edges, x).Pass?
  }

  function Rejected(k: Knowledge, filters: seq<Filter>, edges: seq<Edge>): Entity -> bool {
    (x: Entity) => VerdictOn(k, filters, edges, x).Reject?
  }

  function Failing(k: Knowledge, filters: seq<Filter>, edges: seq<Edge>): Entity -> bool {
    (x: Entity) => VerdictOn(k, filters, edges, x).Fail?
  }

  /** The row that reports an entity whose filters could not be evaluated. */
  function FailureRow(k: Knowledge, x: Entity, failure: Failure): (r: Result<Row, Failure>)
    ensures r.Ok? ==> r.value.about == x.id && r.value.edges == [] && r.value.status == failure.status
    ensures r.Ok? <==> k.load(x).Ok?
  {
    match k.load(x)
    case Ok(visible) => Ok(Row(visible, failure.status, None, x.id, [], failure.missing))
    case Err(f) => Err(f)
  }

  /** `rows` reports exactly the entities that fail, in order. */
  ghost predicate ReportsFailures(k: Knowledge, filters: seq<Filter>, edges: seq<Edge>, failing: seq<Entity>,
      rows: seq<Row>) {
    |rows| == |failing| && forall i | 0 <= i < |rows| ::
      var v := VerdictOn(k, filters, edges, failing[i]);
      v.Fail? && FailureRow(k, failing[i], v.failure) == Ok(rows[i])
  }

  datatype Judged = Judged(kept: seq<Entity>, failures: seq<Row>)

  /** The loop over the entities. A filter that fails is reported when rows are asked for, and
      ends the query otherwise; so does a reported entity that cannot be loaded. */
  method JudgeAll(k: Knowledge, filters: seq<Filter>, each: bool, entities: seq<Entity>, edges: seq<Edge>)
    returns (r: Result<Judged, Failure>)
    ensures r.Ok? ==>
      && r.value.kept == Select(entities, Passing(k, filters, edges))
      && ReportsFailures(k, filters, edges, Select(entities, Failing(k, filters, edges)), r.value.failures)
      && (!each ==> r.value.failures == [])
    ensures r.Ok? <==> forall x | x in entities && VerdictOn(k, filters, edges, x).Fail? :: each && k.load(x).Ok?
  {
    hide VerdictOn, Select;
    var kept: seq<Entity>, failures: seq<Row> := [], [];
    assert Select([], Passing(k, filters, edges)) == [] && Select([], Failing(k, filters, edges)) == [];
    for i := 0 to |entities|
      invariant kept == Select(entities[..i], Passing(k, filters, edges))
      invariant ReportsFailures(k, filters, edges, Select(entities[..i], Failing(k, filters, edges)), failures)
      invariant !each ==> failures == []
      invariant forall j | 0 <= j < i && VerdictOn(k, filters, edges, entities[j]).Fail? ::
        each && k.load(entities[j]).Ok?
    {
      SelectStep(entities, i, Passing(k, filters, edges));
      SelectStep(entities, i, Failing(k, filters, edges));
      var verdict := VerdictOn(k, filters, edges, entities[i]);
      if verdict.Fail? {
        if !each {
          return Err(verdict.failure);
        }
        var row := FailureRow(k, entities[i], verdict.failure);
        if row.Err? {
          return Err(row.error);
        }
        failures := failures + [row.value];
      } else if verdict.Pass? {
        kept := kept + [entities[i]];
      }
    }
    assert entities[..|entities|] == entities;
    r := Ok(Judged(kept, failures));
  }

  /** Every entity is kept, rejected or reported, and only one of these. */
  lemma {:induction false} EveryEntityOnce(k: Knowledge, filters: seq<Filter>, edges: seq<Edge>, entities: seq<Entity>)
    ensures multiset(entities) ==
      multiset(Select(entities, Passing(k, filters, edges)))
      + multiset(Select(entities, Rejected(k, filters, edges)))
      + multiset(Select(entities, Failing(k, filters, edges)))
  {
    if entities != [] {
      OneVerdict(k, filters, edges, entities[|entities| - 1]);
      EveryEntityOnce(k, filters, edges, entities[..|entities| - 1]);
      hide VerdictOn, Passing, Rejected, Failing;
      OneMoreSplit(entities, Passing(k, filters, edges), Rejected(k, filters, edges), Failing(k, filters, edges));
    }
  }

  /** The last of a list goes to one of three selections. */
  lemma {:induction false} OneMoreSplit(entities: seq<Entity>, p: Entity -> bool, q: Entity -> bool, r: Entity -> bool)
    requires entities != []
    requires var x := entities[|entities| - 1];
      (p(x) || q(x) || r(x)) && !(p(x) && q(x)) && !(p(x) && r(x)) && !(q(x) && r(x))
    requires var most := entities[..|entities| - 1];
      multiset(most) == multiset(Select(most, p)) + multiset(Select(most, q)) + multiset(Select(most, r))
    ensures multiset(entities) ==
      multiset(Select(entities, p)) + multiset(Select(entities, q)) + multiset(Select(entities, r))
  {
    hide Select;
    SelectedCount(entities, p);
    SelectedCount(entities, q);
    SelectedCount(entities, r);
    assert entities == entities[..|entities| - 1] + [entities[|entities| - 1]];
  }

  lemma {:induction false} SelectedCount(entities: seq<Entity>, keep: Entity -> bool)
    requires entities != []
    ensures var n := |entities| - 1;
      multiset(Select(entities, keep))
        == multiset(Select(entities[..n], keep)) + if keep(entities[n]) then multiset{entities[n]} else multiset{}
  {
    hide Select;
    SelectStep(entities, |entities| - 1, keep);
    assert entities[..|entities|] == entities;
  }

  lemma OneVerdict(k: Knowledge, filters: seq<Filter>, edges: seq<Edge>, x: Entity)
    ensures Passing(k, filters, edges)(x) ==> !Rejected(k, filters, edges)(x) && !Failing(k, filters, edges)(x)
    ensures Rejected(k, filters, edges)(x) ==> !Failing(k, filters, edges)(x)
    ensures Passing(k, filters, edges)(x) || Rejected(k, filters, edges)(x) || Failing(k, filters, edges)(x)
  {
  }

  datatype Collected = Collected(entities: seq<Entity>, edges: seq<Edge>, failures: seq<Row>)

  /** Rows per edge with conditions on the relation: all of them bind the same edge. */
  predicate BindsEdges(request: Request) {
    request.each && request.perEdge && Select(request.filters, IsRelational) != []
  }

  function BoundEdges(k: Knowledge, request: Request, edges: seq<Edge>): seq<Edge> {
    if BindsEdges(request) then Select(edges, Binding(k, Select(request.filters, IsRelational))) else edges
  }

  function Candidates(k: Knowledge, request: Request, entities: seq<Entity>, edges: seq<Edge>): seq<Entity> {
    if BindsEdges(request) then Select(entities, HasEdge(BoundEdges(k, request, edges))) else entities
  }

  function OtherFilters(request: Request): seq<Filter> {
    if BindsEdges(request) then Select(request.filters, IsPlain) else request.filters
  }

  /** What the filter stage has to leave. */
  ghost predicate IsCollected(k: Knowledge, request: Request, entities: seq<Entity>, edges: seq<Edge>, c: Collected) {
    var bound := BoundEdges(k, request, edges);
    var candidates := Candidates(k, request, entities, edges);
    && c.entities == Select(candidates, Passing(k, OtherFilters(request), bound))
    && c.edges == Select(bound, AboutOneOf(c.entities))
    && ReportsFailures(k, OtherFilters(request), bound,
         Select(candidates, Failing(k, OtherFilters(request), bound)), c.failures)
  }

  /** Every condition on one edge can be judged, and every entity whose filters cannot be judged
      can at least be reported. */
  ghost predicate Evaluable(k: Knowledge, request: Request, entities: seq<Entity>, edges: seq<Edge>) {
    && (BindsEdges(request) ==>
          forall e | e in edges :: !EdgeVerdict(k, Select(request.filters, IsRelational), e).Fail?)
    && forall x | x in Candidates(k, request, entities, edges)
         && VerdictOn(k, OtherFilters(request), BoundEdges(k, request, edges), x).Fail? :: request.each && k.load(x).Ok?
  }

  /** The filter stage. It fails exactly when the request cannot be evaluated. */
  method FilterCollection(k: Knowledge, request: Request, entities: seq<Entity>, edges: seq<Edge>)
    returns (r: Result<Collected, Failure>)
    ensures r.Ok? ==> IsCollected(k, request, entities, edges, r.value)
    ensures r.Ok? <==> Evaluable(k, request, entities, edges)
  {
    hide Binding, HasEdge, Passing, AboutOneOf, Failing, ReportsFailures, VerdictOn, EdgeVerdict;
    var bound, candidates, filters := edges, entities, request.filters;
    var edgeFilters := Select(request.filters, IsRelational);
    if request.each && request.perEdge && edgeFilters != [] {
      var binding := BindEdges(k, edgeFilters, edges);
      if binding.Err? {
        return Err(binding.error);
      }
      bound := binding.value;
      candidates := Select(entities, HasEdge(bound));
      filters := Select(request.filters, IsPlain);
    }
    assert bound == BoundEdges(k, request, edges) && filters == OtherFilters(request);
    assert candidates == Candidates(k, request, entities, edges);
    var judged := JudgeAll(k, filters, request.each, candidates, bound);
    if judged.Err? {
      ghost var x :| x in candidates && VerdictOn(k, filters, bound, x).Fail? && !(request.each && k.load(x).Ok?);
      return Err(judged.error);
    }
    var kept := judged.value.kept;
    r := Ok(Collected(kept, Select(bound, AboutOneOf(kept)), judged.value.failures));
  }

  // ---- Projecting rows ----

  /** One row: the entity and a group of its edges, seen alone. A failure becomes the row's status. */
  function RowOf(k: Knowledge, x: Entity, group: seq<Edge>): (row: Row)
    ensures row.about == x.id && row.edges == group
  {
    match k.load(x)
    case Err(f) => Row(x, f.status, None, x.id, group, f.missing)
    case Ok(visible) =>
      match k.operate(x, group)
      case Err(f) => Row(x, f.status, None, x.id, group, f.missing)
      case Ok(answer) => Row(visible, answer.status, answer.value, x.id, group, answer.missing)
  }

  function Singletons(edges: seq<Edge>): (groups: seq<seq<Edge>>)
    ensures |groups| == |edges| && forall i | 0 <= i < |groups| :: groups[i] == [edges[i]]
  {
    if edges == [] then [] else [[edges[0]]] + Singletons(edges[1..])
  }

  /** One group per edge, or one empty group if there is none; or all edges in one group. */
  function Groups(perEdge: bool, edges: seq<Edge>): seq<seq<Edge>> {
    if perEdge then (if edges == [] then [[]] else Singletons(edges)) else [edges]
  }

  function RowsOfGroups(k: Knowledge, x: Entity, groups: seq<seq<Edge>>): (rows: seq<Row>)
    ensures |rows| == |groups| && forall i | 0 <= i < |rows| :: rows[i] == RowOf(k, x, groups[i])
  {
    if groups == [] then [] else RowsOfGroups(k, x, groups[..|groups| - 1]) + [RowOf(k, x, groups[|groups| - 1])]
  }

  function Rows(k: Knowledge, perEdge: bool, entities: seq<Entity>, edges: seq<Edge>): seq<Row> {
    if entities == [] then []
    else
      var x := entities[|entities| - 1];
      Rows(k, perEdge, entities[..|entities| - 1], edges) + RowsOfGroups(k, x, Groups(perEdge, EdgesOf(edges, x.id)))
  }

  lemma {:induction false} RowsStep(k: Knowledge, perEdge: bool, entities: seq<Entity>, edges: seq<Edge>, i: nat)
    requires i < |entities|
    ensures Rows(k, perEdge, entities[..i + 1], edges)
      == Rows(k, perEdge, entities[..i], edges)
         + RowsOfGroups(k, entities[i], Groups(perEdge, EdgesOf(edges, entities[i].id)))
  {
    assert entities[..i + 1][..i] == entities[..i];
  }

  /** The inner loop: one row per group of edges. */
  method ProjectEntity(k: Knowledge, perEdge: bool, x: Entity, edges: seq<Edge>) returns (rows: seq<Row>)
    ensures rows == RowsOfGroups(k, x, Groups(perEdge, EdgesOf(edges, x.id)))
  {
    hide Groups, EdgesOf, RowOf;
    var groups := Groups(perEdge, EdgesOf(edges, x.id));
    rows := [];
    for j := 0 to |groups|
      invariant |rows| == j && forall i | 0 <= i < j :: rows[i] == RowOf(k, x, groups[i])
    {
      rows := rows + [RowOf(k, x, groups[j])];
    }
  }

  /** The loop over the entities. */
  method ProjectEach(k: Knowledge, perEdge: bool, entities: seq<Entity>, edges: seq<Edge>, failures: seq<Row>)
    returns (rows: seq<Row>)
    ensures rows == failures + Rows(k, perEdge, entities, edges)
  {
    hide Groups, EdgesOf, RowsOfGroups, Rows;
    assert Rows(k, perEdge, [], edges) == [] by { NoRows(k, perEdge, edges); }
    rows := failures;
    for i := 0 to |entities|
      invariant rows == failures + Rows(k, perEdge, entities[..i], edges)
    {
      RowsStep(k, perEdge, entities, edges, i);
      var own := ProjectEntity(k, perEdge, entities[i], edges);
      rows := rows + own;
    }
    assert entities[..|entities|] == entities;
  }

  lemma {:induction false} NoRows(k: Knowledge, perEdge: bool, edges: seq<Edge>)
    ensures Rows(k, perEdge, [], edges) == []
  {
  }

  /** The edges that the rows show, one row after the other. */
  function Shown(rows: seq<Row>): seq<Edge> {
    if rows == [] then [] else Shown(rows[..|rows| - 1]) + rows[|rows| - 1].edges
  }

  lemma {:induction false} ShownAppend(a: seq<Row>, b: seq<Row>)
    ensures Shown(a + b) == Shown(a) + Shown(b)
  {
    if b == [] {
      assert a + b == a;
    } else {
      assert (a + b)[..|a + b| - 1] == a + b[..|b| - 1];
      ShownAppend(a, b[..|b| - 1]);
    }
  }

  lemma {:induction false} ShownOfGroups(k: Knowledge, x: Entity, edges: seq<Edge>, rows: seq<Row>)
    requires |rows| == |edges| && forall i | 0 <= i < |rows| :: rows[i].edges == [edges[i]]
    ensures Shown(rows) == edges
  {
    if rows != [] {
      ShownOfGroups(k, x, edges[..|edges| - 1], rows[..|rows| - 1]);
      assert edges == edges[..|edges| - 1] + [edges[|edges| - 1]];
    }
  }

  lemma {:induction false} ShownOfEntity(k: Knowledge, perEdge: bool, x: Entity, edges: seq<Edge>)
    ensures Shown(RowsOfGroups(k, x, Groups(perEdge, edges))) == edges
  {
    if perEdge && edges != [] {
      ShownOfGroups(k, x, edges, RowsOfGroups(k, x, Singletons(edges)));
    } else {
      assert RowsOfGroups(k, x, [edges]) == [RowOf(k, x, edges)];
    }
  }

  ghost predicate DistinctIds(entities: seq<Entity>) {
    forall i, j | 0 <= i < j < |entities| :: entities[i].id != entities[j].id
  }

  /** The edges of a new entity are none of those of the entities before it. */
  lemma {:induction false} OneMoreEntity(most: seq<Entity>, x: Entity, edges: seq<Edge>)
    requires forall y | y in most :: y.id != x.id
    ensures multiset(Select(edges, AboutOneOf(most + [x])))
      == multiset(Select(edges, AboutOneOf(most))) + multiset(EdgesOf(edges, x.id))
  {
    if edges != [] {
      var e := edges[|edges| - 1];
      OneMoreEntity(most, x, edges[..|edges| - 1]);
      assert AboutOneOf(most + [x])(e) <==> AboutOneOf(most)(e) || About(x.id)(e);
      assert !(AboutOneOf(most)(e) && About(x.id)(e));
    }
  }

  lemma {:induction false} NoEntities(edges: seq<Edge>)
    ensures Select(edges, AboutOneOf([])) == []
  {
    if edges != [] {
      NoEntities(edges[..|edges| - 1]);
    }
  }

  lemma {:induction false} ShownStep(k: Knowledge, perEdge: bool, entities: seq<Entity>, edges: seq<Edge>, i: nat)
    requires i < |entities|
    ensures Shown(Rows(k, perEdge, entities[..i + 1], edges))
      == Shown(Rows(k, perEdge, entities[..i], edges)) + EdgesOf(edges, entities[i].id)
  {
    hide Rows, Shown, RowsOfGroups, Groups, EdgesOf;
    var x := entities[i];
    RowsStep(k, perEdge, entities, edges, i);
    ShownAppend(Rows(k, perEdge, entities[..i], edges), RowsOfGroups(k, x, Groups(perEdge, EdgesOf(edges, x.id))));
    ShownOfEntity(k, perEdge, x, EdgesOf(edges, x.id));
  }

  lemma {:induction false} NothingShown(k: Knowledge, perEdge: bool, edges: seq<Edge>)
    ensures Shown(Rows(k, perEdge, [], edges)) == [] && Select(edges, AboutOneOf([])) == []
  {
    NoEntities(edges);
  }

  lemma DistinctPrefix(entities: seq<Entity>, n: nat)
    requires DistinctIds(entities) && n < |entities|
    ensures DistinctIds(entities[..n]) && forall y | y in entities[..n] :: y.id != entities[n].id
  {
  }

  /** Each edge of an entity is shown by exactly one row, and no other edge is shown. */
  lemma {:induction false} RowsShowEachEdgeOnce(k: Knowledge, perEdge: bool, entities: seq<Entity>, edges: seq<Edge>)
    requires DistinctIds(entities)
    ensures multiset(Shown(Rows(k, perEdge, entities, edges))) == multiset(Select(edges, AboutOneOf(entities)))
  {
    hide *;
    if entities == [] {
      NothingShown(k, perEdge, edges);
    } else {
      var n := |entities| - 1;
      DistinctPrefix(entities, n);
      RowsShowEachEdgeOnce(k, perEdge, entities[..n], edges);
      OneMoreEntity(entities[..n], entities[n], edges);
      assert entities[..n] + [entities[n]] == entities[..n + 1] == entities;
      ShownStep(k, perEdge, entities, edges, n);
    }
  }

  /** A row of an entity: computed from it and some of its edges; a row per edge stands for one edge,
      or for none if there is none. */
  ghost predicate IsRowOf(k: Knowledge, perEdge: bool, edges: seq<Edge>, x: Entity, row: Row) {
    && row == RowOf(k, x, row.edges)
    && (forall e | e in row.edges :: e in EdgesOf(edges, x.id))
    && (perEdge ==> |row.edges| <= 1)
    && (row.edges == [] ==> EdgesOf(edges, x.id) == [])
  }

  lemma {:induction false} GroupRow(k: Knowledge, perEdge: bool, edges: seq<Edge>, x: Entity, row: Row)
    requires row in RowsOfGroups(k, x, Groups(perEdge, EdgesOf(edges, x.id)))
    ensures IsRowOf(k, perEdge, edges, x, row)
  {
    hide Select, RowOf;
    var groups := Groups(perEdge, EdgesOf(edges, x.id));
    var rows := RowsOfGroups(k, x, groups);
    var i :| 0 <= i < |rows| && rows[i] == row;
    assert row.edges == groups[i];
  }

  /** A row belongs to one of the entities. */
  lemma {:induction false} RowOrigin(k: Knowledge, perEdge: bool, entities: seq<Entity>, edges: seq<Edge>,
      row: Row) returns (x: Entity)
    requires row in Rows(k, perEdge, entities, edges)
    ensures x in entities && IsRowOf(k, perEdge, edges, x, row)
  {
    hide IsRowOf;
    var last := entities[|entities| - 1];
    var most := entities[..|entities| - 1];
    if row in Rows(k, perEdge, most, edges) {
      x := RowOrigin(k, perEdge, most, edges, row);
    } else {
      x := last;
      GroupRow(k, perEdge, edges, x, row);
    }
  }

  /** And every entity has a row. */
  lemma {:induction false} HasRow(k: Knowledge, perEdge: bool, entities: seq<Entity>, edges: seq<Edge>, x: Entity)
    returns (row: Row)
    requires x in entities
    ensures row in Rows(k, perEdge, entities, edges) && IsRowOf(k, perEdge, edges, x, row)
  {
    hide IsRowOf, Groups, RowOf;
    var last := entities[|entities| - 1];
    if x == last {
      SomeGroup(perEdge, EdgesOf(edges, x.id));
      row := RowsOfGroups(k, x, Groups(perEdge, EdgesOf(edges, x.id)))[0];
      GroupRow(k, perEdge, edges, x, row);
    } else {
      row := HasRow(k, perEdge, entities[..|entities| - 1], edges, x);
    }
  }

  lemma SomeGroup(perEdge: bool, edges: seq<Edge>)
    ensures Groups(perEdge, edges) != []
  {
  }

  /** Two rows about one entity are rows per edge, each with its edge. */
  ghost predicate OneRowEach(perEdge: bool, rows: seq<Row>) {
    forall i, j | 0 <= i < j < |rows| && rows[i].about == rows[j].about ::
      perEdge && rows[i].edges != [] && rows[j].edges != []
  }

  lemma OneRowEachAppend(perEdge: bool, a: seq<Row>, b: seq<Row>)
    requires OneRowEach(perEdge, a) && OneRowEach(perEdge, b)
    requires forall x, y | x in a && y in b :: x.about != y.about
    ensures OneRowEach(perEdge, a + b)
  {
    var rows := a + b;
    forall i, j | 0 <= i < |a| <= j < |rows| ensures rows[i].about != rows[j].about {
      assert rows[i] in a && rows[j] in b;
    }
  }

  lemma {:induction false} OneRowPerGroup(k: Knowledge, perEdge: bool, x: Entity, edges: seq<Edge>)
    ensures OneRowEach(perEdge, RowsOfGroups(k, x, Groups(perEdge, edges)))
    ensures forall row | row in RowsOfGroups(k, x, Groups(perEdge, edges)) :: row.about == x.id
  {
    hide RowOf;
    if perEdge && edges != [] {
      var rows := RowsOfGroups(k, x, Singletons(edges));
      assert forall i | 0 <= i < |rows| :: rows[i].edges == [edges[i]];
    }
  }

  lemma {:induction false} RowsAreOneEach(k: Knowledge, perEdge: bool, entities: seq<Entity>, edges: seq<Edge>)
    requires DistinctIds(entities)
    ensures OneRowEach(perEdge, Rows(k, perEdge, entities, edges))
  {
    hide Groups, OneRowEach, RowOf, IsRowOf;
    if entities == [] {
      NoRowTwice(perEdge);
    } else {
      var n := |entities| - 1;
      DistinctPrefix(entities, n);
      RowsAreOneEach(k, perEdge, entities[..n], edges);
      OneRowPerGroup(k, perEdge, entities[n], EdgesOf(edges, entities[n].id));
      forall row | row in Rows(k, perEdge, entities[..n], edges) ensures row.about != entities[n].id {
        var x := RowOrigin(k, perEdge, entities[..n], edges, row);
        RowIsAbout(k, perEdge, edges, x, row);
      }
      OneRowEachAppend(perEdge, Rows(k, perEdge, entities[..n], edges),
        RowsOfGroups(k, entities[n], Groups(perEdge, EdgesOf(edges, entities[n].id))));
    }
  }

  lemma NoRowTwice(perEdge: bool)
    ensures OneRowEach(perEdge, [])
  {
  }

  lemma RowIsAbout(k: Knowledge, perEdge: bool, edges: seq<Edge>, x: Entity, row: Row)
    requires IsRowOf(k, perEdge, edges, x, row)
    ensures row.about == x.id
  {
  }

  // ---- Rows per edge under conditions on the relation ----

  /** The edges a query for rows per edge asks for: all edge conditions hold of this one edge,
      and its entity passes every other filter. */
  function Wanted(k: Knowledge, request: Request, entities: seq<Entity>, edges: seq<Edge>): Edge -> bool {
    (e: Edge) => IsWanted(k, request, entities, edges, e)
  }

  predicate IsWanted(k: Knowledge, request: Request, entities: seq<Entity>, edges: seq<Edge>, e: Edge) {
    && Binds(k, Select(request.filters, IsRelational), e)
    && exists x :: x in entities && e.related == Some(x.id)
         && VerdictOn(k, OtherFilters(request), BoundEdges(k, request, edges), x).Pass?
  }

  lemma {:induction false} SelectTwice<T(!new)>(items: seq<T>, p: T -> bool, q: T -> bool, both: T -> bool)
    requires forall x | x in items :: both(x) <==> p(x) && q(x)
    ensures Select(Select(items, p), q) == Select(items, both)
  {
    if items != [] {
      var most, last := items[..|items| - 1], items[|items| - 1];
      assert last in items;
      SelectTwice(most, p, q, both);
    }
  }

  lemma {:induction false} SelectDistinct(entities: seq<Entity>, keep: Entity -> bool)
    requires DistinctIds(entities)
    ensures DistinctIds(Select(entities, keep))
  {
    if entities != [] {
      var n := |entities| - 1;
      DistinctPrefix(entities, n);
      SelectDistinct(entities[..n], keep);
    }
  }

  lemma CollectedDistinct(k: Knowledge, request: Request, entities: seq<Entity>, edges: seq<Edge>, c: Collected)
    requires IsCollected(k, request, entities, edges, c) && DistinctIds(entities)
    ensures DistinctIds(c.entities)
  {
    hide DistinctIds, Select, Passing, ReportsFailures;
    SelectDistinct(entities, HasEdge(BoundEdges(k, request, edges)));
    SelectDistinct(Candidates(k, request, entities, edges),
      Passing(k, OtherFilters(request), BoundEdges(k, request, edges)));
  }

  /** The entities that are kept, among those an edge of the bound set can be about. */
  lemma KeptByEdge(k: Knowledge, request: Request, entities: seq<Entity>, edges: seq<Edge>, c: Collected, e: Edge)
    requires IsCollected(k, request, entities, edges, c) && BindsEdges(request) && e in edges
    ensures IsWanted(k, request, entities, edges, e)
      <==> Binding(k, Select(request.filters, IsRelational))(e) && AboutOneOf(c.entities)(e)
  {
    hide VerdictOn, ReportsFailures, Binds, OtherFilters, Select;
    var bound := BoundEdges(k, request, edges);
    if IsWanted(k, request, entities, edges, e) {
      var x :| x in entities && e.related == Some(x.id) && VerdictOn(k, OtherFilters(request), bound, x).Pass?;
      assert e in bound && HasEdge(bound)(x) && x in Candidates(k, request, entities, edges);
      assert Passing(k, OtherFilters(request), bound)(x);
      assert x in c.entities;
    }
    if Binding(k, Select(request.filters, IsRelational))(e) && AboutOneOf(c.entities)(e) {
      var x :| x in c.entities && e.related == Some(x.id);
      assert x in Candidates(k, request, entities, edges) && x in entities;
    }
  }

  lemma {:induction false} WantedEdges(k: Knowledge, request: Request, entities: seq<Entity>, edges: seq<Edge>,
      c: Collected)
    requires IsCollected(k, request, entities, edges, c) && BindsEdges(request)
    ensures Select(c.edges, AboutOneOf(c.entities)) == Select(edges, Wanted(k, request, entities, edges))
    ensures c.edges == Select(edges, Wanted(k, request, entities, edges))
  {
    hide Select, Passing, ReportsFailures, Binding, AboutOneOf, IsWanted;
    var bound := BoundEdges(k, request, edges);
    var kept := AboutOneOf(c.entities);
    forall e | e in edges
      ensures Wanted(k, request, entities, edges)(e)
        <==> Binding(k, Select(request.filters, IsRelational))(e) && kept(e)
    {
      KeptByEdge(k, request, entities, edges, c, e);
    }
    SelectTwice(edges, Binding(k, Select(request.filters, IsRelational)), kept, Wanted(k, request, entities, edges));
    SelectTwice(bound, kept, kept, kept);
  }

  /** In a query for rows per edge, the rows that are not failure reports match the wanted edges
      one to one. */
  lemma {:induction false} EachWantedEdgeOnce(k: Knowledge, request: Request, entities: seq<Entity>,
      edges: seq<Edge>, c: Collected)
    requires IsCollected(k, request, entities, edges, c) && BindsEdges(request) && DistinctIds(entities)
    ensures multiset(Shown(Rows(k, true, c.entities, c.edges)))
      == multiset(Select(edges, Wanted(k, request, entities, edges)))
  {
    hide *;
    CollectedDistinct(k, request, entities, edges, c);
    RowsShowEachEdgeOnce(k, true, c.entities, c.edges);
    WantedEdges(k, request, entities, edges, c);
  }

  /** Every such row is computed from its entity and its one wanted edge, and from no other edge. */
  lemma RowBindsOneEdge(k: Knowledge, request: Request, entities: seq<Entity>, edges: seq<Edge>, c: Collected, row: Row)
    returns (x: Entity)
    requires IsCollected(k, request, entities, edges, c) && BindsEdges(request)
    requires row in Rows(k, true, c.entities, c.edges)
    ensures x in entities && |row.edges| == 1 && row == RowOf(k, x, row.edges)
    ensures row.edges[0] in edges && row.edges[0].related == Some(x.id)
    ensures IsWanted(k, request, entities, edges, row.edges[0])
    ensures VerdictOn(k, OtherFilters(request), BoundEdges(k, request, edges), x).Pass?
  {
    hide VerdictOn, ReportsFailures, Binds, OtherFilters, Rows, RowOf, Select, IsWanted, Groups, Judge;
    var bound := BoundEdges(k, request, edges);
    x := RowOrigin(k, true, c.entities, c.edges, row);
    assert x in Candidates(k, request, entities, edges) && HasEdge(bound)(x);
    var e :| e in bound && e.related == Some(x.id);
    assert AboutOneOf(c.entities)(e) && e in c.edges && About(x.id)(e) && e in EdgesOf(c.edges, x.id);
    WantedEdges(k, request, entities, edges, c);
    assert row.edges[0] in row.edges && row.edges[0] in c.edges;
  }

  // ---- The whole query ----

  function NotExcluded(excluded: set<string>): Entity -> bool {
    (x: Entity) => x.id !in excluded
  }

  function EdgeNotExcluded(excluded: set<string>): Edge -> bool {
    (e: Edge) => e.related.None? || e.related.value !in excluded
  }

  lemma {:induction false} FailuresShowNothing(k: Knowledge, filters: seq<Filter>, edges: seq<Edge>,
      failing: seq<Entity>, rows: seq<Row>)
    requires ReportsFailures(k, filters, edges, failing, rows)
    ensures Shown(rows) == []
  {
    if rows != [] {
      var n := |rows| - 1;
      assert FailureRow(k, failing[n], VerdictOn(k, filters, edges, failing[n]).failure) == Ok(rows[n]);
      FailuresShowNothing(k, filters, edges, failing[..n], rows[..n]);
    }
  }

  lemma {:induction false} CollectedShown(k: Knowledge, request: Request, entities: seq<Entity>,
      edges: seq<Edge>, c: Collected, rows: seq<Row>)
    requires IsCollected(k, request, entities, edges, c)
    requires rows == c.failures + Rows(k, request.perEdge, c.entities, c.edges)
    ensures BindsEdges(request) && DistinctIds(entities) ==>
      multiset(Shown(rows)) == multiset(Select(edges, Wanted(k, request, entities, edges)))
  {
    hide Rows, Shown, Wanted, DistinctIds, Passing, Failing, AboutOneOf, Select, ReportsFailures;
    hide Candidates, BoundEdges;
    if BindsEdges(request) && DistinctIds(entities) {
      EachWantedEdgeOnce(k, request, entities, edges, c);
      var bound := BoundEdges(k, request, edges);
      FailuresShowNothing(k, OtherFilters(request), bound,
        Select(Candidates(k, request, entities, edges), Failing(k, OtherFilters(request), bound)), c.failures);
      ShownAppend(c.failures, Rows(k, request.perEdge, c.entities, c.edges));
    }
  }

  // What the whole query answers, said of the entities and edges it is given.

  /** Rows per edge under conditions on the relation, which then bind one edge. */
  predicate PerEdgeConditions(request: Request) {
    request.perEdge && exists f :: f in request.filters && f.OnRelation?
  }

  predicate SatisfiesAll(k: Knowledge, request: Request, e: Edge) {
    forall f | f in request.filters && f.OnRelation? :: Satisfies(k, f, e)
  }

  /** The edges about an entity that count: under conditions that bind an edge, those that satisfy
      them all. */
  ghost function Around(k: Knowledge, request: Request, edges: seq<Edge>, id: string): set<Edge> {
    set e | e in edges && e.related == Some(id) && (PerEdgeConditions(request) ==> SatisfiesAll(k, request, e))
  }

  /** The entity is not excluded, has an edge where conditions bind one, and meets every other filter. */
  ghost predicate Belongs(k: Knowledge, request: Request, edges: seq<Edge>, excluded: set<string>, x: Entity) {
    var about := Around(k, request, edges, x.id);
    && x.id !in excluded
    && (PerEdgeConditions(request) ==> about != {})
    && forall f | f in request.filters && !(PerEdgeConditions(request) && f.OnRelation?) :: Meets(k, f, x, about)
  }

  /** The query asks for the edge: it is around an entity that belongs to the answer. */
  ghost predicate AsksFor(k: Knowledge, request: Request, entities: seq<Entity>, edges: seq<Edge>,
      excluded: set<string>, e: Edge) {
    exists x :: x in entities && Belongs(k, request, edges, excluded, x) && e in Around(k, request, edges, x.id)
  }

  /** The row shows what the operator answers of the entity and the edges of the row alone, or how
      loading or operating failed. */
  predicate ShowsAnswer(k: Knowledge, x: Entity, row: Row) {
    && row.about == x.id
    && if k.load(x).Err? then
         var f := k.load(x).error;
         row.entity == x && row.value == None && row.status == f.status && row.missing == f.missing
       else if k.operate(x, row.edges).Err? then
         var f := k.operate(x, row.edges).error;
         row.entity == x && row.value == None && row.status == f.status && row.missing == f.missing
       else
         var a := k.operate(x, row.edges).value;
         row.entity == k.load(x).value && row.value == a.value && row.status == a.status && row.missing == a.missing
  }

  /** A row for an entity that belongs to the answer, from edges around it. */
  ghost predicate IsRowFor(k: Knowledge, request: Request, edges: seq<Edge>, excluded: set<string>, x: Entity,
      row: Row) {
    && Belongs(k, request, edges, excluded, x) && ShowsAnswer(k, x, row)
    && (forall e | e in row.edges :: e in Around(k, request, edges, x.id))
    && (request.perEdge ==> |row.edges| <= 1)
    && (row.edges == [] ==> Around(k, request, edges, x.id) == {})
  }

  /** A report on an entity that is not excluded and has a filter that cannot be judged on the edges
      around it. */
  ghost predicate IsReportOn(k: Knowledge, request: Request, edges: seq<Edge>, excluded: set<string>, x: Entity,
      row: Row) {
    && x.id !in excluded && row.about == x.id && row.edges == [] && row.value == None && k.load(x) == Ok(row.entity)
    && exists f, es ::
         && f in request.filters && (forall e :: e in es <==> e in Around(k, request, edges, x.id))
         && FilterVerdict(k, f, x, es) == Fail(Failure(row.status, row.missing))
  }

  /** What rows a query answers: every row is for an entity that belongs to the answer or reports one
      whose filters cannot be judged, every entity that belongs has its row or rows, and each edge
      asked for is shown as often as it is given, no other edge at all. */
  ghost predicate Answers(k: Knowledge, request: Request, entities: seq<Entity>, edges: seq<Edge>,
      excluded: set<string>, rows: seq<Row>) {
    && (forall row | row in rows :: exists x | x in entities ::
          IsRowFor(k, request, edges, excluded, x, row) || IsReportOn(k, request, edges, excluded, x, row))
    && (forall x | x in entities && Belongs(k, request, edges, excluded, x) ::
          exists row :: row in rows && IsRowFor(k, request, edges, excluded, x, row))
    && (DistinctIds(entities) ==>
          && OneRowEach(request.perEdge, rows)
          && forall e :: multiset(Shown(rows))[e]
               == if AsksFor(k, request, entities, edges, excluded, e) then multiset(edges)[e] else 0)
  }

  lemma {:induction false} BindsExactly(k: Knowledge, request: Request, e: Edge)
    ensures Binds(k, Select(request.filters, IsRelational), e) <==> SatisfiesAll(k, request, e)
    ensures request.each ==> (BindsEdges(request) <==> PerEdgeConditions(request))
  {
    hide RelationVerdict, Satisfies;
    var filters := Select(request.filters, IsRelational);
    forall f | f in request.filters && f.OnRelation?
      ensures f in filters && (RelationVerdict(k, f, [e]).Pass? <==> Satisfies(k, f, e))
    {
      PassesOnEdge(k, f, e);
    }
    if filters != [] {
      assert filters[0] in filters;
    }
    hide Select;
  }

  /** The edges on which an entity is judged are those around it. */
  lemma {:induction false} JudgedAround(k: Knowledge, request: Request, edges: seq<Edge>, excluded: set<string>,
      x: Entity, e: Edge)
    requires request.each && x.id !in excluded
    ensures var records := Select(edges, EdgeNotExcluded(excluded));
      e in EdgesOf(BoundEdges(k, request, records), x.id) <==> e in Around(k, request, edges, x.id)
  {
    BindsExactly(k, request, e);
    hide BindsEdges, PerEdgeConditions, Binds, SatisfiesAll, Select;
  }

  /** An entity is kept by the filter stage exactly if it belongs to the answer. */
  lemma {:induction false} KeptExactly(k: Knowledge, request: Request, entities: seq<Entity>, edges: seq<Edge>,
      excluded: set<string>, c: Collected, x: Entity)
    requires request.each
    requires var visible, records := Select(entities, NotExcluded(excluded)), Select(edges, EdgeNotExcluded(excluded));
      IsCollected(k, request, visible, records, c)
    ensures x in c.entities <==> x in entities && Belongs(k, request, edges, excluded, x)
  {
    var visible, records := Select(entities, NotExcluded(excluded)), Select(edges, EdgeNotExcluded(excluded));
    var bound := BoundEdges(k, request, records);
    assert x in visible <==> x in entities && x.id !in excluded;
    if x in visible {
      forall e ensures e in EdgesOf(bound, x.id) <==> e in Around(k, request, edges, x.id) {
        JudgedAround(k, request, edges, excluded, x, e);
      }
      PassingExactly(k, request, edges, excluded, bound, x);
      CandidateExactly(k, request, visible, records, edges, excluded, x);
    }
    hide Select, VerdictOn, Belongs, ReportsFailures, BoundEdges, NotExcluded, EdgeNotExcluded, Around;
  }

  lemma {:induction false} CandidateExactly(k: Knowledge, request: Request, visible: seq<Entity>,
      records: seq<Edge>, edges: seq<Edge>, excluded: set<string>, x: Entity)
    requires request.each && x in visible
    requires forall e :: e in EdgesOf(BoundEdges(k, request, records), x.id) <==> e in Around(k, request, edges, x.id)
    ensures x in Candidates(k, request, visible, records) <==>
      (PerEdgeConditions(request) ==> Around(k, request, edges, x.id) != {})
  {
    BindsExactly(k, request, Edge(None, map[]));
    hide BindsEdges, PerEdgeConditions, Select, Around;
    var bound, around := BoundEdges(k, request, records), Around(k, request, edges, x.id);
    hide BoundEdges;
    if around != {} {
      var e :| e in around;
      assert e in EdgesOf(bound, x.id) && About(x.id)(e) && e in bound;
      assert HasEdge(bound)(x);
    }
    if HasEdge(bound)(x) {
      var e :| e in bound && e.related == Some(x.id);
      assert About(x.id)(e) && e in EdgesOf(bound, x.id);
    }
  }

  lemma {:induction false} PassingExactly(k: Knowledge, request: Request, edges: seq<Edge>, excluded: set<string>,
      bound: seq<Edge>, x: Entity)
    requires request.each
    requires forall e :: e in EdgesOf(bound, x.id) <==> e in Around(k, request, edges, x.id)
    ensures VerdictOn(k, OtherFilters(request), bound, x).Pass? <==>
      forall f | f in request.filters && !(PerEdgeConditions(request) && f.OnRelation?) ::
        Meets(k, f, x, Around(k, request, edges, x.id))
  {
    BindsExactly(k, request, Edge(None, map[]));
    var others, about := OtherFilters(request), Around(k, request, edges, x.id);
    assert forall f :: f in others <==> f in request.filters && !(PerEdgeConditions(request) && f.OnRelation?);
    hide BindsEdges, PerEdgeConditions, Select, Around, OtherFilters, FilterVerdict, Meets, EdgesOf;
    forall f ensures FilterVerdict(k, f, x, EdgesOf(bound, x.id)).Pass? <==> Meets(k, f, x, about) {
      PassesExactly(k, f, x, EdgesOf(bound, x.id), about);
    }
  }

  lemma {:induction false} SelectCount<T(!new)>(items: seq<T>, keep: T -> bool, x: T)
    ensures multiset(Select(items, keep))[x] == if keep(x) then multiset(items)[x] else 0
  {
    if items != [] {
      var most := items[..|items| - 1];
      SelectCount(most, keep, x);
      assert items == most + [items[|items| - 1]];
    }
  }

  /** The reports of failures and then the rows of the entities that the filter stage leaves. */
  ghost predicate AnswersFiltered(k: Knowledge, request: Request, entities: seq<Entity>, edges: seq<Edge>,
      rows: seq<Row>) {
    exists c :: IsCollected(k, request, entities, edges, c)
      && rows == c.failures + Rows(k, request.perEdge, c.entities, c.edges)
  }

  lemma {:induction false} RowShowsAnswer(k: Knowledge, x: Entity, row: Row)
    requires row == RowOf(k, x, row.edges)
    ensures ShowsAnswer(k, x, row)
  {
  }

  /** The edges that the filter stage leaves to an entity that belongs are those around it. */
  lemma {:induction false} LeftAround(k: Knowledge, request: Request, entities: seq<Entity>, edges: seq<Edge>,
      excluded: set<string>, c: Collected, x: Entity)
    requires request.each && x in c.entities
    requires var visible, records := Select(entities, NotExcluded(excluded)), Select(edges, EdgeNotExcluded(excluded));
      IsCollected(k, request, visible, records, c)
    ensures forall e :: e in EdgesOf(c.edges, x.id) <==> e in Around(k, request, edges, x.id)
  {
    var records := Select(edges, EdgeNotExcluded(excluded));
    var bound := BoundEdges(k, request, records);
    KeptExactly(k, request, entities, edges, excluded, c, x);
    forall e ensures e in EdgesOf(c.edges, x.id) <==> e in Around(k, request, edges, x.id) {
      JudgedAround(k, request, edges, excluded, x, e);
      hide BoundEdges, Around, ReportsFailures, Passing, Candidates, Select, NotExcluded, EdgeNotExcluded;
      assert e in EdgesOf(c.edges, x.id) <==> e in c.edges && e.related == Some(x.id);
      assert e in c.edges <==> e in bound && AboutOneOf(c.entities)(e);
    }
  }

  lemma {:induction false} RowIsFor(k: Knowledge, request: Request, entities: seq<Entity>, edges: seq<Edge>,
      excluded: set<string>, c: Collected, x: Entity, row: Row)
    requires request.each && x in c.entities && IsRowOf(k, request.perEdge, c.edges, x, row)
    requires var visible, records := Select(entities, NotExcluded(excluded)), Select(edges, EdgeNotExcluded(excluded));
      IsCollected(k, request, visible, records, c)
    ensures x in entities && IsRowFor(k, request, edges, excluded, x, row)
  {
    KeptExactly(k, request, entities, edges, excluded, c, x);
    LeftAround(k, request, entities, edges, excluded, c, x);
    RowShowsAnswer(k, x, row);
    hide Belongs, ShowsAnswer, RowOf, Around, IsCollected, Select, NotExcluded, EdgeNotExcluded;
    if row.edges == [] {
      assert forall e :: e !in EdgesOf(c.edges, x.id);
    }
  }

  lemma {:induction false} ReportIsOn(k: Knowledge, request: Request, entities: seq<Entity>, edges: seq<Edge>,
      excluded: set<string>, c: Collected, row: Row) returns (x: Entity)
    requires request.each && row in c.failures
    requires var visible, records := Select(entities, NotExcluded(excluded)), Select(edges, EdgeNotExcluded(excluded));
      IsCollected(k, request, visible, records, c)
    ensures x in entities && IsReportOn(k, request, edges, excluded, x, row)
  {
    var visible, records := Select(entities, NotExcluded(excluded)), Select(edges, EdgeNotExcluded(excluded));
    var bound, others := BoundEdges(k, request, records), OtherFilters(request);
    var failing := Select(Candidates(k, request, visible, records), Failing(k, others, bound));
    var i :| 0 <= i < |c.failures| && c.failures[i] == row;
    x := failing[i];
    assert x in failing && x in visible;
    hide FilterVerdict;
    var f := JudgeIsFirst(k, others, x, EdgesOf(bound, x.id));
    forall e ensures e in EdgesOf(bound, x.id) <==> e in Around(k, request, edges, x.id) {
      JudgedAround(k, request, edges, excluded, x, e);
    }
    assert others[f] in others && others[f] in request.filters;
    hide Select, Around, BoundEdges, Candidates;
  }

  lemma {:induction false} ShowsAsked(k: Knowledge, request: Request, entities: seq<Entity>, edges: seq<Edge>,
      excluded: set<string>, c: Collected, e: Edge)
    requires request.each
    requires var visible, records := Select(entities, NotExcluded(excluded)), Select(edges, EdgeNotExcluded(excluded));
      IsCollected(k, request, visible, records, c)
    ensures multiset(Select(c.edges, AboutOneOf(c.entities)))[e]
      == if AsksFor(k, request, entities, edges, excluded, e) then multiset(edges)[e] else 0
  {
    var records := Select(edges, EdgeNotExcluded(excluded));
    var bound := BoundEdges(k, request, records);
    SelectCount(c.edges, AboutOneOf(c.entities), e);
    SelectCount(bound, AboutOneOf(c.entities), e);
    SelectCount(edges, EdgeNotExcluded(excluded), e);
    BoundCount(k, request, records, e);
    AskedExactly(k, request, entities, edges, excluded, c, e);
    hide Select, AsksFor, BoundEdges, ReportsFailures, Passing, Candidates, EdgeNotExcluded, NotExcluded, AboutOneOf;
    if multiset(bound)[e] > 0 {
      assert e in bound;
    }
  }

  lemma {:induction false} BoundCount(k: Knowledge, request: Request, records: seq<Edge>, e: Edge)
    ensures multiset(BoundEdges(k, request, records))[e]
      == if e in BoundEdges(k, request, records) then multiset(records)[e] else 0
  {
    SelectCount(records, Binding(k, Select(request.filters, IsRelational)), e);
    hide Select, Binding;
    assert e in records <==> multiset(records)[e] > 0;
  }

  lemma {:induction false} AskedExactly(k: Knowledge, request: Request, entities: seq<Entity>, edges: seq<Edge>,
      excluded: set<string>, c: Collected, e: Edge)
    requires request.each
    requires var visible, records := Select(entities, NotExcluded(excluded)), Select(edges, EdgeNotExcluded(excluded));
      IsCollected(k, request, visible, records, c)
    ensures AsksFor(k, request, entities, edges, excluded, e) <==> e in c.edges
    ensures e in c.edges ==> AboutOneOf(c.entities)(e)
    ensures e in c.edges ==> EdgeNotExcluded(excluded)(e)
  {
    var records := Select(edges, EdgeNotExcluded(excluded));
    var bound := BoundEdges(k, request, records);
    assert e in bound ==> e in records;
    hide ReportsFailures, Passing, Candidates, Around, Belongs, Select, BoundEdges;
    if e in c.edges {
      var x :| x in c.entities && e.related == Some(x.id);
      KeptExactly(k, request, entities, edges, excluded, c, x);
      LeftAround(k, request, entities, edges, excluded, c, x);
      assert About(x.id)(e) && e in EdgesOf(c.edges, x.id);
    }
    if AsksFor(k, request, entities, edges, excluded, e) {
      var x :| x in entities && Belongs(k, request, edges, excluded, x) && e in Around(k, request, edges, x.id);
      KeptExactly(k, request, entities, edges, excluded, c, x);
      LeftAround(k, request, entities, edges, excluded, c, x);
      assert e in EdgesOf(c.edges, x.id);
    }
  }

  lemma {:induction false} ReportsApart(k: Knowledge, filters: seq<Filter>, edges: seq<Edge>, failing: seq<Entity>,
      rows: seq<Row>)
    requires ReportsFailures(k, filters, edges, failing, rows) && DistinctIds(failing)
    ensures forall i, j | 0 <= i < j < |rows| :: rows[i].about != rows[j].about
    ensures forall row | row in rows :: exists x :: x in failing && x.id == row.about
  {
    hide VerdictOn;
    forall i | 0 <= i < |rows| ensures rows[i].about == failing[i].id {
      var v := VerdictOn(k, filters, edges, failing[i]);
      assert FailureRow(k, failing[i], v.failure) == Ok(rows[i]);
    }
    forall row | row in rows ensures exists x :: x in failing && x.id == row.about {
      var i :| 0 <= i < |rows| && rows[i] == row;
      assert failing[i] in failing;
    }
  }

  lemma SameEntity(entities: seq<Entity>, x: Entity, y: Entity)
    requires DistinctIds(entities) && x in entities && y in entities && x.id == y.id
    ensures x == y
  {
  }

  /** Reports and rows are about different entities. */
  lemma {:induction false} CollectedOneEach(k: Knowledge, request: Request, visible: seq<Entity>, records: seq<Edge>,
      c: Collected)
    requires IsCollected(k, request, visible, records, c) && DistinctIds(visible)
    ensures OneRowEach(request.perEdge, c.failures + Rows(k, request.perEdge, c.entities, c.edges))
  {
    var bound, others := BoundEdges(k, request, records), OtherFilters(request);
    var candidates := Candidates(k, request, visible, records);
    var failing := Select(candidates, Failing(k, others, bound));
    var rows := Rows(k, request.perEdge, c.entities, c.edges);
    hide VerdictOn, BoundEdges, OtherFilters, Select, ReportsFailures, DistinctIds, OneRowEach, Rows, IsRowOf;
    SelectDistinct(visible, HasEdge(bound));
    SelectDistinct(candidates, Failing(k, others, bound));
    CollectedDistinct(k, request, visible, records, c);
    ReportsApart(k, others, bound, failing, c.failures);
    RowsAreOneEach(k, request.perEdge, c.entities, c.edges);
    forall a, b | a in c.failures && b in rows ensures a.about != b.about {
      var x :| x in failing && x.id == a.about;
      var y := RowOrigin(k, request.perEdge, c.entities, c.edges, b);
      RowIsAbout(k, request.perEdge, c.edges, y, b);
      assert Failing(k, others, bound)(x) && Passing(k, others, bound)(y);
      if x.id == y.id {
        SameEntity(candidates, x, y);
        assert false;
      }
    }
    NoneTwice(request.perEdge, c.failures);
    OneRowEachAppend(request.perEdge, c.failures, rows);
  }

  lemma NoneTwice(perEdge: bool, rows: seq<Row>)
    requires forall i, j | 0 <= i < j < |rows| :: rows[i].about != rows[j].about
    ensures OneRowEach(perEdge, rows)
  {
  }

  lemma {:induction false} CollectedShows(k: Knowledge, request: Request, entities: seq<Entity>, edges: seq<Edge>,
      excluded: set<string>, c: Collected, e: Edge)
    requires request.each && DistinctIds(entities)
    requires var visible, records := Select(entities, NotExcluded(excluded)), Select(edges, EdgeNotExcluded(excluded));
      IsCollected(k, request, visible, records, c)
    ensures multiset(Shown(c.failures + Rows(k, request.perEdge, c.entities, c.edges)))[e]
      == if AsksFor(k, request, entities, edges, excluded, e) then multiset(edges)[e] else 0
  {
    var visible, records := Select(entities, NotExcluded(excluded)), Select(edges, EdgeNotExcluded(excluded));
    hide Rows, Shown, DistinctIds, AsksFor, Select, NotExcluded, EdgeNotExcluded, AboutOneOf;
    ShowsAsked(k, request, entities, edges, excluded, c, e);
    SelectDistinct(entities, NotExcluded(excluded));
    CollectedDistinct(k, request, visible, records, c);
    RowsShowEachEdgeOnce(k, request.perEdge, c.entities, c.edges);
    var bound := BoundEdges(k, request, records);
    FailuresShowNothing(k, OtherFilters(request), bound,
      Select(Candidates(k, request, visible, records), Failing(k, OtherFilters(request), bound)), c.failures);
    ShownAppend(c.failures, Rows(k, request.perEdge, c.entities, c.edges));
    assert [] + Shown(Rows(k, request.perEdge, c.entities, c.edges))
      == Shown(Rows(k, request.perEdge, c.entities, c.edges));
  }

  /** What the filter stage leaves and reports is what the query answers. */
  lemma {:induction false} CollectedAnswers(k: Knowledge, request: Request, entities: seq<Entity>, edges: seq<Edge>,
      excluded: set<string>, c: Collected)
    requires request.each
    requires var visible, records := Select(entities, NotExcluded(excluded)), Select(edges, EdgeNotExcluded(excluded));
      IsCollected(k, request, visible, records, c)
    ensures Answers(k, request, entities, edges, excluded,
      c.failures + Rows(k, request.perEdge, c.entities, c.edges))
  {
    hide Rows, Shown, IsRowFor, IsReportOn, DistinctIds, IsCollected, AsksFor, Select, OneRowEach, IsRowOf, Belongs;
    var visible, records := Select(entities, NotExcluded(excluded)), Select(edges, EdgeNotExcluded(excluded));
    var projected := Rows(k, request.perEdge, c.entities, c.edges);
    var rows := c.failures + projected;
    forall row | row in rows
      ensures exists x | x in entities ::
        IsRowFor(k, request, edges, excluded, x, row) || IsReportOn(k, request, edges, excluded, x, row)
    {
      if row in c.failures {
        var x := ReportIsOn(k, request, entities, edges, excluded, c, row);
      } else {
        var x := RowOrigin(k, request.perEdge, c.entities, c.edges, row);
        RowIsFor(k, request, entities, edges, excluded, c, x, row);
      }
    }
    forall x | x in entities && Belongs(k, request, edges, excluded, x)
      ensures exists row :: row in rows && IsRowFor(k, request, edges, excluded, x, row)
    {
      KeptExactly(k, request, entities, edges, excluded, c, x);
      var row := HasRow(k, request.perEdge, c.entities, c.edges, x);
      RowIsFor(k, request, entities, edges, excluded, c, x, row);
      assert row in rows;
    }
    if DistinctIds(entities) {
      SelectDistinct(entities, NotExcluded(excluded));
      CollectedOneEach(k, request, visible, records, c);
      forall e
        ensures multiset(Shown(rows))[e]
          == if AsksFor(k, request, entities, edges, excluded, e) then multiset(edges)[e] else 0
      {
        CollectedShows(k, request, entities, edges, excluded, c, e);
      }
    }
  }

  lemma {:induction false} SelectAll<T(!new)>(items: seq<T>, keep: T -> bool)
    requires forall x | x in items :: keep(x)
    ensures Select(items, keep) == items
  {
    if items != [] {
      SelectAll(items[..|items| - 1], keep);
    }
  }

  lemma {:induction false} SelectNone<T(!new)>(items: seq<T>, keep: T -> bool)
    requires forall x | x in items :: !keep(x)
    ensures Select(items, keep) == []
  {
    if Select(items, keep) != [] {
      assert Select(items, keep)[0] in Select(items, keep);
    }
  }

  /** Edges about none of the entities make no difference to the rows. */
  lemma {:induction false} RowsFromAbout(k: Knowledge, perEdge: bool, some: seq<Entity>, all: seq<Entity>,
      edges: seq<Edge>)
    requires forall x | x in some :: x in all
    ensures Rows(k, perEdge, some, Select(edges, AboutOneOf(all))) == Rows(k, perEdge, some, edges)
  {
    if some != [] {
      hide Select, RowsOfGroups, Groups;
      var x := some[|some| - 1];
      RowsFromAbout(k, perEdge, some[..|some| - 1], all, edges);
      SelectTwice(edges, AboutOneOf(all), About(x.id), About(x.id));
    }
  }

  /** Without filters every visible entity belongs. */
  lemma {:induction false} UnfilteredAnswers(k: Knowledge, request: Request, entities: seq<Entity>, edges: seq<Edge>,
      excluded: set<string>)
    requires request.each && request.filters == []
    ensures Answers(k, request, entities, edges, excluded,
      Rows(k, request.perEdge, Select(entities, NotExcluded(excluded)), Select(edges, EdgeNotExcluded(excluded))))
  {
    var visible, records := Select(entities, NotExcluded(excluded)), Select(edges, EdgeNotExcluded(excluded));
    assert !BindsEdges(request);
    var passing, failing := Passing(k, [], records), Failing(k, [], records);
    SelectAll(visible, passing);
    SelectNone(visible, failing);
    var c := Collected(visible, Select(records, AboutOneOf(visible)), []);
    assert IsCollected(k, request, visible, records, c);
    hide IsCollected, Answers, Rows, Select, NotExcluded, EdgeNotExcluded;
    CollectedAnswers(k, request, entities, edges, excluded, c);
    RowsFromAbout(k, request.perEdge, visible, visible, records);
    var rows := Rows(k, request.perEdge, visible, records);
    assert [] + rows == rows;
  }

  /** A query for rows over resolved entities and relationship records: drop what is excluded,
      filter, project. */
  method ExecuteEach(k: Knowledge, request: Request, entities: seq<Entity>, edges: seq<Edge>, excluded: set<string>)
    returns (r: Result<seq<Row>, Failure>)
    requires request.each
    ensures r.Ok? && request.filters == [] ==>
      r.value
        == Rows(k, request.perEdge, Select(entities, NotExcluded(excluded)), Select(edges, EdgeNotExcluded(excluded)))
    ensures r.Ok? <==>
      request.filters == []
      || Evaluable(k, request, Select(entities, NotExcluded(excluded)), Select(edges, EdgeNotExcluded(excluded)))
    ensures r.Ok? && request.filters != [] ==>
      AnswersFiltered(k, request, Select(entities, NotExcluded(excluded)), Select(edges, EdgeNotExcluded(excluded)),
        r.value)
    ensures r.Ok? ==> Answers(k, request, entities, edges, excluded, r.value)
    ensures r.Ok? && BindsEdges(request) && DistinctIds(entities) ==>
      var visible := Select(entities, NotExcluded(excluded));
      var records := Select(edges, EdgeNotExcluded(excluded));
      multiset(Shown(r.value)) == multiset(Select(records, Wanted(k, request, visible, records)))
  {
    hide Shown, Rows, DistinctIds, IsCollected, Evaluable, EdgeVerdict, VerdictOn, Wanted, NotExcluded, EdgeNotExcluded;
    var visible := Select(entities, NotExcluded(excluded));
    var records := Select(edges, EdgeNotExcluded(excluded));
    hide Answers, Select;
    if request.filters == [] {
      var rows := ProjectEach(k, request.perEdge, visible, records, []);
      UnfilteredAnswers(k, request, entities, edges, excluded);
      assert [] + Rows(k, request.perEdge, visible, records) == Rows(k, request.perEdge, visible, records);
      return Ok(rows);
    }
    var collected := FilterCollection(k, request, visible, records);
    if collected.Err? {
      return Err(collected.error);
    }
    var c := collected.value;
    var rows := ProjectEach(k, request.perEdge, c.entities, c.edges, c.failures);
    CollectedAnswers(k, request, entities, edges, excluded, c);
    CollectedShown(k, request, visible, records, c, rows);
    if DistinctIds(entities) {
      SelectDistinct(entities, NotExcluded(excluded));
    }
    r := Ok(rows);
  }
}
