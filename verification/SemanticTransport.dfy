/** The compact wire format for semantic plans: closed objects become positional
    arrays with an aliased tail of optional fields. */
module SemanticTransport {
  import opened Text
  import opened Json
  import opened FieldAliases
  import opened SemanticSchema

  /** What a `SemanticTransport` instance keeps: the schema document and the aliases. */
  datatype Codec = Codec(defs: Defs, root: Schema, aliases: map<string, string>, names: map<string, string>)

  const CODEC_VERSION := 5

  /** Replace every key by its entry in `to`. */
  function Renamed(m: map<string, Json>, to: map<string, string>,
      ghost back: map<string, string>): (r: map<string, Json>)
    requires Opposite(to, back) && forall k | k in m :: k in to
    ensures forall k | k in m :: to[k] in r && r[to[k]] == m[k]
    ensures forall a | a in r :: a in back && back[a] in m && r[a] == m[back[a]]
  {
    map k | k in m :: to[k] := m[k]
  }

  /** The values of the required fields, in alphabetical order of their names. */
  function ValuesOf(required: set<string>, fields: map<string, Json>): (values: seq<Json>)
    requires required <= fields.Keys
    ensures |values| == |required|
    ensures forall i | 0 <= i < |values| :: values[i] == fields[Sorted(required)[i]]
  {
    var names := Sorted(required);
    seq(|names|, i requires 0 <= i < |names| => fields[names[i]])
  }

  /** `dict(zip(sorted(required), values))`, ignoring any further values. */
  function Zipped(required: set<string>, values: seq<Json>): (r: map<string, Json>)
    requires |required| <= |values|
    ensures r.Keys == required
    ensures forall k | k in required :: r[k] == values[Position(required, k)]
  {
    map k | k in required :: values[Position(required, k)]
  }

  // ---- The derived wire schema ----

  /** The schemas the constructor accepts: required fields are declared, optional
      ones have an alias, references resolve, and there are no `prefixItems`. */
  predicate Supported(c: Codec, s: Schema)
    decreases s
  {
    match s
    case Leaf(_, _, _) => true
    case Object(required, properties) =>
      && required <= properties.Keys
      && properties.Keys - required <= c.aliases.Keys
      && forall k | k in properties :: Supported(c, properties[k])
    case Items(item, _, _) => Supported(c, item)
    case Tuple(_, _, _) => false
    case AnyOf(branches) => forall i | 0 <= i < |branches| :: Supported(c, branches[i])
    case Ref(name) => name in c.defs
  }

  /** A codec built from a supported document with an alias per field. */
  ghost predicate Built(c: Codec) {
    && Opposite(c.aliases, c.names)
    && Supported(c, c.root)
    && forall n | n in c.defs :: Supported(c, c.defs[n])
  }

  /** The schema derived for the wire form of the values of `s`. */
  function Wire(c: Codec, s: Schema): Schema
    requires Opposite(c.aliases, c.names) && Supported(c, s)
    decreases s, 1
  {
    match s
    case Leaf(_, _, _) => s
    case Object(required, properties) =>
      if properties.Keys - required == {} then Tuple(WireSlots(c, s), |required|, |required|)
      else Tuple(WireSlots(c, s) + [WireTail(c, s)], |required|, |required| + 1)
    case Items(item, least, most) => Items(Wire(c, item), least, most)
    case AnyOf(branches) =>
      AnyOf(seq(|branches|, i requires 0 <= i < |branches| => Wire(c, branches[i])))
    case Ref(_) => s
  }

  /** One slot per required field, in alphabetical order. */
  function WireSlots(c: Codec, s: Schema): (slots: seq<Schema>)
    requires Opposite(c.aliases, c.names) && Supported(c, s) && s.Object?
    ensures |slots| == |s.required|
    ensures forall i | 0 <= i < |slots| :: slots[i] == Wire(c, s.properties[Sorted(s.required)[i]])
    decreases s, 0
  {
    var names := Sorted(s.required);
    seq(|names|, i requires 0 <= i < |names| => Wire(c, s.properties[names[i]]))
  }

  /** The closed object of optional fields under their aliases. */
  function WireTail(c: Codec, s: Schema): (tail: Schema)
    requires Opposite(c.aliases, c.names) && Supported(c, s) && s.Object?
    ensures tail.Object? && tail.required == {}
    ensures forall a | a in tail.properties ::
              a in c.names && c.names[a] in s.properties && c.names[a] !in s.required
    ensures forall k | k in s.properties && k !in s.required ::
              && c.aliases[k] in tail.properties
              && tail.properties[c.aliases[k]] == Wire(c, s.properties[k])
    decreases s, 0
  {
    Object({}, map k | k in s.properties && k !in s.required :: c.aliases[k] := Wire(c, s.properties[k]))
  }

  /** The tail slot exists when there are optional fields. */
  function WireRest(c: Codec, s: Schema): (rest: seq<Schema>)
    requires Opposite(c.aliases, c.names) && Supported(c, s) && s.Object?
    ensures |rest| <= 1
  {
    if s.properties.Keys - s.required == {} then [] else [WireTail(c, s)]
  }

  lemma {:induction false} WireOfObject(c: Codec, s: Schema)
    requires Opposite(c.aliases, c.names) && Supported(c, s) && s.Object?
    ensures Wire(c, s) ==
      Tuple(WireSlots(c, s) + WireRest(c, s), |WireSlots(c, s)|, |WireSlots(c, s)| + |WireRest(c, s)|)
  {
    assert WireSlots(c, s) + [] == WireSlots(c, s);
  }

  function WireDefs(c: Codec): (defs: Defs)
    requires Built(c)
    ensures defs.Keys == c.defs.Keys
  {
    map n | n in c.defs :: Wire(c, c.defs[n])
  }

  /** Is `w` a wire form of schema `s`? */
  predicate WireValid(c: Codec, w: Json, s: Schema, open: set<string>)
    requires Built(c) && Supported(c, s)
  {
    Valid(w, Wire(c, s), WireDefs(c), open)
  }

  /** Following references until a node is none. A name met twice, or one that is not
      defined, has no resolution, and then no value satisfies the reference. */
  method Resolve(defs: Defs, node: Schema, open: set<string>) returns (r: Option<Schema>, rest: set<string>)
    ensures r.Some? ==> !r.value.Ref? && rest <= open
    ensures r.Some? ==> forall v :: Valid(v, node, defs, open) <==> Valid(v, r.value, defs, rest)
    ensures r.None? ==> node.Ref? && forall v :: !Valid(v, node, defs, open)
  {
    var at := node;
    rest := open;
    while at.Ref?
      invariant rest <= open
      invariant forall v :: Valid(v, node, defs, open) <==> Valid(v, at, defs, rest)
      invariant at.Ref? ==> node.Ref?
      decreases |rest|, at.Ref?
    {
      if at.name !in rest || at.name !in defs {
        return None, rest;
      }
      at, rest := defs[at.name], rest - {at.name};
    }
    r := Some(at);
  }

  // ---- Choosing a union branch ----

  predicate ShapeFits(c: Codec, v: Json, s: Schema, open: set<string>) {
    Valid(v, Shape(s), ShapeDefs(c.defs), open)
  }

  /** The value fits the shape and satisfies the real constraints. */
  predicate StrictFits(c: Codec, v: Json, s: Schema, open: set<string>) {
    ShapeFits(c, v, s, open) && Valid(v, s, c.defs, open)
  }

  /** The encoder's choice: the first branch that `v` fits strictly, otherwise the
      first branch whose shape it fits. */
  ghost predicate IsEncodeBranch(c: Codec, v: Json, branches: seq<Schema>, open: set<string>, choice: Option<nat>) {
    match choice
    case None => forall i | 0 <= i < |branches| :: !ShapeFits(c, v, branches[i], open)
    case Some(b) =>
      && b < |branches|
      && ShapeFits(c, v, branches[b], open)
      && (Valid(v, branches[b], c.defs, open) ==> forall i | 0 <= i < b :: !StrictFits(c, v, branches[i], open))
      && (!Valid(v, branches[b], c.defs, open) ==>
            && (forall i | 0 <= i < |branches| :: !StrictFits(c, v, branches[i], open))
            && (forall i | 0 <= i < b :: !ShapeFits(c, v, branches[i], open)))
  }

  function FirstStrict(c: Codec, v: Json, branches: seq<Schema>, open: set<string>, from: nat): (r: nat)
    requires from <= |branches|
    ensures from <= r <= |branches|
    ensures r < |branches| ==> StrictFits(c, v, branches[r], open)
    ensures forall i | from <= i < r :: !StrictFits(c, v, branches[i], open)
    decreases |branches| - from
  {
    if from == |branches| || StrictFits(c, v, branches[from], open)
    then from else FirstStrict(c, v, branches, open, from + 1)
  }

  function FirstShape(c: Codec, v: Json, branches: seq<Schema>, open: set<string>, from: nat): (r: nat)
    requires from <= |branches|
    ensures from <= r <= |branches|
    ensures r < |branches| ==> ShapeFits(c, v, branches[r], open)
    ensures forall i | from <= i < r :: !ShapeFits(c, v, branches[i], open)
    decreases |branches| - from
  {
    if from == |branches| || ShapeFits(c, v, branches[from], open)
    then from else FirstShape(c, v, branches, open, from + 1)
  }

  /** The branch the encoder takes, if any. */
  function EncodeBranch(c: Codec, v: Json, branches: seq<Schema>, open: set<string>): (r: Option<nat>)
    ensures IsEncodeBranch(c, v, branches, open, r)
  {
    var strict := FirstStrict(c, v, branches, open, 0);
    if strict < |branches| then Some(strict)
    else
      var loose := FirstShape(c, v, branches, open, 0);
      if loose < |branches| then Some(loose) else None
  }

  /** The first of the first `n` branches whose shape `v` fits. */
  ghost predicate IsFirstShape(c: Codec, v: Json, branches: seq<Schema>, open: set<string>, n: nat, choice: Option<nat>)
    requires n <= |branches|
  {
    match choice
    case None => forall j | 0 <= j < n :: !ShapeFits(c, v, branches[j], open)
    case Some(b) =>
      && b < n && ShapeFits(c, v, branches[b], open)
      && forall j | 0 <= j < b :: !ShapeFits(c, v, branches[j], open)
  }

  /** The encoder's loop over the branches, remembering the first fallback. */
  method ChooseBranch(c: Codec, v: Json, branches: seq<Schema>, open: set<string>) returns (r: Option<nat>)
    ensures IsEncodeBranch(c, v, branches, open, r)
  {
    var fallback: Option<nat> := None;
    for i := 0 to |branches|
      invariant forall j | 0 <= j < i :: !StrictFits(c, v, branches[j], open)
      invariant IsFirstShape(c, v, branches, open, i, fallback)
    {
      if ShapeFits(c, v, branches[i], open) {
        if Valid(v, branches[i], c.defs, open) {
          return Some(i);
        }
        fallback := if fallback.Some? then fallback else Some(i);
      }
    }
    return fallback;
  }

  /** Both readings of the source agree: the choice is determined. */
  lemma EncodeBranchUnique(c: Codec, v: Json, branches: seq<Schema>, open: set<string>, r: Option<nat>)
    requires IsEncodeBranch(c, v, branches, open, r)
    ensures r == EncodeBranch(c, v, branches, open)
  {
  }

  /** The decoder's choice: the first branch whose wire schema accepts `w`. */
  function DecodeBranch(c: Codec, w: Json, branches: seq<Schema>, open: set<string>, from: nat := 0): (r: Option<nat>)
    requires Built(c) && from <= |branches|
    requires forall i | 0 <= i < |branches| :: Supported(c, branches[i])
    ensures r.Some? ==> from <= r.value < |branches| && WireValid(c, w, branches[r.value], open)
    ensures forall i | from <= i < |branches| && (r.Some? ==> i < r.value) :: !WireValid(c, w, branches[i], open)
    decreases |branches| - from
  {
    if from == |branches| then None
    else if WireValid(c, w, branches[from], open) then Some(from)
    else DecodeBranch(c, w, branches, open, from + 1)
  }

  // ---- Conversion ----

  /** Lay out converted fields: the required ones in order, then one object of the
      optional ones under their aliases, when there are any. */
  function Assembled(c: Codec, required: set<string>, fields: map<string, Json>): Json
    requires Opposite(c.aliases, c.names)
    requires required <= fields.Keys && fields.Keys - required <= c.aliases.Keys
  {
    var tail := fields - required;
    if tail == map[] then Arr(ValuesOf(required, fields))
    else Arr(ValuesOf(required, fields) + [Obj(Renamed(tail, c.aliases, c.names))])
  }

  /** The required fields of a wire object, still encoded. */
  function SlotParts(w: Json, required: set<string>): (r: map<string, Json>)
    requires w.Arr? && |required| <= |w.items|
    ensures r == Zipped(required, w.items) && r.Keys == required
    ensures forall k | k in r :: r[k] < w
  {
    Zipped(required, w.items)
  }

  /** The optional fields of a wire object, still encoded. */
  function TailParts(c: Codec, tail: Json): (r: map<string, Json>)
    requires Opposite(c.aliases, c.names) && tail.Obj? && forall a | a in tail.fields :: a in c.names
    ensures r == Renamed(tail.fields, c.names, c.aliases)
    ensures forall k | k in r :: r[k] < tail
  {
    Renamed(tail.fields, c.names, c.aliases)
  }

  /** Take a wire object apart: field names against still encoded values. The last item is read as
      the tail when there are more items than slots; what stands between is ignored. */
  function Parts(c: Codec, w: Json, required: set<string>, declared: set<string>): (r: Option<map<string, Json>>)
    requires Opposite(c.aliases, c.names)
    ensures r.Some? ==> r.value.Keys <= required + declared
    ensures r.Some? ==> forall k | k in r.value :: r.value[k] < w
  {
    if !w.Arr? || |w.items| < |required| then None
    else if |w.items| == |required| then Some(SlotParts(w, required))
    else
      var last := w.items[|w.items| - 1];
      if !last.Obj? || exists a | a in last.fields :: a !in c.names || c.names[a] !in declared then None
      else Some(SlotParts(w, required) + TailParts(c, last))
  }

  /** What stands in the tail, if there is one. */
  function TailOf(w: Json, required: set<string>): map<string, Json> {
    if w.Arr? && |required| < |w.items| && w.items[|w.items| - 1].Obj?
    then w.items[|w.items| - 1].fields else map[]
  }

  /** A wire object of enough slots, with no tail or a tail of declared fields under their aliases. */
  predicate TakesApart(c: Codec, w: Json, required: set<string>, declared: set<string>) {
    && w.Arr? && |required| <= |w.items|
    && (|required| < |w.items| ==> w.items[|w.items| - 1].Obj?)
    && forall a | a in TailOf(w, required) :: a in c.names && c.names[a] in declared
  }

  lemma {:induction false} TailIsLast(w: Json, required: set<string>)
    requires w.Arr? && |required| <= |w.items|
    ensures |w.items| == |required| ==> TailOf(w, required) == map[]
    ensures |w.items| > |required| && w.items[|w.items| - 1].Obj? ==>
              w.items[|w.items| - 1] == Obj(TailOf(w, required))
  {
  }

  lemma {:induction false} PartsWhenTakenApart(c: Codec, w: Json, required: set<string>, declared: set<string>)
    requires Opposite(c.aliases, c.names)
    ensures Parts(c, w, required, declared).Some? <==> TakesApart(c, w, required, declared)
  {
    hide Opposite, SlotParts, TailParts;
  }

  lemma {:induction false} NothingRenamed(to: map<string, string>, back: map<string, string>)
    requires Opposite(to, back)
    ensures Renamed(map[], to, back) == map[]
  {
  }

  lemma NothingAdded(m: map<string, Json>)
    ensures m + map[] == m
  {
  }

  lemma {:induction false} PartsWithLast(c: Codec, w: Json, required: set<string>, declared: set<string>,
      tail: map<string, Json>)
    requires Opposite(c.aliases, c.names)
    requires w.Arr? && |w.items| > |required| && w.items[|w.items| - 1] == Obj(tail)
    requires forall a | a in tail :: a in c.names && c.names[a] in declared
    ensures Parts(c, w, required, declared) == Some(Zipped(required, w.items) + Renamed(tail, c.names, c.aliases))
  {
    hide Zipped, Opposite;
  }

  lemma {:induction false} PartsAreSlotsAndTail(c: Codec, w: Json, required: set<string>, declared: set<string>)
    requires Opposite(c.aliases, c.names) && TakesApart(c, w, required, declared)
    ensures forall a | a in TailOf(w, required) :: a in c.names
    ensures Parts(c, w, required, declared)
      == Some(Zipped(required, w.items) + Renamed(TailOf(w, required), c.names, c.aliases))
  {
    NothingRenamed(c.names, c.aliases);
    hide Zipped, Opposite, Renamed, Parts, TailOf;
    TailIsLast(w, required);
    if |w.items| == |required| {
      PartsWithoutTail(c, w, required, declared);
      NothingAdded(Zipped(required, w.items));
    } else {
      PartsWithLast(c, w, required, declared, TailOf(w, required));
    }
  }

  /** Which wire objects can be taken apart, and what comes out: what stands in the tail under the
      alias of a field, otherwise what stands in its slot. */
  lemma {:induction false} PartsExactly(c: Codec, w: Json, required: set<string>, declared: set<string>)
    requires Opposite(c.aliases, c.names)
    ensures var parts, tail := Parts(c, w, required, declared), TailOf(w, required);
      && (parts.Some? <==> TakesApart(c, w, required, declared))
      && (parts.Some? ==>
            && (forall k :: k in parts.value <==> k in required || (k in c.aliases && c.aliases[k] in tail))
            && (forall a | a in tail :: parts.value[c.names[a]] == tail[a])
            && forall k | k in required && !(k in c.aliases && c.aliases[k] in tail) ::
                 parts.value[k] == w.items[Position(required, k)])
  {
    hide Parts, Position;
    PartsWhenTakenApart(c, w, required, declared);
    if TakesApart(c, w, required, declared) {
      PartsAreSlotsAndTail(c, w, required, declared);
    }
  }

  lemma {:induction false} RenamedBack(m: map<string, Json>, to: map<string, string>, back: map<string, string>)
    requires Opposite(to, back) && forall k | k in m :: k in to
    ensures Renamed(Renamed(m, to, back), back, to) == m
  {
    var there := Renamed(m, to, back);
    forall k | k in m ensures k in Renamed(there, back, to) {
      assert to[k] in there;
    }
  }

  lemma ZippedValues(required: set<string>, fields: map<string, Json>, rest: seq<Json>, k: string)
    requires required <= fields.Keys && k in required
    ensures Zipped(required, ValuesOf(required, fields) + rest)[k] == fields[k]
  {
    hide Sorted, Position;
    var i := Position(required, k);
    assert (ValuesOf(required, fields) + rest)[i] == ValuesOf(required, fields)[i];
  }

  lemma SlotsBack(required: set<string>, fields: map<string, Json>, rest: seq<Json>)
    requires required <= fields.Keys
    ensures Zipped(required, ValuesOf(required, fields) + rest) + (fields - required) == fields
  {
    hide Sorted, Position, ValuesOf, Zipped;
    forall k | k in required ensures Zipped(required, ValuesOf(required, fields) + rest)[k] == fields[k] {
      ZippedValues(required, fields, rest, k);
    }
  }

  lemma PartsOfLayout(c: Codec, required: set<string>, fields: map<string, Json>, declared: set<string>)
    requires Opposite(c.aliases, c.names)
    requires required <= fields.Keys <= declared && fields.Keys - required <= c.aliases.Keys
    ensures Parts(c, Arr(ValuesOf(required, fields) + [Obj(Renamed(fields - required, c.aliases, c.names))]),
                  required, declared) == Some(fields)
  {
    hide Sorted, Position;
    var tail := fields - required;
    var aliased := Renamed(tail, c.aliases, c.names);
    var w := Arr(ValuesOf(required, fields) + [Obj(aliased)]);
    SlotsBack(required, fields, [Obj(aliased)]);
    RenamedBack(tail, c.aliases, c.names);
    PartsWithLast(c, w, required, declared, aliased);
  }

  lemma PartsWithoutTail(c: Codec, w: Json, required: set<string>, declared: set<string>)
    requires Opposite(c.aliases, c.names) && w.Arr? && |w.items| == |required|
    ensures Parts(c, w, required, declared) == Some(Zipped(required, w.items))
  {
    hide Zipped, Opposite;
  }

  lemma SlotsAlone(required: set<string>, fields: map<string, Json>)
    requires required == fields.Keys
    ensures Zipped(required, ValuesOf(required, fields)) == fields
  {
    hide Sorted, Position, ValuesOf, Zipped;
    assert ValuesOf(required, fields) + [] == ValuesOf(required, fields);
    forall k | k in required ensures Zipped(required, ValuesOf(required, fields))[k] == fields[k] {
      ZippedValues(required, fields, [], k);
    }
  }

  /** Taking apart what was laid out gives the fields back, whatever they are. */
  lemma PartsOfAssembled(c: Codec, required: set<string>, fields: map<string, Json>, declared: set<string>)
    requires Opposite(c.aliases, c.names)
    requires required <= fields.Keys <= declared && fields.Keys - required <= c.aliases.Keys
    ensures Parts(c, Assembled(c, required, fields), required, declared) == Some(fields)
  {
    hide Parts, Zipped, ValuesOf, Renamed, Opposite;
    var slots, tail := ValuesOf(required, fields), fields - required;
    if tail == map[] {
      forall k | k in fields ensures k in required {
        assert k !in required ==> k in tail;
      }
      assert fields.Keys == required;
      SlotsAlone(required, fields);
      PartsWithoutTail(c, Arr(slots), required, declared);
    } else {
      PartsOfLayout(c, required, fields, declared);
    }
  }

  function Encode(c: Codec, v: Json, s: Schema, open: set<string>): Option<Json>
    requires Built(c) && Supported(c, s)
    decreases v, |open|, s
  {
    match s
    case Leaf(_, _, _) => Some(v)
    case Object(required, properties) =>
      if !v.Obj? || !(required <= v.fields.Keys <= properties.Keys) then None
      else
        var fields := AllSomeFields(map k | k in v.fields :: Encode(c, v.fields[k], properties[k], c.defs.Keys));
        if fields.None? then None else Some(Assembled(c, required, fields.value))
    case Items(item, _, _) =>
      if !v.Arr? then None
      else
        var items := AllSome(seq(|v.items|, i requires 0 <= i < |v.items| =>
          Encode(c, v.items[i], item, c.defs.Keys)));
        if items.None? then None else Some(Arr(items.value))
    case AnyOf(branches) =>
      var choice := EncodeBranch(c, v, branches, open);
      if choice.None? then None else Encode(c, v, branches[choice.value], open)
    case Ref(name) =>
      if name in open then Encode(c, v, c.defs[name], open - {name}) else None
  }

  function Decode(c: Codec, w: Json, s: Schema, open: set<string>): Option<Json>
    requires Built(c) && Supported(c, s)
    decreases w, |open|, s
  {
    match s
    case Leaf(_, _, _) => Some(w)
    case Object(required, properties) =>
      var parts := Parts(c, w, required, properties.Keys);
      if parts.None? then None
      else
        var fields := AllSomeFields(map k | k in parts.value ::
          Decode(c, parts.value[k], properties[k], c.defs.Keys));
        if fields.None? then None else Some(Obj(fields.value))
    case Items(item, _, _) =>
      if !w.Arr? then None
      else
        var items := AllSome(seq(|w.items|, i requires 0 <= i < |w.items| =>
          Decode(c, w.items[i], item, c.defs.Keys)));
        if items.None? then None else Some(Arr(items.value))
    case AnyOf(branches) =>
      var choice := DecodeBranch(c, w, branches, open);
      if choice.None? then None else Decode(c, w, branches[choice.value], open)
    case Ref(name) =>
      if name in open then Decode(c, w, c.defs[name], open - {name}) else None
  }

  /** Where the layout of an object has what: the required fields first, in alphabetical order, and
      after them one object of the other fields that there are, under their aliases. */
  ghost predicate IsLayout(c: Codec, required: set<string>, fields: map<string, Json>, w: Json) {
    && w.Arr? && |w.items| == |required| + (if fields.Keys == required then 0 else 1)
    && (forall i | 0 <= i < |required| :: Sorted(required)[i] in fields && w.items[i] == fields[Sorted(required)[i]])
    && (fields.Keys != required ==> IsTail(c, required, fields, w.items[|required|]))
  }

  ghost predicate IsTail(c: Codec, required: set<string>, fields: map<string, Json>, tail: Json) {
    && tail.Obj?
    && (forall k | k in fields && k !in required ::
          k in c.aliases && c.aliases[k] in tail.fields && tail.fields[c.aliases[k]] == fields[k])
    && forall a | a in tail.fields :: a in c.names && c.names[a] in fields && c.names[a] !in required
  }

  lemma {:induction false} AssembledLayout(c: Codec, required: set<string>, fields: map<string, Json>)
    requires Opposite(c.aliases, c.names)
    requires required <= fields.Keys && fields.Keys - required <= c.aliases.Keys
    ensures IsLayout(c, required, fields, Assembled(c, required, fields))
  {
    hide Sorted;
    var tail := fields - required;
    if fields.Keys != required {
      var k :| k in fields && k !in required;
      assert k in tail;
      TailLayout(c, required, fields);
    }
    hide Opposite;
  }

  lemma {:induction false} TailLayout(c: Codec, required: set<string>, fields: map<string, Json>)
    requires Opposite(c.aliases, c.names)
    requires required <= fields.Keys && fields.Keys - required <= c.aliases.Keys
    ensures IsTail(c, required, fields, Obj(Renamed(fields - required, c.aliases, c.names)))
  {
  }

  /** An encoded object is the layout of its encoded fields. */
  lemma {:induction false} EncodedObject(c: Codec, fields: map<string, Json>, s: Schema, open: set<string>)
    returns (parts: map<string, Json>)
    requires Built(c) && Supported(c, s) && s.Object? && Encode(c, Obj(fields), s, open).Some?
    ensures parts.Keys == fields.Keys <= s.properties.Keys
    ensures forall k | k in fields :: Encode(c, fields[k], s.properties[k], c.defs.Keys) == Some(parts[k])
    ensures IsLayout(c, s.required, parts, Encode(c, Obj(fields), s, open).value)
  {
    hide IsLayout, Opposite, Assembled;
    parts := AllSomeFields(map k | k in fields :: Encode(c, fields[k], s.properties[k], c.defs.Keys)).value;
    AssembledLayout(c, s.required, parts);
  }

  /** A list is encoded item by item. */
  lemma {:induction false} EncodedList(c: Codec, items: seq<Json>, s: Schema, open: set<string>)
    requires Built(c) && Supported(c, s) && s.Items?
    ensures var w := Encode(c, Arr(items), s, open);
      w.Some? ==>
        && w.value.Arr? && |w.value.items| == |items|
        && forall i | 0 <= i < |items| :: Encode(c, items[i], s.item, c.defs.Keys) == Some(w.value.items[i])
  {
  }

  // ---- Whole documents ----

  datatype CodecError = InvalidExpanded | NoUnionBranch | UnsupportedVersion | InvalidWire

  /** `encode` up to the canonical text of its result. */
  function EncodeDocument(c: Codec, v: Json): Result<Json, CodecError>
    requires Built(c)
  {
    if !Valid(v, c.root, c.defs, c.defs.Keys) then Err(InvalidExpanded)
    else
      var w := Encode(c, v, c.root, c.defs.Keys);
      if w.None? then Err(NoUnionBranch) else Ok(Arr([Num(CODEC_VERSION), w.value]))
  }

  /** `decode` from the parsed text on. */
  function DecodeDocument(c: Codec, wire: Json): Result<Json, CodecError>
    requires Built(c)
  {
    if !wire.Arr? || |wire.items| != 2 || wire.items[0] != Num(CODEC_VERSION) then Err(UnsupportedVersion)
    else if !WireValid(c, wire.items[1], c.root, c.defs.Keys) then Err(InvalidWire)
    else
      var v := Decode(c, wire.items[1], c.root, c.defs.Keys);
      if v.None? then Err(NoUnionBranch)
      else if !Valid(v.value, c.root, c.defs, c.defs.Keys) then Err(InvalidExpanded)
      else Ok(v.value)
  }
}
