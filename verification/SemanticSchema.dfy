/** The fragment of JSON Schema the compact transport works on, with its validity. */
module SemanticSchema {
  import opened Text
  import opened Json

  datatype JsonType = TNull | TBool | TInt | TStr | TArr | TObj

  /** `Leaf` is any schema whose values travel unchanged: `holds` are the constraints that its shape
      keeps (pattern, length, bounds), `allowed` is its `enum` or `const`. `Object` is closed. `Items`
      has its `minItems` and `maxItems`. `Tuple` (prefixItems) only occurs in wire schemas. */
  datatype Schema =
    | Leaf(types: set<JsonType>, holds: Json -> bool, allowed: Option<set<Json>>)
    | Object(required: set<string>, properties: map<string, Schema>)
    | Items(item: Schema, least: nat, most: Option<nat>)
    | Tuple(prefix: seq<Schema>, minItems: nat, maxItems: nat)
    | AnyOf(branches: seq<Schema>)
    | Ref(name: string)

  predicate InBounds(n: nat, least: nat, most: Option<nat>) {
    least <= n && (most.Some? ==> n <= most.value)
  }

  function Anything(v: Json): bool { true }

  /** The `$defs` of a schema document. */
  type Defs = map<string, Schema>

  function TypeOf(v: Json): JsonType {
    match v
    case Null => TNull
    case Bool(_) => TBool
    case Num(_) => TInt
    case Str(_) => TStr
    case Arr(_) => TArr
    case Obj(_) => TObj
  }

  /** Does `v` satisfy `s`? `open` holds the definitions not yet entered since the
      last step down into the value: a definition that leads back to itself without
      consuming anything accepts nothing. */
  predicate Valid(v: Json, s: Schema, defs: Defs, open: set<string>)
    decreases v, |open|, s
  {
    match s
    case Leaf(types, holds, allowed) =>
      TypeOf(v) in types && holds(v) && (allowed.Some? ==> v in allowed.value)
    case Object(required, properties) =>
      && v.Obj?
      && required <= v.fields.Keys <= properties.Keys
      && forall k | k in v.fields :: Valid(v.fields[k], properties[k], defs, defs.Keys)
    case Items(item, least, most) =>
      && v.Arr? && InBounds(|v.items|, least, most)
      && forall i | 0 <= i < |v.items| :: Valid(v.items[i], item, defs, defs.Keys)
    case Tuple(prefix, minItems, maxItems) =>
      && v.Arr?
      && minItems <= |v.items| <= maxItems
      && forall i | 0 <= i < |v.items| && i < |prefix| :: Valid(v.items[i], prefix[i], defs, defs.Keys)
    case AnyOf(branches) =>
      exists i | 0 <= i < |branches| :: Valid(v, branches[i], defs, open)
    case Ref(name) =>
      name in open && name in defs && Valid(v, defs[name], defs, open - {name})
  }

  /** The names that the shape drops. */
  const RESERVED := {"enum", "const"}

  /** The schema without `enum` and `const`. The source drops those keys from every
      mapping it meets, so properties with these two names disappear as well. */
  function Shape(s: Schema): Schema {
    match s
    case Leaf(types, holds, _) => Leaf(types, holds, None)
    case Object(required, properties) =>
      Object(required, map k | k in properties && k !in RESERVED :: Shape(properties[k]))
    case Items(item, least, most) => Items(Shape(item), least, most)
    case Tuple(prefix, minItems, maxItems) =>
      Tuple(seq(|prefix|, i requires 0 <= i < |prefix| => Shape(prefix[i])), minItems, maxItems)
    case AnyOf(branches) =>
      AnyOf(seq(|branches|, i requires 0 <= i < |branches| => Shape(branches[i])))
    case Ref(name) => s
  }

  function ShapeDefs(defs: Defs): Defs {
    map n | n in defs && n !in RESERVED :: Shape(defs[n])
  }

  /** More definitions left to enter only admit more. */
  lemma {:induction false} ValidOpens(v: Json, s: Schema, defs: Defs, open: set<string>, more: set<string>)
    requires open <= more && Valid(v, s, defs, open)
    ensures Valid(v, s, defs, more)
    decreases |open|, s
  {
    match s
    case AnyOf(branches) =>
      var i :| 0 <= i < |branches| && Valid(v, branches[i], defs, open);
      ValidOpens(v, branches[i], defs, open, more);
    case Ref(name) =>
      ValidOpens(v, defs[name], defs, open - {name}, more - {name});
    case _ =>
  }

  /** Holding `v` against `s`, no property and no definition called `enum` or `const` is met. */
  predicate NamesKept(v: Json, s: Schema, defs: Defs, open: set<string>)
    decreases v, |open|, s
  {
    match s
    case Leaf(_, _, _) => true
    case Object(_, properties) =>
      v.Obj? && v.fields.Keys <= properties.Keys ==>
        forall k | k in v.fields :: k !in RESERVED && NamesKept(v.fields[k], properties[k], defs, defs.Keys)
    case Items(item, _, _) =>
      v.Arr? ==> forall i | 0 <= i < |v.items| :: NamesKept(v.items[i], item, defs, defs.Keys)
    case Tuple(prefix, _, _) =>
      v.Arr? ==> forall i | 0 <= i < |v.items| && i < |prefix| :: NamesKept(v.items[i], prefix[i], defs, defs.Keys)
    case AnyOf(branches) =>
      forall i | 0 <= i < |branches| && Valid(v, branches[i], defs, open) :: NamesKept(v, branches[i], defs, open)
    case Ref(name) =>
      name in open && name in defs ==> name !in RESERVED && NamesKept(v, defs[name], defs, open - {name})
  }

  /** Dropping value constraints only admits more, as long as no name is lost with them. */
  lemma {:induction false} ShapeAdmits(v: Json, s: Schema, defs: Defs, open: set<string>)
    requires Valid(v, s, defs, open) && NamesKept(v, s, defs, open)
    ensures Valid(v, Shape(s), ShapeDefs(defs), open - RESERVED)
    decreases v, |open|, s
  {
    assert ShapeDefs(defs).Keys == defs.Keys - RESERVED;
    match s
    case Leaf(_, _, _) =>
    case Object(required, properties) =>
      forall k | k in v.fields
        ensures k !in RESERVED && Valid(v.fields[k], Shape(properties[k]), ShapeDefs(defs), ShapeDefs(defs).Keys)
      {
        ShapeAdmits(v.fields[k], properties[k], defs, defs.Keys);
      }
    case Items(item, _, _) =>
      forall i | 0 <= i < |v.items|
        ensures Valid(v.items[i], Shape(item), ShapeDefs(defs), ShapeDefs(defs).Keys)
      {
        ShapeAdmits(v.items[i], item, defs, defs.Keys);
      }
    case Tuple(prefix, _, _) =>
      forall i | 0 <= i < |v.items| && i < |prefix|
        ensures Valid(v.items[i], Shape(prefix[i]), ShapeDefs(defs), ShapeDefs(defs).Keys)
      {
        ShapeAdmits(v.items[i], prefix[i], defs, defs.Keys);
      }
    case AnyOf(branches) =>
      var i :| 0 <= i < |branches| && Valid(v, branches[i], defs, open);
      ShapeAdmits(v, branches[i], defs, open);
      assert Shape(s).branches[i] == Shape(branches[i]);
    case Ref(name) =>
      ShapeAdmits(v, defs[name], defs, open - {name});
      assert open - {name} - RESERVED == open - RESERVED - {name};
  }

  // When no name is lost: by the value, or by the schema.

  /** No object in `v` has a key `enum` or `const`. */
  predicate ReservedFree(v: Json) {
    match v
    case Arr(items) => forall i | 0 <= i < |items| :: ReservedFree(items[i])
    case Obj(fields) => fields.Keys !! RESERVED && forall k | k in fields :: ReservedFree(fields[k])
    case _ => true
  }

  lemma {:induction false} ReservedFreeKeeps(v: Json, s: Schema, defs: Defs, open: set<string>)
    requires ReservedFree(v) && defs.Keys !! RESERVED
    ensures NamesKept(v, s, defs, open)
    decreases v, |open|, s
  {
    match s
    case Leaf(_, _, _) =>
    case Object(_, properties) =>
      if v.Obj? && v.fields.Keys <= properties.Keys {
        forall k | k in v.fields ensures k !in RESERVED && NamesKept(v.fields[k], properties[k], defs, defs.Keys) {
          ReservedFreeKeeps(v.fields[k], properties[k], defs, defs.Keys);
        }
      }
    case Items(item, _, _) =>
      if v.Arr? {
        forall i | 0 <= i < |v.items| ensures NamesKept(v.items[i], item, defs, defs.Keys) {
          ReservedFreeKeeps(v.items[i], item, defs, defs.Keys);
        }
      }
    case Tuple(prefix, _, _) =>
      if v.Arr? {
        forall i | 0 <= i < |v.items| && i < |prefix| ensures NamesKept(v.items[i], prefix[i], defs, defs.Keys) {
          ReservedFreeKeeps(v.items[i], prefix[i], defs, defs.Keys);
        }
      }
    case AnyOf(branches) =>
      forall i | 0 <= i < |branches| ensures NamesKept(v, branches[i], defs, open) {
        ReservedFreeKeeps(v, branches[i], defs, open);
      }
    case Ref(name) =>
      if name in open && name in defs {
        ReservedFreeKeeps(v, defs[name], defs, open - {name});
      }
  }

  /** No property inside `s` is called `enum` or `const`, and its references lead into `below`. */
  predicate PlainInside(s: Schema, below: set<string>) {
    match s
    case Leaf(_, _, _) => true
    case Object(_, properties) =>
      properties.Keys !! RESERVED && forall k | k in properties :: PlainInside(properties[k], below)
    case Items(item, _, _) => PlainInside(item, below)
    case Tuple(prefix, _, _) => forall i | 0 <= i < |prefix| :: PlainInside(prefix[i], below)
    case AnyOf(branches) => forall i | 0 <= i < |branches| :: PlainInside(branches[i], below)
    case Ref(name) => name in below
  }

  /** A set of definitions that are plain and lead only to each other. */
  predicate PlainBelow(defs: Defs, below: set<string>) {
    below !! RESERVED && forall n | n in below && n in defs :: PlainInside(defs[n], below)
  }

  lemma {:induction false} PlainKeeps(v: Json, s: Schema, defs: Defs, open: set<string>, below: set<string>)
    requires PlainInside(s, below) && PlainBelow(defs, below)
    ensures NamesKept(v, s, defs, open)
    decreases v, |open|, s
  {
    match s
    case Leaf(_, _, _) =>
    case Object(_, properties) =>
      if v.Obj? && v.fields.Keys <= properties.Keys {
        forall k | k in v.fields ensures k !in RESERVED && NamesKept(v.fields[k], properties[k], defs, defs.Keys) {
          assert k in properties;
          PlainKeeps(v.fields[k], properties[k], defs, defs.Keys, below);
        }
      }
    case Items(item, _, _) =>
      if v.Arr? {
        forall i | 0 <= i < |v.items| ensures NamesKept(v.items[i], item, defs, defs.Keys) {
          PlainKeeps(v.items[i], item, defs, defs.Keys, below);
        }
      }
    case Tuple(prefix, _, _) =>
      if v.Arr? {
        forall i | 0 <= i < |v.items| && i < |prefix| ensures NamesKept(v.items[i], prefix[i], defs, defs.Keys) {
          PlainKeeps(v.items[i], prefix[i], defs, defs.Keys, below);
        }
      }
    case AnyOf(branches) =>
      forall i | 0 <= i < |branches| ensures NamesKept(v, branches[i], defs, open) {
        PlainKeeps(v, branches[i], defs, open, below);
      }
    case Ref(name) =>
      if name in open && name in defs {
        PlainKeeps(v, defs[name], defs, open - {name}, below);
      }
  }

  // Validity one level at a time.

  lemma {:induction false} ObjectAccepts(fields: map<string, Json>, s: Schema, defs: Defs, open: set<string>)
    requires s.Object? && s.required <= fields.Keys <= s.properties.Keys
    requires forall k | k in fields :: Valid(fields[k], s.properties[k], defs, defs.Keys)
    ensures Valid(Obj(fields), s, defs, open)
  {
  }

  lemma {:induction false} ObjectParts(v: Json, s: Schema, defs: Defs, open: set<string>)
    requires s.Object? && Valid(v, s, defs, open)
    ensures v.Obj? && s.required <= v.fields.Keys <= s.properties.Keys
    ensures forall k | k in v.fields :: Valid(v.fields[k], s.properties[k], defs, defs.Keys)
  {
  }

  lemma {:induction false} TupleAccepts(w: Json, s: Schema, first: seq<Schema>, last: seq<Schema>, defs: Defs,
      open: set<string>)
    requires s == Tuple(first + last, |first|, |first| + |last|)
    requires w.Arr? && |first| <= |w.items| <= |first| + |last|
    requires forall i | 0 <= i < |first| :: Valid(w.items[i], first[i], defs, defs.Keys)
    requires forall i | |first| <= i < |w.items| :: Valid(w.items[i], last[i - |first|], defs, defs.Keys)
    ensures Valid(w, s, defs, open)
  {
  }

  lemma {:induction false} TupleParts(w: Json, s: Schema, first: seq<Schema>, last: seq<Schema>, defs: Defs,
      open: set<string>)
    requires s == Tuple(first + last, |first|, |first| + |last|)
    requires Valid(w, s, defs, open)
    ensures w.Arr? && |first| <= |w.items| <= |first| + |last|
    ensures forall i | 0 <= i < |first| :: Valid(w.items[i], first[i], defs, defs.Keys)
    ensures forall i | |first| <= i < |w.items| :: Valid(w.items[i], last[i - |first|], defs, defs.Keys)
  {
    forall i | 0 <= i < |w.items| ensures Valid(w.items[i], s.prefix[i], defs, defs.Keys) {
    }
  }
}
