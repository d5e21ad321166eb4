/** What the compact transport promises: encodings satisfy the derived wire schema,
    decoding yields valid values, and exactly when the round trip is the identity. */
module SemanticTransportProofs {
  import opened Text
  import opened Json
  import opened FieldAliases
  import opened SemanticSchema
  import opened SemanticTransport

  // ---- Unions on the encoder's path ----

  /** Some union on the encoder's path has no branch whose shape accepts the part of `v` there. */
  ghost predicate Stuck(c: Codec, v: Json, s: Schema, open: set<string>)
    requires Built(c) && Supported(c, s)
    decreases v, |open|, s
  {
    match s
    case Leaf(_, _, _) => false
    case Object(_, properties) =>
      v.Obj? && v.fields.Keys <= properties.Keys
      && exists k | k in v.fields :: Stuck(c, v.fields[k], properties[k], c.defs.Keys)
    case Items(item, _, _) => v.Arr? && exists i | 0 <= i < |v.items| :: Stuck(c, v.items[i], item, c.defs.Keys)
    case AnyOf(branches) =>
      var b := EncodeBranch(c, v, branches, open);
      if b.None? then true else Stuck(c, v, branches[b.value], open)
    case Ref(name) => name in open && Stuck(c, v, c.defs[name], open - {name})
  }

  /** At every union on its path the encoder takes the first branch that the part there satisfies. */
  ghost predicate Loyal(c: Codec, v: Json, s: Schema, open: set<string>)
    requires Built(c) && Supported(c, s)
    decreases v, |open|, s
  {
    match s
    case Leaf(_, _, _) => true
    case Object(_, properties) =>
      v.Obj? && v.fields.Keys <= properties.Keys ==>
        forall k | k in v.fields :: Loyal(c, v.fields[k], properties[k], c.defs.Keys)
    case Items(item, _, _) => v.Arr? ==> forall i | 0 <= i < |v.items| :: Loyal(c, v.items[i], item, c.defs.Keys)
    case AnyOf(branches) =>
      var b := EncodeBranch(c, v, branches, open);
      && b.Some? && Valid(v, branches[b.value], c.defs, open)
      && (forall i | 0 <= i < b.value :: !Valid(v, branches[i], c.defs, open))
      && Loyal(c, v, branches[b.value], open)
    case Ref(name) => name in open ==> Loyal(c, v, c.defs[name], open - {name})
  }

  /** Valid, or at least of the right shape. */
  ghost predicate Fits(c: Codec, v: Json, s: Schema, open: set<string>) {
    Valid(v, s, c.defs, open) || ShapeFits(c, v, s, open)
  }

  /** The part of a value that fits, where the schema goes one level down. */
  lemma {:induction false} FieldFits(c: Codec, v: Json, s: Schema, open: set<string>, k: string)
    requires s.Object? && Fits(c, v, s, open)
    ensures v.Obj? && s.required <= v.fields.Keys <= s.properties.Keys
    ensures k in v.fields ==> Fits(c, v.fields[k], s.properties[k], c.defs.Keys)
  {
    if k in v.fields && ShapeFits(c, v, s, open) {
      ValidOpens(v.fields[k], Shape(s.properties[k]), ShapeDefs(c.defs), ShapeDefs(c.defs).Keys, c.defs.Keys);
    }
  }

  lemma {:induction false} ItemFits(c: Codec, v: Json, s: Schema, open: set<string>, i: nat)
    requires s.Items? && Fits(c, v, s, open)
    ensures v.Arr?
    ensures i < |v.items| ==> Fits(c, v.items[i], s.item, c.defs.Keys)
  {
    if i < |v.items| && ShapeFits(c, v, s, open) {
      ValidOpens(v.items[i], Shape(s.item), ShapeDefs(c.defs), ShapeDefs(c.defs).Keys, c.defs.Keys);
    }
  }

  lemma {:induction false} RefFits(c: Codec, v: Json, s: Schema, open: set<string>)
    requires Supported(c, s) && s.Ref? && Fits(c, v, s, open)
    ensures s.name in open && Fits(c, v, c.defs[s.name], open - {s.name})
  {
  }

  lemma {:induction false} ShapeIsFit(c: Codec, v: Json, s: Schema, open: set<string>)
    requires ShapeFits(c, v, s, open)
    ensures Fits(c, v, s, open)
  {
  }

  /** An object or a list has no encoding exactly when one of its parts has none. */
  lemma {:induction false} ObjectFails(c: Codec, v: Json, s: Schema, open: set<string>)
    requires Built(c) && Supported(c, s) && s.Object? && v.Obj? && s.required <= v.fields.Keys <= s.properties.Keys
    ensures Encode(c, v, s, open).None? <==>
      exists k | k in v.fields :: Encode(c, v.fields[k], s.properties[k], c.defs.Keys).None?
  {
    hide Sorted, Position, Assembled;
    if Encode(c, v, s, open).Some? {
      forall k | k in v.fields ensures Encode(c, v.fields[k], s.properties[k], c.defs.Keys).Some? {
        var encoded := map k | k in v.fields :: Encode(c, v.fields[k], s.properties[k], c.defs.Keys);
        assert AllSomeFields(encoded).Some? && encoded[k].Some?;
      }
    } else if forall k | k in v.fields :: Encode(c, v.fields[k], s.properties[k], c.defs.Keys).Some? {
      EncodeObject(c, v, s, open);
      assert false;
    }
  }

  lemma {:induction false} ItemsFail(c: Codec, v: Json, s: Schema, open: set<string>)
    requires Built(c) && Supported(c, s) && s.Items? && v.Arr?
    ensures Encode(c, v, s, open).None? <==>
      exists i | 0 <= i < |v.items| :: Encode(c, v.items[i], s.item, c.defs.Keys).None?
  {
    var e := Encode(c, v, s, open);
    if e.Some? {
      forall i | 0 <= i < |v.items| ensures Encode(c, v.items[i], s.item, c.defs.Keys).Some? {
        assert Some(e.value.items[i]) == Encode(c, v.items[i], s.item, c.defs.Keys);
      }
    }
  }

  /** The conversion of a value that fits fails exactly where a union has no branch for it. */
  lemma {:induction false} EncodesUnlessStuck(c: Codec, v: Json, s: Schema, open: set<string>)
    requires Built(c) && Supported(c, s) && Fits(c, v, s, open)
    ensures Encode(c, v, s, open).None? <==> Stuck(c, v, s, open)
    decreases v, |open|, s
  {
    hide Valid, Sorted, Position, Assembled, Fits;
    match s
    case Leaf(_, _, _) =>
    case Object(_, properties) =>
      FieldFits(c, v, s, open, "");
      ObjectFails(c, v, s, open);
      forall k | k in v.fields
        ensures Encode(c, v.fields[k], properties[k], c.defs.Keys).None? <==>
          Stuck(c, v.fields[k], properties[k], c.defs.Keys)
      {
        FieldFits(c, v, s, open, k);
        EncodesUnlessStuck(c, v.fields[k], properties[k], c.defs.Keys);
      }
    case Items(item, _, _) =>
      ItemFits(c, v, s, open, 0);
      ItemsFail(c, v, s, open);
      forall i | 0 <= i < |v.items|
        ensures Encode(c, v.items[i], item, c.defs.Keys).None? <==> Stuck(c, v.items[i], item, c.defs.Keys)
      {
        ItemFits(c, v, s, open, i);
        EncodesUnlessStuck(c, v.items[i], item, c.defs.Keys);
      }
    case AnyOf(branches) =>
      var b := EncodeBranch(c, v, branches, open);
      if b.Some? {
        ShapeIsFit(c, v, branches[b.value], open);
        EncodesUnlessStuck(c, v, branches[b.value], open);
      }
    case Ref(name) =>
      RefFits(c, v, s, open);
      EncodesUnlessStuck(c, v, c.defs[name], open - {name});
  }

  /** Inside a branch whose shape accepts the value nothing is stuck any more: only the first union
      on a path can be. */
  lemma {:induction false} ShapeIsNotStuck(c: Codec, v: Json, s: Schema, open: set<string>)
    requires Built(c) && Supported(c, s) && ShapeFits(c, v, s, open)
    ensures !Stuck(c, v, s, open)
    decreases v, |open|, s
  {
    match s
    case Leaf(_, _, _) =>
    case Object(_, properties) =>
      forall k | k in v.fields && v.fields.Keys <= properties.Keys
        ensures !Stuck(c, v.fields[k], properties[k], c.defs.Keys)
      {
        ValidOpens(v.fields[k], Shape(properties[k]), ShapeDefs(c.defs), ShapeDefs(c.defs).Keys, c.defs.Keys);
        ShapeIsNotStuck(c, v.fields[k], properties[k], c.defs.Keys);
      }
    case Items(item, _, _) =>
      forall i | 0 <= i < |v.items| ensures !Stuck(c, v.items[i], item, c.defs.Keys) {
        ValidOpens(v.items[i], Shape(item), ShapeDefs(c.defs), ShapeDefs(c.defs).Keys, c.defs.Keys);
        ShapeIsNotStuck(c, v.items[i], item, c.defs.Keys);
      }
    case AnyOf(branches) =>
      var i :| 0 <= i < |branches| && Valid(v, Shape(s).branches[i], ShapeDefs(c.defs), open);
      assert ShapeFits(c, v, branches[i], open);
      ShapeIsNotStuck(c, v, branches[EncodeBranch(c, v, branches, open).value], open);
    case Ref(name) =>
      ShapeIsNotStuck(c, v, c.defs[name], open - {name});
  }

  /** At every union on the path, each branch that the part there satisfies keeps its names. */
  ghost predicate UnionsKeepNames(c: Codec, v: Json, s: Schema, open: set<string>)
    requires Built(c) && Supported(c, s)
    decreases v, |open|, s
  {
    match s
    case Leaf(_, _, _) => true
    case Object(_, properties) =>
      v.Obj? && v.fields.Keys <= properties.Keys ==>
        forall k | k in v.fields :: UnionsKeepNames(c, v.fields[k], properties[k], c.defs.Keys)
    case Items(item, _, _) =>
      v.Arr? ==> forall i | 0 <= i < |v.items| :: UnionsKeepNames(c, v.items[i], item, c.defs.Keys)
    case AnyOf(branches) => NamesKept(v, s, c.defs, open)
    case Ref(name) => name in open ==> UnionsKeepNames(c, v, c.defs[name], open - {name})
  }

  lemma {:induction false} NamesKeptInUnions(c: Codec, v: Json, s: Schema, open: set<string>)
    requires Built(c) && Supported(c, s) && NamesKept(v, s, c.defs, open)
    ensures UnionsKeepNames(c, v, s, open)
    decreases v, |open|, s
  {
    match s
    case Object(_, properties) =>
      if v.Obj? && v.fields.Keys <= properties.Keys {
        forall k | k in v.fields ensures UnionsKeepNames(c, v.fields[k], properties[k], c.defs.Keys) {
          NamesKeptInUnions(c, v.fields[k], properties[k], c.defs.Keys);
        }
      }
    case Items(item, _, _) =>
      if v.Arr? {
        forall i | 0 <= i < |v.items| ensures UnionsKeepNames(c, v.items[i], item, c.defs.Keys) {
          NamesKeptInUnions(c, v.items[i], item, c.defs.Keys);
        }
      }
    case Ref(name) =>
      if name in open {
        NamesKeptInUnions(c, v, c.defs[name], open - {name});
      }
    case _ =>
  }

  /** A branch that a value satisfies, and that keeps its names, fits strictly. */
  lemma {:induction false} KeptFitsStrictly(c: Codec, v: Json, s: Schema, open: set<string>)
    requires Valid(v, s, c.defs, open) && NamesKept(v, s, c.defs, open)
    ensures StrictFits(c, v, s, open)
  {
    ShapeAdmits(v, s, c.defs, open);
    ValidOpens(v, Shape(s), ShapeDefs(c.defs), open - RESERVED, open);
  }

  /** Where no name is lost the encoder takes the first branch the value satisfies; the fallback for
      loosely fitting values is never used. */
  lemma {:induction false} StrictChoice(c: Codec, v: Json, s: Schema, open: set<string>)
    requires s.AnyOf? && Valid(v, s, c.defs, open) && NamesKept(v, s, c.defs, open)
    ensures var r := EncodeBranch(c, v, s.branches, open);
      && r.Some? && Valid(v, s.branches[r.value], c.defs, open)
      && forall i | 0 <= i < r.value :: !Valid(v, s.branches[i], c.defs, open)
  {
    forall i | 0 <= i < |s.branches| && Valid(v, s.branches[i], c.defs, open)
      ensures StrictFits(c, v, s.branches[i], open)
    {
      KeptFitsStrictly(c, v, s.branches[i], open);
    }
  }

  /** A valid value whose names are kept is never stuck, and the encoder takes the branches it
      satisfies. */
  lemma {:induction false} KeptIsLoyal(c: Codec, v: Json, s: Schema, open: set<string>)
    requires Built(c) && Supported(c, s) && Valid(v, s, c.defs, open) && UnionsKeepNames(c, v, s, open)
    ensures Loyal(c, v, s, open)
    decreases v, |open|, s
  {
    match s
    case Leaf(_, _, _) =>
    case Object(_, properties) =>
      forall k | k in v.fields ensures Loyal(c, v.fields[k], properties[k], c.defs.Keys) {
        KeptIsLoyal(c, v.fields[k], properties[k], c.defs.Keys);
      }
    case Items(item, _, _) =>
      forall i | 0 <= i < |v.items| ensures Loyal(c, v.items[i], item, c.defs.Keys) {
        KeptIsLoyal(c, v.items[i], item, c.defs.Keys);
      }
    case AnyOf(branches) =>
      StrictChoice(c, v, s, open);
      var b := EncodeBranch(c, v, branches, open).value;
      NamesKeptInUnions(c, v, branches[b], open);
      KeptIsLoyal(c, v, branches[b], open);
    case Ref(name) =>
      KeptIsLoyal(c, v, c.defs[name], open - {name});
  }

  lemma {:induction false} LoyalIsNotStuck(c: Codec, v: Json, s: Schema, open: set<string>)
    requires Built(c) && Supported(c, s) && Loyal(c, v, s, open)
    ensures !Stuck(c, v, s, open)
    decreases v, |open|, s
  {
    hide Valid;
    match s
    case Leaf(_, _, _) =>
    case Object(_, properties) =>
      if v.Obj? && v.fields.Keys <= properties.Keys {
        forall k | k in v.fields ensures !Stuck(c, v.fields[k], properties[k], c.defs.Keys) {
          LoyalIsNotStuck(c, v.fields[k], properties[k], c.defs.Keys);
        }
      }
    case Items(item, _, _) =>
      if v.Arr? {
        forall i | 0 <= i < |v.items| ensures !Stuck(c, v.items[i], item, c.defs.Keys) {
          LoyalIsNotStuck(c, v.items[i], item, c.defs.Keys);
        }
      }
    case AnyOf(branches) =>
      LoyalIsNotStuck(c, v, branches[EncodeBranch(c, v, branches, open).value], open);
    case Ref(name) =>
      if name in open {
        LoyalIsNotStuck(c, v, c.defs[name], open - {name});
      }
  }

  /** A union has no branch for a part that satisfies it only if every branch the part satisfies
      meets a property or a definition called `enum` or `const` in it. */
  lemma {:induction false} StuckMeetsReserved(c: Codec, v: Json, s: Schema, open: set<string>, i: nat)
    requires Built(c) && Supported(c, s) && s.AnyOf? && Stuck(c, v, s, open)
    requires i < |s.branches| && Valid(v, s.branches[i], c.defs, open)
    ensures !NamesKept(v, s.branches[i], c.defs, open)
  {
    if NamesKept(v, s.branches[i], c.defs, open) {
      KeptFitsStrictly(c, v, s.branches[i], open);
      var b := EncodeBranch(c, v, s.branches, open);
      ShapeIsNotStuck(c, v, s.branches[b.value], open);
      assert false;
    }
  }

  // Schemas whose unions lose no names.

  /** Below a union, `s` is plain and its references lead into `below`. */
  predicate UnionsPlain(s: Schema, below: set<string>) {
    match s
    case Object(_, properties) => forall k | k in properties :: UnionsPlain(properties[k], below)
    case Items(item, _, _) => UnionsPlain(item, below)
    case AnyOf(branches) => forall i | 0 <= i < |branches| :: PlainInside(branches[i], below)
    case _ => true
  }

  /** No property or definition that can be reached below a union is called `enum` or `const`;
      `below` are the definitions that can. */
  ghost predicate Plain(c: Codec, s: Schema, below: set<string>) {
    && Built(c) && Supported(c, s) && PlainBelow(c.defs, below)
    && UnionsPlain(s, below) && forall n | n in c.defs :: UnionsPlain(c.defs[n], below)
  }

  lemma {:induction false} PlainKeepsNames(c: Codec, v: Json, s: Schema, open: set<string>, below: set<string>)
    requires Plain(c, s, below)
    ensures UnionsKeepNames(c, v, s, open)
    decreases v, |open|, s
  {
    match s
    case Object(_, properties) =>
      if v.Obj? && v.fields.Keys <= properties.Keys {
        forall k | k in v.fields ensures UnionsKeepNames(c, v.fields[k], properties[k], c.defs.Keys) {
          PlainKeepsNames(c, v.fields[k], properties[k], c.defs.Keys, below);
        }
      }
    case Items(item, _, _) =>
      if v.Arr? {
        forall i | 0 <= i < |v.items| ensures UnionsKeepNames(c, v.items[i], item, c.defs.Keys) {
          PlainKeepsNames(c, v.items[i], item, c.defs.Keys, below);
        }
      }
    case AnyOf(branches) =>
      forall i | 0 <= i < |branches| ensures NamesKept(v, branches[i], c.defs, open) {
        PlainKeeps(v, branches[i], c.defs, open, below);
      }
    case Ref(name) =>
      if name in open {
        PlainKeepsNames(c, v, c.defs[name], open - {name}, below);
      }
    case _ =>
  }

  /** Every valid value of such a schema is encoded under branches it satisfies. */
  lemma {:induction false} PlainIsLoyal(c: Codec, v: Json, s: Schema, open: set<string>, below: set<string>)
    requires Plain(c, s, below) && Valid(v, s, c.defs, open)
    ensures Loyal(c, v, s, open)
  {
    PlainKeepsNames(c, v, s, open, below);
    KeptIsLoyal(c, v, s, open);
  }

  /** Whatever the schema, so is every valid value without a key `enum` or `const`, if no definition
      has such a name. */
  lemma {:induction false} ReservedFreeIsLoyal(c: Codec, v: Json, s: Schema, open: set<string>)
    requires Built(c) && Supported(c, s) && Valid(v, s, c.defs, open)
    requires ReservedFree(v) && c.defs.Keys !! RESERVED
    ensures Loyal(c, v, s, open)
  {
    ReservedFreeKeeps(v, s, c.defs, open);
    NamesKeptInUnions(c, v, s, open);
    KeptIsLoyal(c, v, s, open);
  }

  // ---- Objects ----

  lemma {:induction false} SlotsFitWire(c: Codec, s: Schema, fields: map<string, Json>)
    requires Built(c) && Supported(c, s) && s.Object? && s.required <= fields.Keys <= s.properties.Keys
    requires forall k | k in fields :: WireValid(c, fields[k], s.properties[k], c.defs.Keys)
    ensures forall i | 0 <= i < |s.required| ::
              Valid(ValuesOf(s.required, fields)[i], WireSlots(c, s)[i], WireDefs(c), WireDefs(c).Keys)
  {
    hide Valid, Wire, Sorted;
    var names := Sorted(s.required);
    forall i | 0 <= i < |s.required|
      ensures Valid(ValuesOf(s.required, fields)[i], WireSlots(c, s)[i], WireDefs(c), WireDefs(c).Keys)
    {
      assert WireValid(c, fields[names[i]], s.properties[names[i]], c.defs.Keys);
    }
  }

  lemma {:induction false} LayoutFitsWire(c: Codec, s: Schema, slots: seq<Json>, rest: seq<Json>, open: set<string>)
    requires Built(c) && Supported(c, s) && s.Object?
    requires |slots| == |s.required| && |rest| <= |WireRest(c, s)|
    requires forall i | 0 <= i < |slots| :: Valid(slots[i], WireSlots(c, s)[i], WireDefs(c), WireDefs(c).Keys)
    requires rest != [] ==> Valid(rest[0], WireTail(c, s), WireDefs(c), WireDefs(c).Keys)
    ensures WireValid(c, Arr(slots + rest), s, open)
  {
    hide Valid, Wire, WireSlots, WireTail, Sorted, Supported;
    WireOfObject(c, s);
    var w := Arr(slots + rest);
    forall i | |slots| <= i < |w.items|
      ensures Valid(w.items[i], WireRest(c, s)[i - |slots|], WireDefs(c), WireDefs(c).Keys)
    {
      assert WireRest(c, s) == [WireTail(c, s)];
    }
    TupleAccepts(w, Wire(c, s), WireSlots(c, s), WireRest(c, s), WireDefs(c), open);
  }

  lemma {:induction false} SlotsAloneFitWire(c: Codec, s: Schema, fields: map<string, Json>, open: set<string>)
    requires Built(c) && Supported(c, s) && s.Object? && s.required == fields.Keys
    requires forall k | k in fields :: k in s.properties && WireValid(c, fields[k], s.properties[k], c.defs.Keys)
    ensures WireValid(c, Arr(ValuesOf(s.required, fields)), s, open)
  {
    hide WireValid, WireSlots, WireTail, Sorted;
    SlotsFitWire(c, s, fields);
    var slots := ValuesOf(s.required, fields);
    assert slots + [] == slots;
    LayoutFitsWire(c, s, slots, [], open);
  }

  lemma {:induction false} SlotsAndTailFitWire(c: Codec, s: Schema, fields: map<string, Json>, open: set<string>)
    requires Built(c) && Supported(c, s) && s.Object? && s.required < fields.Keys <= s.properties.Keys
    requires forall k | k in fields :: WireValid(c, fields[k], s.properties[k], c.defs.Keys)
    ensures var tail := Obj(Renamed(fields - s.required, c.aliases, c.names));
      WireValid(c, Arr(ValuesOf(s.required, fields) + [tail]), s, open)
  {
    hide WireValid, WireSlots, WireTail, Sorted, ValuesOf;
    SlotsFitWire(c, s, fields);
    var k :| k in fields && k !in s.required;
    assert k in s.properties.Keys - s.required;
    TailFitsWire(c, s, fields - s.required);
    LayoutFitsWire(c, s, ValuesOf(s.required, fields), [Obj(Renamed(fields - s.required, c.aliases, c.names))], open);
  }

  lemma {:induction false} AssembledFitsWire(c: Codec, s: Schema, fields: map<string, Json>, open: set<string>)
    requires Built(c) && Supported(c, s) && s.Object? && s.required <= fields.Keys <= s.properties.Keys
    requires forall k | k in fields :: WireValid(c, fields[k], s.properties[k], c.defs.Keys)
    ensures WireValid(c, Assembled(c, s.required, fields), s, open)
  {
    hide WireValid, ValuesOf, Renamed;
    if s.required == fields.Keys {
      assert fields - s.required == map[];
      SlotsAloneFitWire(c, s, fields, open);
    } else {
      var k :| k in fields && k !in s.required;
      assert k in fields - s.required;
      SlotsAndTailFitWire(c, s, fields, open);
    }
  }

  lemma {:induction false} TailFitsWire(c: Codec, s: Schema, tail: map<string, Json>)
    requires Built(c) && Supported(c, s) && s.Object? && tail.Keys <= s.properties.Keys - s.required
    requires forall k | k in tail :: WireValid(c, tail[k], s.properties[k], c.defs.Keys)
    ensures Valid(Obj(Renamed(tail, c.aliases, c.names)), WireTail(c, s), WireDefs(c), WireDefs(c).Keys)
  {
    hide Valid, Wire, WireSlots;
    var aliased, wire := Renamed(tail, c.aliases, c.names), WireTail(c, s);
    forall a | a in aliased
      ensures a in wire.properties && Valid(aliased[a], wire.properties[a], WireDefs(c), WireDefs(c).Keys)
    {
      assert WireValid(c, tail[c.names[a]], s.properties[c.names[a]], c.defs.Keys);
    }
    ObjectAccepts(aliased, wire, WireDefs(c), WireDefs(c).Keys);
  }

  lemma {:induction false} WireLayout(c: Codec, w: Json, s: Schema, open: set<string>)
    requires Built(c) && Supported(c, s) && s.Object? && WireValid(c, w, s, open)
    ensures w.Arr? && |s.required| <= |w.items| <= |s.required| + |WireRest(c, s)|
    ensures forall k | k in s.required ::
              WireValid(c, w.items[Position(s.required, k)], s.properties[k], c.defs.Keys)
    ensures |w.items| > |s.required| ==>
              Valid(w.items[|s.required|], WireTail(c, s), WireDefs(c), WireDefs(c).Keys)
  {
    WireOfObject(c, s);
    hide Valid, Wire, WireTail, Sorted, Position;
    TupleParts(w, Wire(c, s), WireSlots(c, s), WireRest(c, s), WireDefs(c), open);
    forall k | k in s.required
      ensures WireValid(c, w.items[Position(s.required, k)], s.properties[k], c.defs.Keys)
    {
      var i := Position(s.required, k);
      assert Valid(w.items[i], WireSlots(c, s)[i], WireDefs(c), WireDefs(c).Keys);
    }
  }

  /** A wire form of an object has its parts, each a wire form of its field. */
  lemma {:induction false} PartsOfWire(c: Codec, w: Json, s: Schema, open: set<string>)
    requires Built(c) && Supported(c, s) && s.Object? && WireValid(c, w, s, open)
    ensures var parts := Parts(c, w, s.required, s.properties.Keys);
      && parts.Some?
      && s.required <= parts.value.Keys <= s.properties.Keys
      && forall k | k in parts.value :: WireValid(c, parts.value[k], s.properties[k], c.defs.Keys)
  {
    WireLayout(c, w, s, open);
    hide WireValid, Sorted, Position;
    if |w.items| > |s.required| {
      PartsOfTail(c, w, s);
    } else {
      hide WireRest;
      PartsWithoutTail(c, w, s.required, s.properties.Keys);
      assert s.required <= s.properties.Keys;
    }
  }

  lemma {:induction false} PartsOfTail(c: Codec, w: Json, s: Schema)
    requires Built(c) && Supported(c, s) && s.Object? && w.Arr? && |w.items| == |s.required| + 1
    requires Valid(w.items[|s.required|], WireTail(c, s), WireDefs(c), WireDefs(c).Keys)
    requires forall k | k in s.required ::
      WireValid(c, w.items[Position(s.required, k)], s.properties[k], c.defs.Keys)
    ensures var parts := Parts(c, w, s.required, s.properties.Keys);
      && parts.Some?
      && s.required <= parts.value.Keys <= s.properties.Keys
      && forall k | k in parts.value :: WireValid(c, parts.value[k], s.properties[k], c.defs.Keys)
  {
    hide Valid, WireValid, WireTail, Sorted, Position, Parts;
    var last := w.items[|s.required|];
    WireTailParts(c, last, s);
    var slots, tail := Zipped(s.required, w.items), Renamed(last.fields, c.names, c.aliases);
    assert w.items[|w.items| - 1] == Obj(last.fields);
    PartsWithLast(c, w, s.required, s.properties.Keys, last.fields);
    forall k | k in slots + tail
      ensures k in s.properties && WireValid(c, (slots + tail)[k], s.properties[k], c.defs.Keys)
    {
      if k in tail {
        assert tail[k] == last.fields[c.aliases[k]];
      }
    }
  }

  lemma {:induction false} WireTailParts(c: Codec, last: Json, s: Schema)
    requires Built(c) && Supported(c, s) && s.Object?
    requires Valid(last, WireTail(c, s), WireDefs(c), WireDefs(c).Keys)
    ensures last.Obj? && last.fields.Keys <= c.names.Keys
    ensures forall a | a in last.fields ::
              && c.names[a] in s.properties && c.names[a] !in s.required
              && WireValid(c, last.fields[a], s.properties[c.names[a]], c.defs.Keys)
  {
    hide Valid, Wire, WireSlots;
    ObjectParts(last, WireTail(c, s), WireDefs(c), WireDefs(c).Keys);
  }

  ghost function EncodedFields(c: Codec, v: Json, s: Schema): (r: map<string, Json>)
    requires Built(c) && Supported(c, s) && s.Object? && v.Obj? && v.fields.Keys <= s.properties.Keys
    requires forall k | k in v.fields :: Encode(c, v.fields[k], s.properties[k], c.defs.Keys).Some?
    ensures r.Keys == v.fields.Keys
  {
    map k | k in v.fields :: Encode(c, v.fields[k], s.properties[k], c.defs.Keys).value
  }

  lemma {:induction false} EncodeObject(c: Codec, v: Json, s: Schema, open: set<string>)
    requires Built(c) && Supported(c, s) && s.Object? && v.Obj? && s.required <= v.fields.Keys <= s.properties.Keys
    requires forall k | k in v.fields :: Encode(c, v.fields[k], s.properties[k], c.defs.Keys).Some?
    ensures Encode(c, v, s, open) == Some(Assembled(c, s.required, EncodedFields(c, v, s)))
  {
    hide Sorted, Position;
    var encoded := map k | k in v.fields :: Encode(c, v.fields[k], s.properties[k], c.defs.Keys);
    assert AllSomeFields(encoded).value == EncodedFields(c, v, s);
  }

  lemma {:induction false} DecodeObject(c: Codec, w: Json, s: Schema, parts: map<string, Json>, open: set<string>)
    requires Built(c) && Supported(c, s) && s.Object?
    requires Parts(c, w, s.required, s.properties.Keys) == Some(parts) && parts.Keys <= s.properties.Keys
    requires forall k | k in parts :: Decode(c, parts[k], s.properties[k], c.defs.Keys).Some?
    ensures var d := Decode(c, w, s, open);
      && d.Some? && d.value.Obj? && d.value.fields.Keys == parts.Keys
      && forall k | k in parts :: Some(d.value.fields[k]) == Decode(c, parts[k], s.properties[k], c.defs.Keys)
  {
    hide Sorted, Position, Parts, Opposite;
  }

  // ---- Encodings satisfy the wire schema ----

  /** `v` has an encoding under `s`, and it is a wire form. */
  ghost predicate Encodes(c: Codec, v: Json, s: Schema, open: set<string>)
    requires Built(c) && Supported(c, s)
  {
    var e := Encode(c, v, s, open);
    e.Some? && WireValid(c, e.value, s, open)
  }

  lemma {:induction false} ObjectEncodes(c: Codec, v: Json, s: Schema, open: set<string>)
    requires Built(c) && Supported(c, s) && s.Object? && v.Obj? && s.required <= v.fields.Keys <= s.properties.Keys
    requires forall k | k in v.fields :: Encodes(c, v.fields[k], s.properties[k], c.defs.Keys)
    ensures Encodes(c, v, s, open)
  {
    EncodeObject(c, v, s, open);
    hide Encode, Valid, Wire, Assembled;
    AssembledFitsWire(c, s, EncodedFields(c, v, s), open);
  }

  lemma {:induction false} ItemsEncode(c: Codec, v: Json, s: Schema, open: set<string>)
    requires Built(c) && Supported(c, s) && s.Items? && v.Arr? && InBounds(|v.items|, s.least, s.most)
    requires forall i | 0 <= i < |v.items| :: Encodes(c, v.items[i], s.item, c.defs.Keys)
    ensures Encodes(c, v, s, open)
  {
  }

  lemma {:induction false} UnionEncodes(c: Codec, v: Json, s: Schema, open: set<string>)
    requires Built(c) && Supported(c, s) && s.AnyOf?
    requires var b := EncodeBranch(c, v, s.branches, open); b.Some? && Encodes(c, v, s.branches[b.value], open)
    ensures Encodes(c, v, s, open)
  {
    var b := EncodeBranch(c, v, s.branches, open).value;
    assert Wire(c, s).branches[b] == Wire(c, s.branches[b]);
  }

  /** Every valid value that is encoded under branches it satisfies has an encoding that satisfies
      the derived wire schema. */
  lemma {:induction false} EncodeFitsWire(c: Codec, v: Json, s: Schema, open: set<string>)
    requires Built(c) && Supported(c, s) && Valid(v, s, c.defs, open) && Loyal(c, v, s, open)
    ensures Encodes(c, v, s, open)
    decreases v, |open|, s
  {
    match s
    case Leaf(_, _, _) =>
    case Object(required, properties) =>
      forall k | k in v.fields ensures Encodes(c, v.fields[k], properties[k], c.defs.Keys) {
        EncodeFitsWire(c, v.fields[k], properties[k], c.defs.Keys);
      }
      ObjectEncodes(c, v, s, open);
    case Items(item, _, _) =>
      forall i | 0 <= i < |v.items| ensures Encodes(c, v.items[i], item, c.defs.Keys) {
        EncodeFitsWire(c, v.items[i], item, c.defs.Keys);
      }
      ItemsEncode(c, v, s, open);
    case AnyOf(branches) =>
      EncodeFitsWire(c, v, branches[EncodeBranch(c, v, branches, open).value], open);
      UnionEncodes(c, v, s, open);
    case Ref(name) =>
      EncodeFitsWire(c, v, c.defs[name], open - {name});
  }

  // ---- Decoding yields valid values ----

  /** `w` decodes under `s`, to a valid value. */
  ghost predicate Decodes(c: Codec, w: Json, s: Schema, open: set<string>)
    requires Built(c) && Supported(c, s)
  {
    var d := Decode(c, w, s, open);
    d.Some? && Valid(d.value, s, c.defs, open)
  }

  lemma {:induction false} ObjectDecodes(c: Codec, w: Json, s: Schema, parts: map<string, Json>, open: set<string>)
    requires Built(c) && Supported(c, s) && s.Object?
    requires Parts(c, w, s.required, s.properties.Keys) == Some(parts)
    requires s.required <= parts.Keys <= s.properties.Keys
    requires forall k | k in parts :: Decodes(c, parts[k], s.properties[k], c.defs.Keys)
    ensures Decodes(c, w, s, open)
  {
    DecodeObject(c, w, s, parts, open);
    hide Decode, Valid;
    ObjectAccepts(Decode(c, w, s, open).value.fields, s, c.defs, open);
  }

  lemma {:induction false} ItemsDecode(c: Codec, w: Json, s: Schema, open: set<string>)
    requires Built(c) && Supported(c, s) && s.Items? && w.Arr? && InBounds(|w.items|, s.least, s.most)
    requires forall i | 0 <= i < |w.items| :: Decodes(c, w.items[i], s.item, c.defs.Keys)
    ensures Decodes(c, w, s, open)
  {
  }

  lemma {:induction false} UnionDecodes(c: Codec, w: Json, s: Schema, open: set<string>)
    requires Built(c) && Supported(c, s) && s.AnyOf? && WireValid(c, w, s, open)
    requires forall i | 0 <= i < |s.branches| && WireValid(c, w, s.branches[i], open) ::
               Decodes(c, w, s.branches[i], open)
    ensures Decodes(c, w, s, open)
  {
    var j :| 0 <= j < |s.branches| && Valid(w, Wire(c, s).branches[j], WireDefs(c), open);
    hide Wire, WireDefs;
    assert WireValid(c, w, s.branches[j], open);
    var b := DecodeBranch(c, w, s.branches, open).value;
    assert Decodes(c, w, s.branches[b], open);
  }

  /** Whatever satisfies the wire schema decodes, and the result is valid. No union
      needs to be unambiguous for this. */
  lemma {:induction false} DecodeIsValid(c: Codec, w: Json, s: Schema, open: set<string>)
    requires Built(c) && Supported(c, s) && WireValid(c, w, s, open)
    ensures Decodes(c, w, s, open)
    decreases w, |open|, s
  {
    match s
    case Leaf(_, _, _) =>
    case Object(required, properties) =>
      PartsOfWire(c, w, s, open);
      var parts := Parts(c, w, required, properties.Keys).value;
      forall k | k in parts ensures Decodes(c, parts[k], properties[k], c.defs.Keys) {
        DecodeIsValid(c, parts[k], properties[k], c.defs.Keys);
      }
      ObjectDecodes(c, w, s, parts, open);
    case Items(item, _, _) =>
      forall i | 0 <= i < |w.items| ensures Decodes(c, w.items[i], item, c.defs.Keys) {
        DecodeIsValid(c, w.items[i], item, c.defs.Keys);
      }
      ItemsDecode(c, w, s, open);
    case AnyOf(branches) =>
      forall i | 0 <= i < |branches| && WireValid(c, w, branches[i], open)
        ensures Decodes(c, w, branches[i], open)
      {
        DecodeIsValid(c, w, branches[i], open);
      }
      UnionDecodes(c, w, s, open);
    case Ref(name) =>
      DecodeIsValid(c, w, c.defs[name], open - {name});
  }

  // ---- The round trip ----

  /** At every union on the way through `v`, the decoder's first accepting branch is the
      branch the encoder took. */
  ghost predicate BranchesAgree(c: Codec, v: Json, s: Schema, open: set<string>)
    requires Built(c) && Supported(c, s)
    decreases v, |open|, s
  {
    match s
    case Leaf(_, _, _) => true
    case Object(_, properties) =>
      v.Obj? && v.fields.Keys <= properties.Keys
      && forall k | k in v.fields :: BranchesAgree(c, v.fields[k], properties[k], c.defs.Keys)
    case Items(item, _, _) =>
      v.Arr? && forall i | 0 <= i < |v.items| :: BranchesAgree(c, v.items[i], item, c.defs.Keys)
    case AnyOf(branches) =>
      var b := EncodeBranch(c, v, branches, open);
      && b.Some?
      && var w := Encode(c, v, branches[b.value], open);
      && w.Some? && DecodeBranch(c, w.value, branches, open) == b
      && BranchesAgree(c, v, branches[b.value], open)
    case Ref(name) =>
      name in open && BranchesAgree(c, v, c.defs[name], open - {name})
  }

  /** Decoding the encoding, when there is one. */
  function ThereAndBack(c: Codec, v: Json, s: Schema, open: set<string>): Option<Json>
    requires Built(c) && Supported(c, s)
  {
    var w := Encode(c, v, s, open);
    if w.None? then None else Decode(c, w.value, s, open)
  }

  /** What the induction supplies for one part of a value. */
  ghost predicate PartRoundTrips(c: Codec, v: Json, s: Schema)
    requires Built(c) && Supported(c, s)
  {
    && Encode(c, v, s, c.defs.Keys).Some?
    && ThereAndBack(c, v, s, c.defs.Keys).Some?
    && (ThereAndBack(c, v, s, c.defs.Keys) == Some(v) <==> BranchesAgree(c, v, s, c.defs.Keys))
  }

  /** An object comes back field by field. */
  lemma {:induction false} ObjectThereAndBack(c: Codec, v: Json, s: Schema, open: set<string>)
    requires Built(c) && Supported(c, s) && s.Object? && v.Obj? && s.required <= v.fields.Keys <= s.properties.Keys
    requires forall k | k in v.fields :: Encode(c, v.fields[k], s.properties[k], c.defs.Keys).Some?
    requires forall k | k in v.fields :: ThereAndBack(c, v.fields[k], s.properties[k], c.defs.Keys).Some?
    ensures var back := ThereAndBack(c, v, s, open);
      && back.Some? && back.value.Obj? && back.value.fields.Keys == v.fields.Keys
      && forall k | k in v.fields ::
           Some(back.value.fields[k]) == ThereAndBack(c, v.fields[k], s.properties[k], c.defs.Keys)
  {
    EncodeObject(c, v, s, open);
    var fields := EncodedFields(c, v, s);
    PartsOfAssembled(c, s.required, fields, s.properties.Keys);
    forall k | k in fields
      ensures Decode(c, fields[k], s.properties[k], c.defs.Keys)
           == ThereAndBack(c, v.fields[k], s.properties[k], c.defs.Keys)
    {
    }
    hide Encode, Sorted, Position, Assembled;
    DecodeObject(c, Assembled(c, s.required, fields), s, fields, open);
  }

  lemma {:induction false} ObjectRoundTripIff(c: Codec, v: Json, s: Schema, open: set<string>)
    requires Built(c) && Supported(c, s) && s.Object? && v.Obj? && s.required <= v.fields.Keys <= s.properties.Keys
    requires forall k | k in v.fields :: PartRoundTrips(c, v.fields[k], s.properties[k])
    ensures ThereAndBack(c, v, s, open) == Some(v) <==> BranchesAgree(c, v, s, open)
  {
    hide Encode, Decode, Sorted, Position;
    forall k | k in v.fields
      ensures Encode(c, v.fields[k], s.properties[k], c.defs.Keys).Some?
      ensures ThereAndBack(c, v.fields[k], s.properties[k], c.defs.Keys).Some?
    {
      assert PartRoundTrips(c, v.fields[k], s.properties[k]);
    }
    ObjectThereAndBack(c, v, s, open);
    var back := ThereAndBack(c, v, s, open).value.fields;
    forall k | k in v.fields
      ensures back[k] == v.fields[k] <==> BranchesAgree(c, v.fields[k], s.properties[k], c.defs.Keys)
    {
      assert PartRoundTrips(c, v.fields[k], s.properties[k]);
    }
    assert (forall k | k in v.fields :: back[k] == v.fields[k]) <==> back == v.fields;
  }

  lemma {:induction false} ItemsThereAndBack(c: Codec, v: Json, s: Schema, open: set<string>)
    requires Built(c) && Supported(c, s) && s.Items? && v.Arr?
    requires forall i | 0 <= i < |v.items| :: Encode(c, v.items[i], s.item, c.defs.Keys).Some?
    requires forall i | 0 <= i < |v.items| :: ThereAndBack(c, v.items[i], s.item, c.defs.Keys).Some?
    ensures var back := ThereAndBack(c, v, s, open);
      && back.Some? && back.value.Arr? && |back.value.items| == |v.items|
      && forall i | 0 <= i < |v.items| ::
           Some(back.value.items[i]) == ThereAndBack(c, v.items[i], s.item, c.defs.Keys)
  {
  }

  lemma {:induction false} ItemsRoundTripIff(c: Codec, v: Json, s: Schema, open: set<string>)
    requires Built(c) && Supported(c, s) && s.Items? && v.Arr?
    requires forall i | 0 <= i < |v.items| :: PartRoundTrips(c, v.items[i], s.item)
    ensures ThereAndBack(c, v, s, open) == Some(v) <==> BranchesAgree(c, v, s, open)
  {
    hide Encode, Decode;
    forall i | 0 <= i < |v.items|
      ensures Encode(c, v.items[i], s.item, c.defs.Keys).Some?
      ensures ThereAndBack(c, v.items[i], s.item, c.defs.Keys).Some?
    {
      assert PartRoundTrips(c, v.items[i], s.item);
    }
    ItemsThereAndBack(c, v, s, open);
    var back := ThereAndBack(c, v, s, open).value.items;
    forall i | 0 <= i < |v.items|
      ensures back[i] == v.items[i] <==> BranchesAgree(c, v.items[i], s.item, c.defs.Keys)
    {
      assert PartRoundTrips(c, v.items[i], s.item);
    }
    assert (forall i | 0 <= i < |v.items| :: back[i] == v.items[i]) <==> back == v.items;
  }

  lemma {:induction false} UnionRoundTripIff(c: Codec, v: Json, s: Schema, open: set<string>)
    requires Built(c) && Supported(c, s) && s.AnyOf? && Valid(v, s, c.defs, open) && Loyal(c, v, s, open)
    requires var b := EncodeBranch(c, v, s.branches, open).value;
      ThereAndBack(c, v, s.branches[b], open) == Some(v) <==> BranchesAgree(c, v, s.branches[b], open)
    ensures ThereAndBack(c, v, s, open) == Some(v) <==> BranchesAgree(c, v, s, open)
  {
    hide Sorted, Position;
    var b := EncodeBranch(c, v, s.branches, open).value;
    EncodeFitsWire(c, v, s.branches[b], open);
    var w := Encode(c, v, s.branches[b], open).value;
    assert WireValid(c, w, s.branches[b], open);
    var d := DecodeBranch(c, w, s.branches, open).value;
    if d != b {
      // The decoder's branch yields a value that `v` is not, for `v` does not satisfy it.
      DecodeIsValid(c, w, s.branches[d], open);
    }
  }

  /** For a valid value that is encoded under branches it satisfies, decoding the encoding gives it
      back exactly when the two converters agree on every branch. */
  lemma {:induction false} RoundTripIff(c: Codec, v: Json, s: Schema, open: set<string>)
    requires Built(c) && Supported(c, s) && Valid(v, s, c.defs, open) && Loyal(c, v, s, open)
    ensures ThereAndBack(c, v, s, open) == Some(v) <==> BranchesAgree(c, v, s, open)
    decreases v, |open|, s
  {
    match s
    case Leaf(_, _, _) =>
    case Object(required, properties) =>
      forall k | k in v.fields ensures PartRoundTrips(c, v.fields[k], properties[k]) {
        PartThereAndBack(c, v.fields[k], properties[k]);
        RoundTripIff(c, v.fields[k], properties[k], c.defs.Keys);
      }
      ObjectRoundTripIff(c, v, s, open);
    case Items(item, _, _) =>
      forall i | 0 <= i < |v.items| ensures PartRoundTrips(c, v.items[i], item) {
        PartThereAndBack(c, v.items[i], item);
        RoundTripIff(c, v.items[i], item, c.defs.Keys);
      }
      ItemsRoundTripIff(c, v, s, open);
    case AnyOf(branches) =>
      RoundTripIff(c, v, branches[EncodeBranch(c, v, branches, open).value], open);
      UnionRoundTripIff(c, v, s, open);
    case Ref(name) =>
      RoundTripIff(c, v, c.defs[name], open - {name});
  }

  lemma {:induction false} PartThereAndBack(c: Codec, v: Json, s: Schema)
    requires Built(c) && Supported(c, s) && Valid(v, s, c.defs, c.defs.Keys) && Loyal(c, v, s, c.defs.Keys)
    ensures Encode(c, v, s, c.defs.Keys).Some? && ThereAndBack(c, v, s, c.defs.Keys).Some?
  {
    EncodeFitsWire(c, v, s, c.defs.Keys);
    DecodeIsValid(c, Encode(c, v, s, c.defs.Keys).value, s, c.defs.Keys);
  }

  // Whatever the schema, agreement is enough.

  lemma {:induction false} AgreeingIsNotStuck(c: Codec, v: Json, s: Schema, open: set<string>)
    requires Built(c) && Supported(c, s) && BranchesAgree(c, v, s, open)
    ensures !Stuck(c, v, s, open)
    decreases v, |open|, s
  {
    hide Valid, Sorted, Position;
    match s
    case Leaf(_, _, _) =>
    case Object(_, properties) =>
      forall k | k in v.fields ensures !Stuck(c, v.fields[k], properties[k], c.defs.Keys) {
        AgreeingIsNotStuck(c, v.fields[k], properties[k], c.defs.Keys);
      }
    case Items(item, _, _) =>
      forall i | 0 <= i < |v.items| ensures !Stuck(c, v.items[i], item, c.defs.Keys) {
        AgreeingIsNotStuck(c, v.items[i], item, c.defs.Keys);
      }
    case AnyOf(branches) =>
      AgreeingIsNotStuck(c, v, branches[EncodeBranch(c, v, branches, open).value], open);
    case Ref(name) =>
      AgreeingIsNotStuck(c, v, c.defs[name], open - {name});
  }

  lemma {:induction false} PartAgrees(c: Codec, v: Json, s: Schema)
    requires Built(c) && Supported(c, s) && Fits(c, v, s, c.defs.Keys) && BranchesAgree(c, v, s, c.defs.Keys)
    requires ThereAndBack(c, v, s, c.defs.Keys) == Some(v)
    ensures PartRoundTrips(c, v, s)
  {
    AgreeingIsNotStuck(c, v, s, c.defs.Keys);
    EncodesUnlessStuck(c, v, s, c.defs.Keys);
  }

  /** Any value that fits comes back if the converters agree, over any schema: nothing need be asked
      of names. */
  lemma {:induction false} AgreeingRoundTrips(c: Codec, v: Json, s: Schema, open: set<string>)
    requires Built(c) && Supported(c, s) && Fits(c, v, s, open) && BranchesAgree(c, v, s, open)
    ensures ThereAndBack(c, v, s, open) == Some(v)
    decreases v, |open|, s
  {
    hide Valid, Sorted, Position;
    match s
    case Leaf(_, _, _) =>
    case Object(_, properties) =>
      FieldFits(c, v, s, open, "");
      forall k | k in v.fields ensures PartRoundTrips(c, v.fields[k], properties[k]) {
        FieldFits(c, v, s, open, k);
        AgreeingRoundTrips(c, v.fields[k], properties[k], c.defs.Keys);
        PartAgrees(c, v.fields[k], properties[k]);
      }
      ObjectRoundTripIff(c, v, s, open);
    case Items(item, _, _) =>
      ItemFits(c, v, s, open, 0);
      forall i | 0 <= i < |v.items| ensures PartRoundTrips(c, v.items[i], item) {
        ItemFits(c, v, s, open, i);
        AgreeingRoundTrips(c, v.items[i], item, c.defs.Keys);
        PartAgrees(c, v.items[i], item);
      }
      ItemsRoundTripIff(c, v, s, open);
    case AnyOf(branches) =>
      var b := EncodeBranch(c, v, branches, open).value;
      assert Fits(c, v, branches[b], open);
      AgreeingRoundTrips(c, v, branches[b], open);
    case Ref(name) =>
      RefFits(c, v, s, open);
      AgreeingRoundTrips(c, v, c.defs[name], open - {name});
  }

  /** The encoding of a valid value on which the converters agree satisfies the wire schema. */
  lemma {:induction false} AgreeingFitsWire(c: Codec, v: Json, s: Schema, open: set<string>)
    requires Built(c) && Supported(c, s) && Valid(v, s, c.defs, open) && BranchesAgree(c, v, s, open)
    ensures Encodes(c, v, s, open)
    decreases v, |open|, s
  {
    match s
    case Leaf(_, _, _) =>
    case Object(_, properties) =>
      forall k | k in v.fields ensures Encodes(c, v.fields[k], properties[k], c.defs.Keys) {
        AgreeingFitsWire(c, v.fields[k], properties[k], c.defs.Keys);
      }
      ObjectEncodes(c, v, s, open);
    case Items(item, _, _) =>
      forall i | 0 <= i < |v.items| ensures Encodes(c, v.items[i], item, c.defs.Keys) {
        AgreeingFitsWire(c, v.items[i], item, c.defs.Keys);
      }
      ItemsEncode(c, v, s, open);
    case AnyOf(branches) =>
      UnionEncodes(c, v, s, open);
    case Ref(name) =>
      AgreeingFitsWire(c, v, c.defs[name], open - {name});
  }

  // ---- Schemas on which every value round-trips ----

  /** No encoding made under `b` passes for a wire form of the earlier branch `a`,
      except for values that satisfy `a` anyway. */
  ghost predicate Separated(c: Codec, a: Schema, b: Schema)
    requires Built(c) && Supported(c, a) && Supported(c, b)
  {
    forall v, w, open |
      && Valid(v, b, c.defs, open) && Loyal(c, v, b, open)
      && Encode(c, v, b, open) == Some(w)
      && WireValid(c, w, a, open)
      :: Valid(v, a, c.defs, open)
  }

  ghost predicate DisjointWire(c: Codec, a: Schema, b: Schema)
    requires Built(c) && Supported(c, a) && Supported(c, b)
  {
    forall w, open :: !(WireValid(c, w, a, open) && WireValid(c, w, b, open))
  }

  lemma {:induction false} DisjointIsSeparated(c: Codec, a: Schema, b: Schema)
    requires Built(c) && Supported(c, a) && Supported(c, b) && DisjointWire(c, a, b)
    ensures Separated(c, a, b)
  {
    forall v, w, open | Valid(v, b, c.defs, open) && Loyal(c, v, b, open) && Encode(c, v, b, open) == Some(w)
      ensures !WireValid(c, w, a, open)
    {
      EncodeFitsWire(c, v, b, open);
      assert WireValid(c, w, b, open);
    }
  }

  /** Overlapping scalar branches, such as integer and number, are harmless. */
  lemma LeavesAreSeparated(c: Codec, a: Schema, b: Schema)
    requires Built(c) && a.Leaf? && b.Leaf?
    ensures Separated(c, a, b)
  {
  }

  /** Objects whose numbers of slots cannot coincide have disjoint wire forms. */
  lemma {:induction false} LayoutsDisjoint(c: Codec, a: Schema, b: Schema)
    requires Built(c) && Supported(c, a) && Supported(c, b) && a.Object? && b.Object?
    requires |a.required| + |WireRest(c, a)| < |b.required| || |b.required| + |WireRest(c, b)| < |a.required|
    ensures DisjointWire(c, a, b)
  {
    hide WireValid, WireRest;
    forall w, open | WireValid(c, w, a, open) ensures !WireValid(c, w, b, open) {
      WireLayout(c, w, a, open);
      if WireValid(c, w, b, open) {
        WireLayout(c, w, b, open);
        assert false;
      }
    }
  }

  /** A scalar that is no array never passes for an object, nor an object for it. */
  lemma {:induction false} ScalarsDisjoint(c: Codec, a: Schema, b: Schema)
    requires Built(c) && a.Leaf? && TArr !in a.types && Supported(c, b) && b.Object?
    ensures DisjointWire(c, a, b) && DisjointWire(c, b, a)
  {
    forall w, open | WireValid(c, w, b, open) ensures !WireValid(c, w, a, open) {
      WireLayout(c, w, b, open);
    }
  }

  /** Two objects with a required field at the same slot whose wire forms are disjoint have disjoint
      wire forms: this is how a tag in one field tells branches apart. */
  lemma {:induction false} SlotsDisjoint(c: Codec, a: Schema, b: Schema, j: string, k: string)
    requires Built(c) && Supported(c, a) && Supported(c, b) && a.Object? && b.Object?
    requires j in a.required && k in b.required && Position(a.required, j) == Position(b.required, k)
    requires DisjointWire(c, a.properties[j], b.properties[k])
    ensures DisjointWire(c, a, b)
  {
    hide WireValid, WireRest, Position;
    forall w, open | WireValid(c, w, a, open) ensures !WireValid(c, w, b, open) {
      WireLayout(c, w, a, open);
      if WireValid(c, w, b, open) {
        WireLayout(c, w, b, open);
        assert false;
      }
    }
  }

  /** Constants and enumerations without a common value are disjoint. */
  lemma {:induction false} EnumsDisjoint(c: Codec, a: Schema, b: Schema)
    requires Built(c) && a.Leaf? && b.Leaf? && a.allowed.Some? && b.allowed.Some?
    requires a.allowed.value !! b.allowed.value
    ensures DisjointWire(c, a, b)
  {
  }

  /** Nor does a scalar that is no array pass for a list. */
  lemma {:induction false} ListsDisjoint(c: Codec, a: Schema, b: Schema)
    requires Built(c) && a.Leaf? && TArr !in a.types && Supported(c, b) && b.Items?
    ensures DisjointWire(c, a, b) && DisjointWire(c, b, a)
  {
  }

  lemma {:induction false} DisjointBack(c: Codec, a: Schema, b: Schema)
    requires Built(c) && Supported(c, a) && Supported(c, b) && DisjointWire(c, a, b)
    ensures DisjointWire(c, b, a)
  {
    hide WireValid;
  }

  ghost predicate NeverObject(c: Codec, s: Schema)
    requires Built(c) && Supported(c, s)
  {
    forall w, open | WireValid(c, w, s, open) :: !w.Obj?
  }

  /** An object has no wire form in common with one that has more slots, if the one that meets the
      tail of the first is never an object. */
  lemma {:induction false} TailsDisjoint(c: Codec, a: Schema, b: Schema, k: string)
    requires Built(c) && Supported(c, a) && Supported(c, b) && a.Object? && b.Object?
    requires k in b.required && Position(b.required, k) == |a.required| && NeverObject(c, b.properties[k])
    ensures DisjointWire(c, a, b)
  {
    hide WireValid, WireRest, Position, WireTail;
    forall w, open | WireValid(c, w, a, open) ensures !WireValid(c, w, b, open) {
      WireLayout(c, w, a, open);
      if WireValid(c, w, b, open) {
        WireLayout(c, w, b, open);
        ObjectParts(w.items[|a.required|], WireTail(c, a), WireDefs(c), WireDefs(c).Keys);
        assert false;
      }
    }
  }

  /** A schema that is neither a union nor a reference. */
  predicate IsFlat(s: Schema) { !s.AnyOf? && !s.Ref? }

  lemma {:induction false} FlatOpens(c: Codec, w: Json, s: Schema, open: set<string>, other: set<string>)
    requires Built(c) && Supported(c, s) && IsFlat(s)
    ensures WireValid(c, w, s, open) <==> WireValid(c, w, s, other)
  {
  }

  /** References are told apart like the definitions they lead to. */
  lemma {:induction false} RefsDisjoint(c: Codec, m: string, n: string)
    requires Built(c) && m in c.defs && n in c.defs && IsFlat(c.defs[m]) && IsFlat(c.defs[n])
    requires DisjointWire(c, c.defs[m], c.defs[n])
    ensures DisjointWire(c, Ref(m), Ref(n))
  {
    forall w, open | WireValid(c, w, Ref(m), open) ensures !WireValid(c, w, Ref(n), open) {
      assert WireValid(c, w, c.defs[m], open - {m});
      FlatOpens(c, w, c.defs[m], open - {m}, open);
      if WireValid(c, w, Ref(n), open) {
        assert WireValid(c, w, c.defs[n], open - {n});
        FlatOpens(c, w, c.defs[n], open - {n}, open);
        assert false;
      }
    }
  }

  /** Every union inside `s` has pairwise separated branches. */
  ghost predicate UnionsSeparated(c: Codec, s: Schema)
    requires Built(c) && Supported(c, s)
    decreases s
  {
    match s
    case Leaf(_, _, _) => true
    case Object(_, properties) => forall k | k in properties :: UnionsSeparated(c, properties[k])
    case Items(item, _, _) => UnionsSeparated(c, item)
    case AnyOf(branches) =>
      && (forall i | 0 <= i < |branches| :: UnionsSeparated(c, branches[i]))
      && forall i, j | 0 <= i < j < |branches| :: Separated(c, branches[i], branches[j])
    case Ref(_) => true
  }

  ghost predicate Unambiguous(c: Codec)
    requires Built(c)
  {
    UnionsSeparated(c, c.root) && forall n | n in c.defs :: UnionsSeparated(c, c.defs[n])
  }

  lemma {:induction false} SeparatedAgree(c: Codec, v: Json, s: Schema, open: set<string>)
    requires Built(c) && Supported(c, s) && Valid(v, s, c.defs, open) && Loyal(c, v, s, open)
    requires UnionsSeparated(c, s) && Unambiguous(c)
    ensures BranchesAgree(c, v, s, open)
    decreases v, |open|, s
  {
    match s
    case Leaf(_, _, _) =>
    case Object(_, properties) =>
      forall k | k in v.fields ensures BranchesAgree(c, v.fields[k], properties[k], c.defs.Keys) {
        SeparatedAgree(c, v.fields[k], properties[k], c.defs.Keys);
      }
    case Items(item, _, _) =>
      forall i | 0 <= i < |v.items| ensures BranchesAgree(c, v.items[i], item, c.defs.Keys) {
        SeparatedAgree(c, v.items[i], item, c.defs.Keys);
      }
    case AnyOf(branches) =>
      SeparatedAgree(c, v, branches[EncodeBranch(c, v, branches, open).value], open);
      SeparatedChoice(c, v, s, open);
    case Ref(name) =>
      SeparatedAgree(c, v, c.defs[name], open - {name});
  }

  lemma {:induction false} EarlierRejects(c: Codec, v: Json, w: Json, a: Schema, b: Schema, open: set<string>)
    requires Built(c) && Supported(c, a) && Supported(c, b) && Separated(c, a, b)
    requires Valid(v, b, c.defs, open) && Loyal(c, v, b, open) && !Valid(v, a, c.defs, open)
    requires Encode(c, v, b, open) == Some(w)
    ensures !WireValid(c, w, a, open)
  {
    hide Valid, Encode, WireValid, Loyal;
  }

  lemma {:induction false} SeparatedChoice(c: Codec, v: Json, s: Schema, open: set<string>)
    requires Built(c) && Supported(c, s) && s.AnyOf? && Loyal(c, v, s, open) && UnionsSeparated(c, s)
    ensures var b := EncodeBranch(c, v, s.branches, open);
      && b.Some? && Encode(c, v, s.branches[b.value], open).Some?
      && DecodeBranch(c, Encode(c, v, s.branches[b.value], open).value, s.branches, open) == b
  {
    var b := EncodeBranch(c, v, s.branches, open).value;
    EncodeFitsWire(c, v, s.branches[b], open);
    hide Encode, Wire, WireDefs, Valid, WireValid, Separated;
    var w := Encode(c, v, s.branches[b], open).value;
    assert WireValid(c, w, s.branches[b], open);
    forall i | 0 <= i < b ensures !WireValid(c, w, s.branches[i], open) {
      EarlierRejects(c, v, w, s.branches[i], s.branches[b], open);
    }
  }

  // ---- Documents ----

  /** What `encode` does with every document over every schema: an invalid one is refused, and a
      valid one exactly where a union has no branch for a part of it. */
  lemma {:induction false} EncodesExactly(c: Codec, v: Json)
    requires Built(c)
    ensures EncodeDocument(c, v) == Err(InvalidExpanded) <==> !Valid(v, c.root, c.defs, c.defs.Keys)
    ensures EncodeDocument(c, v) == Err(NoUnionBranch) <==>
      Valid(v, c.root, c.defs, c.defs.Keys) && Stuck(c, v, c.root, c.defs.Keys)
  {
    hide Valid, Encode, Stuck;
    if Valid(v, c.root, c.defs, c.defs.Keys) {
      EncodesUnlessStuck(c, v, c.root, c.defs.Keys);
    }
  }

  /** Exactly the valid values can be encoded, if no name is lost below a union. */
  lemma {:induction false} EncodesExactlyValid(c: Codec, v: Json, below: set<string>)
    requires Plain(c, c.root, below)
    ensures EncodeDocument(c, v).Ok? <==> Valid(v, c.root, c.defs, c.defs.Keys)
  {
    hide Valid, Encode, Stuck;
    EncodesExactly(c, v);
    if Valid(v, c.root, c.defs, c.defs.Keys) {
      PlainIsLoyal(c, v, c.root, c.defs.Keys, below);
      LoyalIsNotStuck(c, v, c.root, c.defs.Keys);
    }
  }

  /** Decoding fails only at the version and at the wire schema: once those pass, the
      conversion succeeds and the closing validity check never fires. */
  lemma {:induction false} DecodesExactlyWire(c: Codec, wire: Json)
    requires Built(c)
    ensures var r := DecodeDocument(c, wire);
      r.Ok? <==> wire.Arr? && |wire.items| == 2 && wire.items[0] == Num(CODEC_VERSION)
                 && WireValid(c, wire.items[1], c.root, c.defs.Keys)
    ensures var r := DecodeDocument(c, wire);
      && (r.Ok? ==> Valid(r.value, c.root, c.defs, c.defs.Keys))
      && (r.Err? ==> r.error.UnsupportedVersion? || r.error.InvalidWire?)
  {
    if wire.Arr? && |wire.items| == 2 && WireValid(c, wire.items[1], c.root, c.defs.Keys) {
      DecodeIsValid(c, wire.items[1], c.root, c.defs.Keys);
    }
  }

  /** Over every schema, a valid document on which the converters agree comes back. */
  lemma {:induction false} AgreeingDocument(c: Codec, v: Json)
    requires Built(c) && Valid(v, c.root, c.defs, c.defs.Keys) && BranchesAgree(c, v, c.root, c.defs.Keys)
    ensures var sent := EncodeDocument(c, v);
      sent.Ok? && DecodeDocument(c, sent.value) == Ok(v)
  {
    AgreeingFitsWire(c, v, c.root, c.defs.Keys);
    AgreeingRoundTrips(c, v, c.root, c.defs.Keys);
    hide Encode, Decode, BranchesAgree;
  }

  /** A valid document that is encoded under branches it satisfies always decodes to some valid
      document, and to itself exactly when the converters agree on every union branch. */
  lemma {:induction false} DocumentRoundTrip(c: Codec, v: Json)
    requires Built(c) && Valid(v, c.root, c.defs, c.defs.Keys) && Loyal(c, v, c.root, c.defs.Keys)
    ensures var sent := EncodeDocument(c, v);
      && sent.Ok?
      && var received := DecodeDocument(c, sent.value);
      && received.Ok?
      && Valid(received.value, c.root, c.defs, c.defs.Keys)
      && (received.value == v <==> BranchesAgree(c, v, c.root, c.defs.Keys))
  {
    EncodeFitsWire(c, v, c.root, c.defs.Keys);
    DecodeIsValid(c, Encode(c, v, c.root, c.defs.Keys).value, c.root, c.defs.Keys);
    RoundTripIff(c, v, c.root, c.defs.Keys);
  }

  /** Over a schema whose unions are separated and lose no names, every valid document comes back. */
  lemma {:induction false} UnambiguousRoundTrip(c: Codec, v: Json, below: set<string>)
    requires Plain(c, c.root, below) && Unambiguous(c)
    requires Valid(v, c.root, c.defs, c.defs.Keys)
    ensures var sent := EncodeDocument(c, v);
      sent.Ok? && DecodeDocument(c, sent.value) == Ok(v)
  {
    PlainIsLoyal(c, v, c.root, c.defs.Keys, below);
    SeparatedAgree(c, v, c.root, c.defs.Keys);
    AgreeingDocument(c, v);
  }

  // ---- Where the round trip fails ----

  /** A closed object with one required integer field. */
  function Single(k: string): Schema {
    Object({k}, map[k := Leaf({TInt}, Anything, None)])
  }

  lemma {:induction false} AssembledAlone(c: Codec, required: set<string>, fields: map<string, Json>)
    requires Opposite(c.aliases, c.names) && required == fields.Keys
    ensures Assembled(c, required, fields) == Arr(ValuesOf(required, fields))
  {
    hide ValuesOf, Renamed, Opposite;
    assert fields - required == map[];
  }

  lemma SameFields(a: map<string, Json>, b: map<string, Json>)
    requires a.Keys == b.Keys && forall k | k in a :: a[k] == b[k]
    ensures a == b
  {
  }

  lemma {:induction false} EncodedUnchanged(c: Codec, v: Json, s: Schema)
    requires Built(c) && Supported(c, s) && s.Object? && v.Obj? && v.fields.Keys <= s.properties.Keys
    requires forall k | k in v.fields :: Encode(c, v.fields[k], s.properties[k], c.defs.Keys) == Some(v.fields[k])
    ensures EncodedFields(c, v, s) == v.fields
  {
    hide Encode;
    SameFields(EncodedFields(c, v, s), v.fields);
  }

  /** An object of its required fields, each of which travels unchanged, is laid out in order. */
  lemma {:induction false} UnchangedThere(c: Codec, s: Schema, fields: map<string, Json>, open: set<string>)
    requires Built(c) && Supported(c, s) && s.Object? && fields.Keys == s.required
    requires forall k | k in fields :: Encode(c, fields[k], s.properties[k], c.defs.Keys) == Some(fields[k])
    ensures Encode(c, Obj(fields), s, open) == Some(Arr(ValuesOf(s.required, fields)))
  {
    assert s.required <= s.properties.Keys;
    hide Encode, EncodedFields, ValuesOf, Assembled, Supported;
    EncodedUnchanged(c, Obj(fields), s);
    EncodeObject(c, Obj(fields), s, open);
    AssembledAlone(c, s.required, fields);
  }

  lemma {:induction false} UnchangedBack(c: Codec, s: Schema, fields: map<string, Json>, open: set<string>)
    requires Built(c) && Supported(c, s) && s.Object? && fields.Keys == s.required
    requires forall k | k in fields :: Decode(c, fields[k], s.properties[k], c.defs.Keys) == Some(fields[k])
    ensures Decode(c, Arr(ValuesOf(s.required, fields)), s, open) == Some(Obj(fields))
  {
    assert s.required <= s.properties.Keys;
    hide Decode, ValuesOf, Assembled, Parts, Supported, Opposite;
    AssembledAlone(c, s.required, fields);
    PartsOfAssembled(c, s.required, fields, s.properties.Keys);
    var w := Arr(ValuesOf(s.required, fields));
    DecodeObject(c, w, s, fields, open);
    SameFields(Decode(c, w, s, open).value.fields, fields);
  }

  lemma {:induction false} NumberTravels(c: Codec, k: string, n: int)
    requires Built(c)
    ensures var leaf := Single(k).properties[k];
      && Supported(c, leaf)
      && Encode(c, Num(n), leaf, c.defs.Keys) == Some(Num(n)) && Decode(c, Num(n), leaf, c.defs.Keys) == Some(Num(n))
  {
  }

  lemma SingleValue(k: string, n: int)
    ensures ValuesOf({k}, map[k := Num(n)]) == [Num(n)]
  {
    SingleSlot(k);
  }

  lemma {:induction false} SingleThere(c: Codec, k: string, n: int, open: set<string>)
    requires Built(c) && Supported(c, Single(k))
    ensures Encode(c, Obj(map[k := Num(n)]), Single(k), open) == Some(Arr([Num(n)]))
    ensures Decode(c, Arr([Num(n)]), Single(k), open) == Some(Obj(map[k := Num(n)]))
  {
    hide Encode, Decode, Supported, Built, ValuesOf;
    NumberTravels(c, k, n);
    SingleValue(k, n);
    UnchangedThere(c, Single(k), map[k := Num(n)], open);
    UnchangedBack(c, Single(k), map[k := Num(n)], open);
  }

  lemma {:induction false} SingleIsValid(k: string, n: int, defs: Defs, open: set<string>)
    ensures Valid(Obj(map[k := Num(n)]), Single(k), defs, open)
  {
    ObjectAccepts(map[k := Num(n)], Single(k), defs, open);
  }

  /** A value with another key does not have the shape of `Single(k)`. */
  lemma {:induction false} OtherShape(c: Codec, k: string, key: string, n: int, open: set<string>)
    requires key != k || key in RESERVED
    ensures !ShapeFits(c, Obj(map[key := Num(n)]), Single(k), open)
  {
    assert key in map[key := Num(n)] && key !in Shape(Single(k)).properties;
  }

  lemma {:induction false} SingleShape(c: Codec, k: string, n: int, open: set<string>)
    requires k !in RESERVED
    ensures ShapeFits(c, Obj(map[k := Num(n)]), Single(k), open)
  {
    assert Shape(Single(k)) == Single(k);
    ObjectAccepts(map[k := Num(n)], Single(k), ShapeDefs(c.defs), open);
  }

  lemma {:induction false} SingleWire(c: Codec, k: string)
    requires Opposite(c.aliases, c.names) && Supported(c, Single(k))
    ensures Wire(c, Single(k)) == Tuple([Leaf({TInt}, Anything, None)], 1, 1)
  {
    WireOfObject(c, Single(k));
    SingleSlot(k);
    assert WireSlots(c, Single(k)) == [Leaf({TInt}, Anything, None)];
  }

  lemma SingleSlot(k: string)
    ensures Sorted({k}) == [k]
  {
    assert Sorted({k})[0] in {k};
  }

  lemma {:induction false} SingleReads(c: Codec, k: string, n: int, open: set<string>)
    requires Built(c) && Supported(c, Single(k))
    ensures WireValid(c, Arr([Num(n)]), Single(k), open)
  {
    SingleWire(c, k);
    hide Wire;
    assert Valid(Num(n), Leaf({TInt}, Anything, None), WireDefs(c), WireDefs(c).Keys);
    TupleAccepts(Arr([Num(n)]), Wire(c, Single(k)), [Leaf({TInt}, Anything, None)], [], WireDefs(c), open);
  }

  // A union of two branches.

  lemma {:induction false} PairValid(v: Json, a: Schema, b: Schema, defs: Defs, open: set<string>)
    ensures Valid(v, AnyOf([a, b]), defs, open) <==> Valid(v, a, defs, open) || Valid(v, b, defs, open)
  {
    var branches := [a, b];
    assert branches[0] == a && branches[1] == b;
  }

  lemma {:induction false} WireOfPair(c: Codec, a: Schema, b: Schema)
    requires Built(c) && Supported(c, a) && Supported(c, b)
    ensures Supported(c, AnyOf([a, b])) && Wire(c, AnyOf([a, b])) == AnyOf([Wire(c, a), Wire(c, b)])
  {
    hide Opposite, WireSlots, WireTail;
    var u := AnyOf([a, b]);
    assert u.branches[0] == a && u.branches[1] == b;
    assert Wire(c, u).branches == [Wire(c, a), Wire(c, b)];
  }

  lemma {:induction false} PairWire(c: Codec, w: Json, a: Schema, b: Schema, open: set<string>)
    requires Built(c) && Supported(c, a) && Supported(c, b)
    ensures Supported(c, AnyOf([a, b]))
    ensures WireValid(c, w, AnyOf([a, b]), open) <==> WireValid(c, w, a, open) || WireValid(c, w, b, open)
  {
    WireOfPair(c, a, b);
    PairValid(w, Wire(c, a), Wire(c, b), WireDefs(c), open);
    hide Wire, Valid, Supported;
  }

  lemma {:induction false} OnlySecondFits(c: Codec, v: Json, a: Schema, b: Schema, open: set<string>)
    requires !ShapeFits(c, v, a, open) && ShapeFits(c, v, b, open)
    ensures EncodeBranch(c, v, [a, b], open) == Some(1)
  {
    hide EncodeBranch, ShapeFits, Valid;
    assert [a, b][0] == a && [a, b][1] == b;
  }

  lemma {:induction false} FirstReads(c: Codec, w: Json, a: Schema, b: Schema, open: set<string>)
    requires Built(c) && Supported(c, a) && Supported(c, b) && Supported(c, AnyOf([a, b]))
    requires WireValid(c, w, a, open)
    ensures Decode(c, w, AnyOf([a, b]), open) == Decode(c, w, a, open)
  {
    hide WireValid;
    var u := AnyOf([a, b]);
    assert u.branches[0] == a && u.branches[1] == b;
    assert DecodeBranch(c, w, u.branches, open) == Some(0);
  }

  function Pair(a: Schema, b: Schema): Codec {
    Codec(map[], AnyOf([a, b]), map[], map[])
  }

  lemma {:induction false} PairBuilt(a: Schema, b: Schema)
    requires Supported(Pair(a, b), a) && Supported(Pair(a, b), b)
    ensures Built(Pair(a, b))
  {
  }

  /** What `encode` writes when only the second of two branches fits. */
  lemma {:induction false} SecondIsSent(a: Schema, b: Schema, v: Json, w: Json)
    requires var c := Pair(a, b);
      && Supported(c, a) && Supported(c, b) && Built(c) && Valid(v, c.root, map[], {})
      && !ShapeFits(c, v, a, {}) && ShapeFits(c, v, b, {}) && Encode(c, v, b, {}) == Some(w)
    ensures EncodeDocument(Pair(a, b), v) == Ok(Arr([Num(CODEC_VERSION), w]))
  {
    var c := Pair(a, b);
    hide EncodeBranch, ShapeFits, Valid, Supported;
    OnlySecondFits(c, v, a, b, {});
    assert c.root.branches[1] == b && c.defs.Keys == {};
  }

  /** What `decode` reads when the first of two branches accepts. */
  lemma {:induction false} FirstIsRead(a: Schema, b: Schema, w: Json, u: Json)
    requires var c := Pair(a, b);
      && Supported(c, a) && Supported(c, b) && Built(c) && WireValid(c, w, a, {})
      && Decode(c, w, a, {}) == Some(u) && Valid(u, c.root, map[], {})
    ensures DecodeDocument(Pair(a, b), Arr([Num(CODEC_VERSION), w])) == Ok(u)
  {
    var c := Pair(a, b);
    PairWire(c, w, a, b, {});
    FirstReads(c, w, a, b, {});
    assert c.defs.Keys == {};
    hide Decode, WireValid, Valid;
  }

  lemma {:induction false} SecondSingleIsSent(n: int)
    ensures var c, v := Pair(Single("a"), Single("b")), Obj(map["b" := Num(n)]);
      && Built(c) && Valid(v, c.root, map[], {})
      && EncodeDocument(c, v) == Ok(Arr([Num(CODEC_VERSION), Arr([Num(n)])]))
  {
    var a, b, c := Single("a"), Single("b"), Pair(Single("a"), Single("b"));
    var v := Obj(map["b" := Num(n)]);
    assert Supported(c, a) && Supported(c, b);
    hide Valid, ShapeFits, Encode, Decode, EncodeDocument, Shape, ShapeDefs, Supported;
    PairBuilt(a, b);
    hide Built;
    SingleIsValid("b", n, map[], {});
    SingleThere(c, "b", n, {});
    OtherShape(c, "a", "b", n, {});
    SingleShape(c, "b", n, {});
    PairValid(v, a, b, map[], {});
    SecondIsSent(a, b, v, Arr([Num(n)]));
  }

  lemma {:induction false} FirstSingleIsRead(n: int)
    ensures var c := Pair(Single("a"), Single("b"));
      && Built(c)
      && DecodeDocument(c, Arr([Num(CODEC_VERSION), Arr([Num(n)])])) == Ok(Obj(map["a" := Num(n)]))
  {
    var a, b, c := Single("a"), Single("b"), Pair(Single("a"), Single("b"));
    var u, w := Obj(map["a" := Num(n)]), Arr([Num(n)]);
    PairBuilt(a, b);
    hide Valid, WireValid, Encode, Decode, DecodeDocument;
    SingleIsValid("a", n, map[], {});
    SingleThere(c, "a", n, {});
    SingleReads(c, "a", n, {});
    PairValid(u, a, b, map[], {});
    FirstIsRead(a, b, w, u);
  }

  /** Two branches that each require one integer field share their wire form `[n]`: a value of the
      second comes back as a value of the first. */
  lemma {:induction false} SameLayoutIsMisread(n: int)
    ensures var c, v := Pair(Single("a"), Single("b")), Obj(map["b" := Num(n)]);
      && Built(c) && Valid(v, c.root, c.defs, c.defs.Keys)
      && EncodeDocument(c, v) == Ok(Arr([Num(CODEC_VERSION), Arr([Num(n)])]))
      && DecodeDocument(c, EncodeDocument(c, v).value) == Ok(Obj(map["a" := Num(n)]))
  {
    hide Valid, EncodeDocument, DecodeDocument, Built, Single;
    assert Pair(Single("a"), Single("b")).defs.Keys == {};
    SecondSingleIsSent(n);
    FirstSingleIsRead(n);
  }

  /** A property called `const` disappears from the shape, so a union holding it rejects
      a value that satisfies it. */
  lemma {:induction false} ConstPropertyIsLost(n: int)
    ensures
      var c := Codec(map[], AnyOf([Single("const")]), map[], map[]);
      var v := Obj(map["const" := Num(n)]);
      && Built(c)
      && Valid(v, c.root, c.defs, c.defs.Keys)
      && EncodeDocument(c, v) == Err(NoUnionBranch)
  {
    var c := Codec(map[], AnyOf([Single("const")]), map[], map[]);
    var v := Obj(map["const" := Num(n)]);
    var branches := c.root.branches;
    assert branches[0] == Single("const") && Supported(c, branches[0]);
    SingleIsValid("const", n, c.defs, c.defs.Keys);
    OtherShape(c, "const", "const", n, c.defs.Keys);
    assert Valid(v, branches[0], c.defs, c.defs.Keys);
    hide ShapeFits, EncodeBranch;
    EncodesExactly(c, v);
  }

  lemma {:induction false} ObjectIsRefused(c: Codec, k: string, fields: map<string, Json>, open: set<string>)
    requires Built(c) && Supported(c, Single(k))
    ensures !WireValid(c, Obj(fields), Single(k), open)
  {
    SingleWire(c, k);
  }

  /** An object schema of the empty object alone. */
  const EMPTY := Leaf({TObj}, Anything, Some({Obj(map[])}))

  lemma {:induction false} EmptyIsLoose(c: Codec, fields: map<string, Json>, open: set<string>)
    requires Built(c) && fields != map[]
    ensures ShapeFits(c, Obj(fields), EMPTY, open) && !WireValid(c, Obj(fields), EMPTY, open)
    ensures Encode(c, Obj(fields), EMPTY, open) == Some(Obj(fields))
  {
  }

  lemma {:induction false} NoWireForm(c: Codec, w: Json)
    requires Built(c) && !WireValid(c, w, c.root, c.defs.Keys)
    ensures DecodeDocument(c, Arr([Num(CODEC_VERSION), w])) == Err(InvalidWire)
  {
    hide WireValid, Decode;
  }

  /** Where a name is lost and another branch fits loosely, the encoder takes that one, and what it
      writes is not accepted. */
  lemma {:induction false} FallbackIsRefused(n: int)
    ensures var c, v := Pair(Single("const"), EMPTY), Obj(map["const" := Num(n)]);
      && Built(c) && Valid(v, c.root, c.defs, c.defs.Keys)
      && EncodeDocument(c, v) == Ok(Arr([Num(CODEC_VERSION), v]))
      && DecodeDocument(c, EncodeDocument(c, v).value) == Err(InvalidWire)
  {
    var a, fields := Single("const"), map["const" := Num(n)];
    var c, v := Pair(a, EMPTY), Obj(fields);
    assert "const" in fields;
    hide Valid, Shape, ShapeDefs, Wire, WireDefs, WireValid, ShapeFits, Encode, EncodeDocument, DecodeDocument;
    PairBuilt(a, EMPTY);
    SingleIsValid("const", n, map[], {});
    OtherShape(c, "const", "const", n, {});
    EmptyIsLoose(c, fields, {});
    PairValid(v, a, EMPTY, map[], {});
    ObjectIsRefused(c, "const", fields, {});
    PairWire(c, v, a, EMPTY, {});
    SecondIsSent(a, EMPTY, v, v);
    NoWireForm(c, v);
  }
}
