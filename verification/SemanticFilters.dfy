/** The filter unions of the program's own plans: their branches are told apart on the wire, all but
    one pair. */
module SemanticFilters {
  import opened Text
  import opened Json
  import opened FieldAliases
  import opened SemanticSchema
  import opened SemanticTransport
  import opened SemanticTransportProofs

  // ---- The branches ----

  const ALL_TYPES := {TNull, TBool, TInt, TStr, TArr, TObj}

  function Enum(values: set<string>): Schema {
    Leaf(ALL_TYPES, Anything, Some(set x | x in values :: Str(x)))
  }

  /** A scalar type, or a choice of such. */
  predicate IsScalar(s: Schema) {
    s.Leaf? && TArr !in s.types && TObj !in s.types
  }

  predicate IsAtomic(s: Schema) {
    IsScalar(s) || (s.AnyOf? && forall i | 0 <= i < |s.branches| :: IsScalar(s.branches[i]))
  }

  /** Does an atomic schema accept a value? It refers to no definitions. */
  predicate Accepts(s: Schema, v: Json)
    requires IsAtomic(s)
  {
    Valid(v, s, map[], {})
  }

  /** A branch of a filter union: a comparison with a literal, of the entity or of the relation; one
      with the anchor; a date difference; a collection predicate. */
  datatype Branch =
    | Static(name: string, operators: set<string>, operand: Schema)
    | Related(name: string, operators: set<string>, operand: Schema)
    | Anchored(name: string, operators: set<string>, anchors: set<string>)
    | Computed(name: string, least: int, most: int)
    | Predicates(names: set<string>)

  /** The required fields in alphabetical order. */
  function SlotsOf(b: Branch): seq<string> {
    match b
    case Static(_, _, _) => ["operator", "property", "value"]
    case Related(_, _, _) => ["operator", "property", "source", "value"]
    case Anchored(_, _, _) => ["operator", "property", "value_from"]
    case Computed(_, _, _) => ["mode", "operator", "property", "transform", "value"]
    case Predicates(_) => ["predicate"]
  }

  function Required(b: Branch): set<string> {
    set k | k in SlotsOf(b)
  }

  function PropertiesOf(b: Branch): map<string, Schema> {
    match b
    case Static(name, operators, operand) =>
      map["property" := Enum({name}), "source" := Enum({"entity"}), "operator" := Enum(operators), "value" := operand]
    case Related(name, operators, operand) =>
      map["property" := Enum({name}), "source" := Enum({"relation"}), "operator" := Enum(operators), "value" := operand]
    case Anchored(name, operators, anchors) =>
      map["property" := Enum({name}), "source" := Enum({"entity"}), "operator" := Enum(operators),
          "value_from" := Enum({"anchor"}), "value_property" := Enum(anchors)]
    case Computed(name, least, most) =>
      map["property" := Enum({name}), "transform" := Enum({"date_difference"}),
          "mode" := Enum({"years", "months", "days"}), "operator" := Enum({"gt", "gte", "lt", "lte", "eq"}),
          "value" := Leaf({TInt}, (v: Json) => v.Num? && least <= v.n <= most, None), "source" := Enum({"entity"})]
    case Predicates(names) => map["predicate" := Enum(names)]
  }

  function SchemaOf(b: Branch): Schema {
    Object(Required(b), PropertiesOf(b))
  }

  function UnionOf(bs: seq<Branch>): Schema {
    AnyOf(seq(|bs|, i requires 0 <= i < |bs| => SchemaOf(bs[i])))
  }

  /** Built, with an alias for the optional fields of filters. */
  ghost predicate Carries(c: Codec) {
    Built(c) && {"source", "value_property"} <= c.aliases.Keys
  }

  /** What the operand of a branch has to be: atomic, a list of atomic values, or a choice of both
      truth values and null. */
  predicate IsOperand(s: Schema) {
    IsAtomic(s) || (s.Items? && IsAtomic(s.item))
  }

  predicate IsBranch(b: Branch) {
    b.Static? || b.Related? ==> IsOperand(b.operand)
  }

  lemma {:induction false} OperandSupported(c: Codec, s: Schema)
    requires IsOperand(s)
    ensures Supported(c, s)
  {
  }

  lemma {:induction false} PropertySupported(c: Codec, b: Branch, k: string)
    requires IsBranch(b) && k in PropertiesOf(b)
    ensures Supported(c, PropertiesOf(b)[k])
  {
    if b.Static? || b.Related? {
      OperandSupported(c, b.operand);
    }
    hide IsOperand;
    assert (k == "value" && (b.Static? || b.Related?)) || PropertiesOf(b)[k].Leaf?;
  }

  lemma {:induction false} ObjectSupported(c: Codec, required: set<string>, properties: map<string, Schema>)
    requires required <= properties.Keys && properties.Keys - required <= c.aliases.Keys
    requires forall k | k in properties :: Supported(c, properties[k])
    ensures Supported(c, Object(required, properties))
  {
  }

  lemma {:induction false} BranchSupported(c: Codec, b: Branch)
    requires Carries(c) && IsBranch(b)
    ensures Supported(c, SchemaOf(b))
  {
    hide Supported, PropertiesOf, Required, IsBranch;
    SlotNames(b);
    forall k | k in PropertiesOf(b) ensures Supported(c, PropertiesOf(b)[k]) {
      PropertySupported(c, b, k);
    }
    ObjectSupported(c, Required(b), PropertiesOf(b));
  }

  lemma SlotNames(b: Branch)
    ensures forall k | k in PropertiesOf(b) && k != "source" && k != "value_property" :: k in Required(b)
    ensures forall k | k in Required(b) :: k in PropertiesOf(b)
  {
    var slots := SlotsOf(b);
    match b
    case Static(_, _, _) =>
      assert slots[0] == "operator" && slots[1] == "property" && slots[2] == "value";
    case Related(_, _, _) =>
      assert slots[0] == "operator" && slots[1] == "property" && slots[2] == "source" && slots[3] == "value";
    case Anchored(_, _, _) =>
      assert slots[0] == "operator" && slots[1] == "property" && slots[2] == "value_from";
    case Computed(_, _, _) =>
      assert slots[0] == "mode" && slots[1] == "operator" && slots[2] == "property";
      assert slots[3] == "transform" && slots[4] == "value";
    case Predicates(_) =>
      assert slots[0] == "predicate";
  }

  // ---- Where the fields stand ----

  lemma {:induction false} BelowByFirst(a: string, b: string)
    requires a != [] && b != [] && a[0] < b[0]
    ensures Below(a, b) && a != b
  {
  }

  lemma SlotsAscend(b: Branch)
    ensures Ascending(SlotsOf(b))
  {
    var slots := SlotsOf(b);
    forall i, j | 0 <= i < j < |slots| ensures Below(slots[i], slots[j]) && slots[i] != slots[j] {
      BelowByFirst(slots[i], slots[j]);
    }
  }

  lemma SlotsSorted(b: Branch)
    ensures Sorted(Required(b)) == SlotsOf(b)
  {
    SlotsAscend(b);
    SortedUnique(Required(b), SlotsOf(b));
  }

  /** A required field stands at its slot. */
  lemma SlotAt(b: Branch, i: nat)
    requires i < |SlotsOf(b)|
    ensures SlotsOf(b)[i] in Required(b) && Position(Required(b), SlotsOf(b)[i]) == i
    ensures |Required(b)| == |SlotsOf(b)|
  {
    SlotsSorted(b);
    SlotsAscend(b);
    hide SlotsOf, Sorted, Position;
    var p := Position(Required(b), SlotsOf(b)[i]);
    assert SlotsOf(b)[p] == SlotsOf(b)[i];
  }

  // ---- What is told apart ----

  /** Branches that compare a named property by one of some operators. */
  predicate Compares(b: Branch) { b.Static? || b.Related? || b.Anchored? }

  /** Two branches differ in a tag: in kind, property or operators. A comparison of the entity with a
      literal and one with the anchor have no tag of their own. */
  predicate Differ(a: Branch, b: Branch) {
    if Compares(a) && Compares(b) then a.name != b.name || a.operators !! b.operators || a.Related? != b.Related?
    else if a.Computed? && b.Computed? then a.name != b.name
    else Compares(a) != Compares(b) || a.Computed? != b.Computed?
  }

  /** The two ways to compare one property of the entity. */
  predicate AreTwins(a: Branch, b: Branch) {
    a.Static? && b.Anchored? && a.name == b.name && a.operators == b.operators != {} && IsAtomic(a.operand)
  }

  lemma {:induction false} EnumsApart(c: Codec, x: set<string>, y: set<string>)
    requires Built(c) && x !! y
    ensures DisjointWire(c, Enum(x), Enum(y))
  {
    EnumsDisjoint(c, Enum(x), Enum(y));
  }

  /** Branches with disjoint schemas in one slot are disjoint. */
  lemma {:induction false} SlotApart(c: Codec, a: Branch, b: Branch, i: nat)
    requires Carries(c) && IsBranch(a) && IsBranch(b) && i < |SlotsOf(a)| && i < |SlotsOf(b)|
    requires var j, k := SlotsOf(a)[i], SlotsOf(b)[i];
      && j in PropertiesOf(a) && k in PropertiesOf(b)
      && Supported(c, PropertiesOf(a)[j]) && Supported(c, PropertiesOf(b)[k])
      && DisjointWire(c, PropertiesOf(a)[j], PropertiesOf(b)[k])
    ensures Supported(c, SchemaOf(a)) && Supported(c, SchemaOf(b))
    ensures DisjointWire(c, SchemaOf(a), SchemaOf(b))
  {
    hide SlotsOf, PropertiesOf, Required, Position, DisjointWire, Supported, Built, IsBranch;
    BranchSupported(c, a);
    BranchSupported(c, b);
    SlotAt(a, i);
    SlotAt(b, i);
    SlotsDisjoint(c, SchemaOf(a), SchemaOf(b), SlotsOf(a)[i], SlotsOf(b)[i]);
  }

  /** So are branches of which one has more slots than the other has slots and a tail. */
  lemma {:induction false} CountsApart(c: Codec, a: Branch, b: Branch)
    requires Carries(c) && IsBranch(a) && IsBranch(b) && |SlotsOf(a)| + 1 < |SlotsOf(b)|
    ensures Supported(c, SchemaOf(a)) && Supported(c, SchemaOf(b))
    ensures DisjointWire(c, SchemaOf(a), SchemaOf(b)) && DisjointWire(c, SchemaOf(b), SchemaOf(a))
  {
    hide SlotsOf, PropertiesOf, Required, Position, DisjointWire, Supported, Built, IsBranch;
    BranchSupported(c, a);
    BranchSupported(c, b);
    SlotCount(a);
    SlotCount(b);
    LayoutsDisjoint(c, SchemaOf(a), SchemaOf(b));
    LayoutsDisjoint(c, SchemaOf(b), SchemaOf(a));
  }

  lemma SlotCount(b: Branch)
    ensures |Required(b)| == |SlotsOf(b)|
  {
    assert SlotsOf(b) != [];
    SlotAt(b, 0);
  }

  lemma {:induction false} OperandNeverObject(c: Codec, s: Schema)
    requires Built(c) && IsOperand(s)
    ensures Supported(c, s) && NeverObject(c, s)
  {
    OperandSupported(c, s);
    forall w, open | WireValid(c, w, s, open) ensures !w.Obj? {
      if s.AnyOf? {
        var i :| 0 <= i < |s.branches| && Valid(w, Wire(c, s).branches[i], WireDefs(c), open);
        assert IsScalar(s.branches[i]) && Wire(c, s).branches[i] == s.branches[i];
      }
    }
  }

  /** A comparison of the entity and one of the relation: where the first has its tail, the second
      has its operand, which is never an object. */
  lemma {:induction false} RelationApart(c: Codec, a: Branch, b: Branch)
    requires Carries(c) && IsBranch(a) && IsBranch(b) && (a.Static? || a.Anchored?) && b.Related?
    ensures Supported(c, SchemaOf(a)) && Supported(c, SchemaOf(b))
    ensures DisjointWire(c, SchemaOf(a), SchemaOf(b)) && DisjointWire(c, SchemaOf(b), SchemaOf(a))
  {
    assert SlotsOf(b)[3] == "value" && |SlotsOf(a)| == 3 && PropertiesOf(b)["value"] == b.operand;
    hide Position, DisjointWire, Supported, Built;
    BranchSupported(c, a);
    BranchSupported(c, b);
    SlotCount(a);
    SlotAt(b, 3);
    OperandNeverObject(c, b.operand);
    TailsDisjoint(c, SchemaOf(a), SchemaOf(b), "value");
    DisjointBack(c, SchemaOf(a), SchemaOf(b));
  }

  /** Two comparisons with different properties or without a common operator. */
  lemma {:induction false} TagsApart(c: Codec, a: Branch, b: Branch)
    requires Carries(c) && IsBranch(a) && IsBranch(b) && Compares(a) && Compares(b)
    requires a.name != b.name || a.operators !! b.operators
    ensures Supported(c, SchemaOf(a)) && Supported(c, SchemaOf(b))
    ensures DisjointWire(c, SchemaOf(a), SchemaOf(b))
  {
    hide DisjointWire, IsOperand;
    if a.name != b.name {
      EnumsApart(c, {a.name}, {b.name});
      SlotApart(c, a, b, 1);
    } else {
      EnumsApart(c, a.operators, b.operators);
      SlotApart(c, a, b, 0);
    }
  }

  lemma {:induction false} ComputedApart(c: Codec, a: Branch, b: Branch)
    requires Carries(c) && a.Computed? && b.Computed? && a.name != b.name
    ensures Supported(c, SchemaOf(a)) && Supported(c, SchemaOf(b))
    ensures DisjointWire(c, SchemaOf(a), SchemaOf(b))
  {
    hide DisjointWire;
    EnumsApart(c, {a.name}, {b.name});
    SlotApart(c, a, b, 2);
  }

  /** Branches that differ in a tag have no wire form in common. */
  lemma {:induction false} DifferentApart(c: Codec, a: Branch, b: Branch)
    requires Carries(c) && IsBranch(a) && IsBranch(b) && Differ(a, b)
    ensures Supported(c, SchemaOf(a)) && Supported(c, SchemaOf(b))
    ensures DisjointWire(c, SchemaOf(a), SchemaOf(b))
  {
    hide DisjointWire, PropertiesOf, Required, Supported, IsOperand, Built;
    if Compares(a) && Compares(b) {
      if a.name != b.name || a.operators !! b.operators {
        TagsApart(c, a, b);
      } else if b.Related? {
        RelationApart(c, a, b);
      } else {
        RelationApart(c, b, a);
      }
    } else if a.Computed? && b.Computed? {
      ComputedApart(c, a, b);
    } else if |SlotsOf(a)| < |SlotsOf(b)| {
      FewerSlots(c, a, b);
    } else {
      FewerSlots(c, b, a);
    }
  }

  /** A comparison of the relation has no optional field, and so four slots and no tail. */
  lemma {:induction false} RelatedAndComputed(c: Codec, a: Branch, b: Branch)
    requires Carries(c) && IsBranch(a) && a.Related? && b.Computed?
    ensures Supported(c, SchemaOf(a)) && Supported(c, SchemaOf(b))
    ensures DisjointWire(c, SchemaOf(a), SchemaOf(b)) && DisjointWire(c, SchemaOf(b), SchemaOf(a))
  {
    SlotNames(a);
    hide DisjointWire, Supported, IsOperand;
    BranchSupported(c, a);
    BranchSupported(c, b);
    SlotCount(a);
    SlotCount(b);
    assert PropertiesOf(a).Keys - Required(a) == {} by {
      assert SlotsOf(a)[2] == "source";
    }
    hide Required, PropertiesOf, WireTail;
    assert WireRest(c, SchemaOf(a)) == [];
    LayoutsDisjoint(c, SchemaOf(a), SchemaOf(b));
    LayoutsDisjoint(c, SchemaOf(b), SchemaOf(a));
  }

  lemma {:induction false} FewerSlots(c: Codec, a: Branch, b: Branch)
    requires Carries(c) && IsBranch(a) && IsBranch(b) && Differ(a, b) && |SlotsOf(a)| < |SlotsOf(b)|
    requires !(Compares(a) && Compares(b))
    ensures Supported(c, SchemaOf(a)) && Supported(c, SchemaOf(b))
    ensures DisjointWire(c, SchemaOf(a), SchemaOf(b)) && DisjointWire(c, SchemaOf(b), SchemaOf(a))
  {
    hide DisjointWire, PropertiesOf, Required, Supported, IsOperand, Built;
    if |SlotsOf(a)| + 1 < |SlotsOf(b)| {
      CountsApart(c, a, b);
    } else {
      RelatedAndComputed(c, a, b);
    }
  }

  // ---- The one pair that is not ----

  lemma {:induction false} AtomicAnywhere(s: Schema, w: Json, defs: Defs, open: set<string>)
    requires IsAtomic(s)
    ensures Valid(w, s, defs, open) <==> Accepts(s, w)
  {
    if s.AnyOf? {
      forall i | 0 <= i < |s.branches|
        ensures Valid(w, s.branches[i], defs, open) <==> Valid(w, s.branches[i], map[], {})
      {
        assert IsScalar(s.branches[i]);
      }
    }
  }

  /** An atomic schema is its own wire schema and needs no definitions. */
  lemma {:induction false} AtomicWire(c: Codec, s: Schema, w: Json, open: set<string>)
    requires Built(c) && IsAtomic(s)
    ensures Supported(c, s) && (WireValid(c, w, s, open) <==> Accepts(s, w))
    ensures Valid(w, s, c.defs, open) <==> Accepts(s, w)
  {
    AtomicAnywhere(s, w, c.defs, open);
    AtomicAnywhere(s, w, WireDefs(c), open);
    OperandSupported(c, s);
    hide Valid, Accepts;
    if s.AnyOf? {
      assert forall i | 0 <= i < |s.branches| :: Wire(c, s).branches[i] == s.branches[i];
      assert Wire(c, s).branches == s.branches;
    }
    assert Wire(c, s) == s;
  }

  lemma {:induction false} AtomicDecodes(c: Codec, s: Schema, w: Json, open: set<string>)
    requires Built(c) && IsAtomic(s) && Accepts(s, w)
    ensures Supported(c, s) && Decode(c, w, s, open) == Some(w)
  {
    AtomicWire(c, s, w, open);
    if s.AnyOf? {
      hide WireValid, Wire, Valid;
      DecodeIsValid(c, w, s, open);
      var b := DecodeBranch(c, w, s.branches, open);
      assert IsScalar(s.branches[b.value]);
    }
  }

  const ANCHOR := Str("anchor")

  /** If the literal of a property does not accept the text of the anchor, its two comparisons are
      told apart by the third slot. */
  lemma {:induction false} TwinsApart(c: Codec, a: Branch, b: Branch)
    requires Carries(c) && AreTwins(a, b) && !Accepts(a.operand, ANCHOR)
    ensures Supported(c, SchemaOf(a)) && Supported(c, SchemaOf(b))
    ensures DisjointWire(c, SchemaOf(a), SchemaOf(b))
  {
    OperandSupported(c, a.operand);
    forall w, open | WireValid(c, w, Enum({"anchor"}), open) ensures !WireValid(c, w, a.operand, open) {
      assert w == ANCHOR;
      AtomicWire(c, a.operand, w, open);
    }
    hide IsOperand, Supported, Built, Enum, WireValid;
    assert DisjointWire(c, a.operand, Enum({"anchor"}));
    SlotApart(c, a, b, 2);
  }

  /** A comparison with the anchor by operator `o`. */
  function WithAnchor(b: Branch, o: string): Json
    requires b.Anchored?
  {
    Obj(map["operator" := Str(o), "property" := Str(b.name), "value_from" := ANCHOR])
  }

  /** A comparison with the text "anchor". */
  function WithText(a: Branch, o: string): Json
    requires a.Static?
  {
    Obj(map["operator" := Str(o), "property" := Str(a.name), "value" := ANCHOR])
  }

  function Slots(name: string, o: string): Json {
    Arr([Str(o), Str(name), ANCHOR])
  }

  lemma {:induction false} AnchorIsValid(b: Branch, o: string, defs: Defs, open: set<string>)
    requires b.Anchored? && o in b.operators
    ensures Valid(WithAnchor(b, o), SchemaOf(b), defs, open)
  {
    SlotNames(b);
    var fields := WithAnchor(b, o).fields;
    assert Required(b) == fields.Keys;
    hide Required;
    ObjectAccepts(fields, SchemaOf(b), defs, open);
  }

  lemma {:induction false} TextIsValid(c: Codec, a: Branch, o: string, open: set<string>)
    requires Built(c) && a.Static? && IsAtomic(a.operand) && o in a.operators && Accepts(a.operand, ANCHOR)
    ensures Valid(WithText(a, o), SchemaOf(a), c.defs, open)
  {
    SlotNames(a);
    AtomicWire(c, a.operand, ANCHOR, c.defs.Keys);
    var fields := WithText(a, o).fields;
    assert Required(a) == fields.Keys;
    hide Required, Accepts, IsAtomic;
    ObjectAccepts(fields, SchemaOf(a), c.defs, open);
  }

  lemma SlotsAre(b: Branch, required: set<string>, fields: map<string, Json>, name: string, o: string)
    requires b.Static? || b.Anchored?
    requires required == Required(b) <= fields.Keys
    requires fields["operator"] == Str(o) && fields["property"] == Str(name) && fields[SlotsOf(b)[2]] == ANCHOR
    ensures ValuesOf(required, fields) == [Str(o), Str(name), ANCHOR]
  {
    SlotsSorted(b);
    hide Sorted, Required;
    var values := ValuesOf(required, fields);
    assert |values| == 3 && values[0] == Str(o) && values[1] == Str(name) && values[2] == ANCHOR;
  }

  lemma {:induction false} AnchorFields(c: Codec, b: Branch, o: string, k: string)
    requires Built(c) && b.Anchored? && k in WithAnchor(b, o).fields
    ensures k in PropertiesOf(b) && PropertiesOf(b)[k].Leaf?
    ensures WithAnchor(b, o).fields.Keys == Required(b)
  {
    SlotNames(b);
    assert WithAnchor(b, o).fields.Keys == Required(b);
  }

  /** How the comparison with the anchor is laid out. */
  lemma {:induction false} AnchorIsSent(c: Codec, b: Branch, o: string, open: set<string>)
    requires Carries(c) && b.Anchored? && o in b.operators
    ensures Supported(c, SchemaOf(b)) && Encode(c, WithAnchor(b, o), SchemaOf(b), open) == Some(Slots(b.name, o))
  {
    BranchSupported(c, b);
    var s, fields := SchemaOf(b), WithAnchor(b, o).fields;
    assert "property" in fields;
    forall k | k in fields
      ensures k in s.properties && Encode(c, fields[k], s.properties[k], c.defs.Keys) == Some(fields[k])
      ensures fields.Keys == s.required
    {
      AnchorFields(c, b, o, k);
      hide PropertiesOf, Required, Supported, Built;
    }
    assert SlotsOf(b)[2] == "value_from";
    hide Encode, Supported, Built, Required, PropertiesOf, SlotsOf, ValuesOf;
    UnchangedThere(c, s, fields, open);
    SlotsAre(b, s.required, fields, b.name, o);
  }

  lemma {:induction false} TextFields(c: Codec, a: Branch, o: string, k: string)
    requires Built(c) && a.Static? && IsAtomic(a.operand) && o in a.operators && Accepts(a.operand, ANCHOR)
    requires k in WithText(a, o).fields
    ensures WithText(a, o).fields.Keys == Required(a) && k in PropertiesOf(a)
    ensures PropertiesOf(a)[k] == (if k == "value" then a.operand else Enum({WithText(a, o).fields[k].s}))
      || (k == "operator" && PropertiesOf(a)[k] == Enum(a.operators))
    ensures WithText(a, o).fields[k] == if k == "value" then ANCHOR else if k == "operator" then Str(o) else Str(a.name)
  {
    SlotNames(a);
    assert WithText(a, o).fields.Keys == Required(a);
  }

  lemma {:induction false} TextFieldTravels(c: Codec, a: Branch, o: string, k: string)
    requires Built(c) && a.Static? && IsAtomic(a.operand) && o in a.operators && Accepts(a.operand, ANCHOR)
    requires k in WithText(a, o).fields
    ensures WithText(a, o).fields.Keys == Required(a) && k in PropertiesOf(a)
    ensures Supported(c, PropertiesOf(a)[k])
    ensures WireValid(c, WithText(a, o).fields[k], PropertiesOf(a)[k], c.defs.Keys)
    ensures Decode(c, WithText(a, o).fields[k], PropertiesOf(a)[k], c.defs.Keys) == Some(WithText(a, o).fields[k])
  {
    TextFields(c, a, o, k);
    hide PropertiesOf, Required;
    if k == "value" {
      AtomicWire(c, a.operand, ANCHOR, c.defs.Keys);
      AtomicDecodes(c, a.operand, ANCHOR, c.defs.Keys);
    }
  }

  /** That layout is a wire form of the comparison with text, and decodes to it. */
  lemma {:induction false} SlotsReadAsText(c: Codec, a: Branch, o: string, open: set<string>)
    requires Carries(c) && a.Static? && IsAtomic(a.operand) && o in a.operators && Accepts(a.operand, ANCHOR)
    ensures Supported(c, SchemaOf(a)) && WireValid(c, Slots(a.name, o), SchemaOf(a), open)
    ensures Decode(c, Slots(a.name, o), SchemaOf(a), open) == Some(WithText(a, o))
  {
    BranchSupported(c, a);
    var s, fields := SchemaOf(a), WithText(a, o).fields;
    assert "property" in fields && SlotsOf(a)[2] == "value";
    hide Decode, WireValid, Supported, Accepts, IsAtomic, Required, PropertiesOf, SlotsOf, ValuesOf, Opposite;
    forall k | k in fields
      ensures k in s.properties && fields.Keys == s.required
      ensures WireValid(c, fields[k], s.properties[k], c.defs.Keys)
      ensures Decode(c, fields[k], s.properties[k], c.defs.Keys) == Some(fields[k])
    {
      TextFieldTravels(c, a, o, k);
    }
    SlotsAloneFitWire(c, s, fields, open);
    UnchangedBack(c, s, fields, open);
    SlotsAre(a, s.required, fields, a.name, o);
  }

  lemma {:induction false} AnchorIsLeafy(c: Codec, b: Branch, o: string, open: set<string>)
    requires Carries(c) && b.Anchored? && o in b.operators
    ensures Supported(c, SchemaOf(b)) && NamesKept(WithAnchor(b, o), SchemaOf(b), c.defs, open)
    ensures Loyal(c, WithAnchor(b, o), SchemaOf(b), open)
  {
    BranchSupported(c, b);
    var s, v := SchemaOf(b), WithAnchor(b, o);
    forall k | k in v.fields && k in s.properties
      ensures k !in RESERVED && s.properties[k].Leaf?
      ensures NamesKept(v.fields[k], s.properties[k], c.defs, c.defs.Keys)
      ensures Loyal(c, v.fields[k], s.properties[k], c.defs.Keys)
    {
      AnchorFields(c, b, o, k);
    }
    hide PropertiesOf, Required, Supported, Built;
  }

  /** What lacks an operand is no comparison with text, by its constraints or by its shape. */
  lemma {:induction false} AnchorIsNoText(c: Codec, a: Branch, b: Branch, o: string, open: set<string>)
    requires a.Static? && b.Anchored?
    ensures !Valid(WithAnchor(b, o), SchemaOf(a), c.defs, open) && !ShapeFits(c, WithAnchor(b, o), SchemaOf(a), open)
  {
    assert SlotsOf(a)[2] == "value";
    assert "value" in Required(a) && "value" !in WithAnchor(b, o).fields;
    hide SlotsOf, Required, PropertiesOf;
  }

  /** If the literal of a property accepts the text of the anchor, a comparison of that property with
      the anchor is sent in the layout of a comparison with that text, and comes back as one. */
  lemma {:induction false} AnchorIsMisread(c: Codec, a: Branch, b: Branch, o: string, open: set<string>)
    requires Carries(c) && AreTwins(a, b) && o in b.operators && Accepts(a.operand, ANCHOR)
    ensures var u := AnyOf([SchemaOf(a), SchemaOf(b)]);
      && Supported(c, u)
      && Valid(WithAnchor(b, o), u, c.defs, open)
      && Encode(c, WithAnchor(b, o), u, open) == Some(Slots(b.name, o))
      && Decode(c, Slots(b.name, o), u, open) == Some(WithText(a, o))
      && Valid(WithText(a, o), SchemaOf(a), c.defs, open) && WithText(a, o) != WithAnchor(b, o)
  {
    var v, x, y := WithAnchor(b, o), SchemaOf(a), SchemaOf(b);
    assert "value" in WithText(a, o).fields && "value" !in v.fields;
    hide Valid, ShapeFits, Encode, Decode, WireValid, NamesKept, Loyal, Accepts, IsAtomic, SchemaOf, Supported, Built;
    hide WithText, WithAnchor, Slots;
    AnchorIsSent(c, b, o, open);
    AnchorIsValid(b, o, c.defs, open);
    AnchorIsNoText(c, a, b, o, open);
    AnchorIsLeafy(c, b, o, open);
    SlotsReadAsText(c, a, o, open);
    TextIsValid(c, a, o, open);
    ThroughTwins(c, v, x, y, Slots(b.name, o), WithText(a, o), open);
  }

  lemma {:induction false} ThroughTwins(c: Codec, v: Json, x: Schema, y: Schema, w: Json, u: Json, open: set<string>)
    requires Built(c) && Supported(c, x) && Supported(c, y)
    requires Valid(v, y, c.defs, open) && NamesKept(v, y, c.defs, open) && !ShapeFits(c, v, x, open)
    requires Encode(c, v, y, open) == Some(w) && WireValid(c, w, x, open) && Decode(c, w, x, open) == Some(u)
    ensures var pair := AnyOf([x, y]);
      && Supported(c, pair) && Valid(v, pair, c.defs, open)
      && Encode(c, v, pair, open) == Some(w) && Decode(c, w, pair, open) == Some(u)
  {
    WireOfPair(c, x, y);
    PairValid(v, x, y, c.defs, open);
    KeptFitsStrictly(c, v, y, open);
    hide Valid, WireValid, ShapeFits, NamesKept, Decode, EncodeBranch, Built;
    OnlySecondFits(c, v, x, y, open);
    FirstReads(c, w, x, y, open);
    assert AnyOf([x, y]).branches[1] == y;
    hide Supported;
  }

  /** So the twins are separated exactly when the literal does not accept that text. */
  lemma {:induction false} TwinsExactly(c: Codec, a: Branch, b: Branch)
    requires Carries(c) && AreTwins(a, b)
    ensures Supported(c, SchemaOf(a)) && Supported(c, SchemaOf(b))
    ensures Separated(c, SchemaOf(a), SchemaOf(b)) <==> !Accepts(a.operand, ANCHOR)
  {
    OperandSupported(c, a.operand);
    BranchSupported(c, a);
    BranchSupported(c, b);
    hide Supported, Built, IsAtomic, Accepts, SchemaOf, IsBranch;
    if !Accepts(a.operand, ANCHOR) {
      TwinsApart(c, a, b);
      hide DisjointWire, Separated;
      DisjointIsSeparated(c, SchemaOf(a), SchemaOf(b));
    } else {
      var o :| o in a.operators;
      AnchorIsSent(c, b, o, {});
      AnchorIsValid(b, o, c.defs, {});
      AnchorIsNoText(c, a, b, o, {});
      AnchorIsLeafy(c, b, o, {});
      SlotsReadAsText(c, a, o, {});
      hide Valid, Encode, WireValid, Loyal, NamesKept, WithAnchor, Slots;
    }
  }

  // ---- Whole unions ----

  /** Any two branches differ in a tag or are twins. */
  ghost predicate ToldApart(bs: seq<Branch>) {
    && (forall b | b in bs :: IsBranch(b))
    && forall i, j | 0 <= i < j < |bs| :: Differ(bs[i], bs[j]) || AreTwins(bs[i], bs[j])
  }

  /** Two comparisons of one property, of which the literal accepts the text of the anchor. */
  predicate LookAlike(a: Branch, b: Branch) {
    AreTwins(a, b) && Accepts(a.operand, ANCHOR)
  }

  ghost predicate NoneLookAlike(bs: seq<Branch>) {
    forall i, j | 0 <= i < j < |bs| :: !LookAlike(bs[i], bs[j])
  }

  lemma {:induction false} AtomicSeparated(c: Codec, s: Schema)
    requires Built(c) && IsAtomic(s)
    ensures Supported(c, s) && UnionsSeparated(c, s)
  {
    OperandSupported(c, s);
    if s.AnyOf? {
      forall i, j | 0 <= i < j < |s.branches| ensures Separated(c, s.branches[i], s.branches[j]) {
        assert IsScalar(s.branches[i]) && IsScalar(s.branches[j]);
        LeavesAreSeparated(c, s.branches[i], s.branches[j]);
      }
      assert forall i | 0 <= i < |s.branches| :: IsScalar(s.branches[i]);
      hide Separated;
    }
  }

  lemma {:induction false} OperandSeparated(c: Codec, s: Schema)
    requires Built(c) && IsOperand(s)
    ensures Supported(c, s) && UnionsSeparated(c, s)
  {
    if s.Items? {
      AtomicSeparated(c, s.item);
    } else {
      AtomicSeparated(c, s);
    }
  }

  lemma {:induction false} BranchSeparated(c: Codec, b: Branch)
    requires Carries(c) && IsBranch(b)
    ensures Supported(c, SchemaOf(b)) && UnionsSeparated(c, SchemaOf(b))
  {
    BranchSupported(c, b);
    forall k | k in PropertiesOf(b)
      ensures Supported(c, PropertiesOf(b)[k]) && UnionsSeparated(c, PropertiesOf(b)[k])
    {
      PropertySeparated(c, b, k);
    }
    hide PropertiesOf, Required, IsBranch, Built;
  }

  lemma {:induction false} PropertySeparated(c: Codec, b: Branch, k: string)
    requires Built(c) && IsBranch(b) && k in PropertiesOf(b)
    ensures Supported(c, PropertiesOf(b)[k]) && UnionsSeparated(c, PropertiesOf(b)[k])
  {
    if b.Static? || b.Related? {
      OperandSeparated(c, b.operand);
    }
    hide IsOperand;
    assert (k == "value" && (b.Static? || b.Related?)) || PropertiesOf(b)[k].Leaf?;
  }

  lemma {:induction false} PairExactly(c: Codec, a: Branch, b: Branch)
    requires Carries(c) && IsBranch(a) && IsBranch(b) && (Differ(a, b) || AreTwins(a, b))
    ensures Supported(c, SchemaOf(a)) && Supported(c, SchemaOf(b))
    ensures Separated(c, SchemaOf(a), SchemaOf(b)) <==> !LookAlike(a, b)
  {
    hide Separated, DisjointWire, SchemaOf, Supported, Built, IsBranch, Accepts;
    if AreTwins(a, b) {
      TwinsExactly(c, a, b);
    } else {
      DifferentApart(c, a, b);
      DisjointIsSeparated(c, SchemaOf(a), SchemaOf(b));
    }
  }

  /** A union of such branches is separated exactly if no literal can be taken for the anchor. */
  lemma {:induction false} UnionExactly(c: Codec, bs: seq<Branch>)
    requires Carries(c) && ToldApart(bs)
    ensures Supported(c, UnionOf(bs))
    ensures UnionsSeparated(c, UnionOf(bs)) <==> NoneLookAlike(bs)
  {
    hide Separated, SchemaOf, IsBranch, Differ, AreTwins, LookAlike, Built;
    var schemas := UnionOf(bs).branches;
    forall i | 0 <= i < |bs| ensures Supported(c, schemas[i]) && UnionsSeparated(c, schemas[i]) {
      assert bs[i] in bs;
      BranchSeparated(c, bs[i]);
    }
    forall i, j | 0 <= i < j < |bs|
      ensures Separated(c, schemas[i], schemas[j]) <==> !LookAlike(bs[i], bs[j])
    {
      assert bs[i] in bs && bs[j] in bs;
      PairExactly(c, bs[i], bs[j]);
    }
  }

  // ---- The unions that the program builds ----

  /** What the program knows of a property: the schema of its literals, its scalar operators, its
      other operators in order, the properties it can be compared with, where it occurs, whether it
      is a date, the bounds of a date difference, and whether a traversal filters by it. */
  datatype Contract = Contract(
    name: string, literal: Schema, scalar: set<string>, others: seq<string>, anchors: set<string>,
    entity: bool, relation: bool, dated: bool, least: int, most: int, traversal: bool)

  datatype Entry = Property(contract: Contract) | Collection(predicates: set<string>)

  predicate IsContract(p: Contract) {
    && IsAtomic(p.literal)
    && (forall i | 0 <= i < |p.others| :: p.others[i] !in p.scalar)
    && forall i, j | 0 <= i < j < |p.others| :: p.others[i] != p.others[j]
  }

  const BOOL_OR_NULL := AnyOf([Leaf({TBool}, Anything, None), Leaf({TNull}, Anything, None)])

  function OperandOf(operator: string, literal: Schema): Schema {
    if operator == "exists" then BOOL_OR_NULL
    else if operator == "in" then Items(literal, 1, None)
    else if operator == "date_range" then Items(literal, 2, Some(2))
    else literal
  }

  function OthersOf(p: Contract, related: bool): (bs: seq<Branch>)
    ensures |bs| == |p.others|
  {
    seq(|p.others|, i requires 0 <= i < |p.others| =>
      var operand := OperandOf(p.others[i], p.literal);
      if related then Related(p.name, {p.others[i]}, operand) else Static(p.name, {p.others[i]}, operand))
  }

  /** The comparisons by scalar operators. */
  function ScalarsOf(p: Contract, related: bool): seq<Branch> {
    if p.scalar == {} then []
    else if related then [Related(p.name, p.scalar, p.literal)]
    else if p.traversal then [Static(p.name, p.scalar, p.literal), Anchored(p.name, p.scalar, p.anchors)]
    else [Static(p.name, p.scalar, p.literal)]
  }

  function ComparisonsOf(p: Contract, related: bool): seq<Branch> {
    ScalarsOf(p, related) + OthersOf(p, related)
  }

  function ComputedOf(p: Contract): seq<Branch> {
    if !p.traversal && p.entity && p.dated then [Computed(p.name, p.least, p.most)] else []
  }

  /** `filter_branches` of one property, or the branch of the collection predicates. */
  function BranchesOf(e: Entry): seq<Branch> {
    match e
    case Property(p) =>
      (if p.entity then ComparisonsOf(p, false) else [])
        + (if p.relation then ComparisonsOf(p, true) else []) + ComputedOf(p)
    case Collection(names) => [Predicates(names)]
  }

  function Filters(es: seq<Entry>): seq<Branch> {
    if es == [] then [] else BranchesOf(es[0]) + Filters(es[1..])
  }

  /** Every property comes once, and the collection predicates at most once. */
  ghost predicate AreEntries(es: seq<Entry>) {
    && (forall e | e in es && e.Property? :: IsContract(e.contract))
    && forall i, j | 0 <= i < j < |es| ::
         if es[i].Property? && es[j].Property? then es[i].contract.name != es[j].contract.name
         else es[i].Property? || es[j].Property?
  }

  /** The comparisons of this property with its literal and with the anchor look alike. */
  predicate TakesAnchor(e: Entry) {
    && e.Property? && IsAtomic(e.contract.literal)
    && e.contract.traversal && e.contract.entity && e.contract.scalar != {}
    && Accepts(e.contract.literal, ANCHOR)
  }

  lemma DifferentDoNotLookAlike(a: Branch, b: Branch)
    requires Differ(a, b)
    ensures !LookAlike(a, b)
  {
  }

  lemma ToldApartAppend(a: seq<Branch>, b: seq<Branch>)
    requires ToldApart(a) && ToldApart(b) && forall x, y | x in a && y in b :: Differ(x, y)
    ensures ToldApart(a + b)
    ensures NoneLookAlike(a + b) <==> NoneLookAlike(a) && NoneLookAlike(b)
  {
    hide Differ, AreTwins, LookAlike, IsBranch;
    var bs := a + b;
    forall i, j | 0 <= i < j < |bs| && i < |a| <= j ensures Differ(bs[i], bs[j]) && !LookAlike(bs[i], bs[j]) {
      assert bs[i] in a && bs[j] in b;
      DifferentDoNotLookAlike(bs[i], bs[j]);
    }
    assert forall i | 0 <= i < |a| :: bs[i] == a[i];
    assert forall j | 0 <= j < |b| :: bs[|a| + j] == b[j];
    forall i, j | |a| <= i < j < |bs|
      ensures Differ(bs[i], bs[j]) || AreTwins(bs[i], bs[j])
      ensures LookAlike(bs[i], bs[j]) <==> LookAlike(b[i - |a|], b[j - |a|])
    {
      assert bs[i] == b[i - |a|] && bs[j] == b[j - |a|];
    }
    if NoneLookAlike(bs) {
      forall i, j | 0 <= i < j < |b| ensures !LookAlike(b[i], b[j]) {
        assert !LookAlike(bs[|a| + i], bs[|a| + j]);
      }
      forall i, j | 0 <= i < j < |a| ensures !LookAlike(a[i], a[j]) {
        assert !LookAlike(bs[i], bs[j]);
      }
    }
  }

  lemma OperandIsOperand(operator: string, literal: Schema)
    requires IsAtomic(literal)
    ensures IsOperand(OperandOf(operator, literal))
  {
  }

  lemma {:induction false} ScalarsApart(p: Contract, related: bool)
    requires IsContract(p)
    ensures ToldApart(ScalarsOf(p, related))
    ensures NoneLookAlike(ScalarsOf(p, related)) <==>
      related || !p.traversal || p.scalar == {} || !Accepts(p.literal, ANCHOR)
    ensures forall b | b in ScalarsOf(p, related) ::
      Compares(b) && b.name == p.name && b.operators == p.scalar && b.Related? == related
  {
    hide Accepts;
    var bs := ScalarsOf(p, related);
    if !related && p.traversal && p.scalar != {} {
      assert bs[0] == Static(p.name, p.scalar, p.literal) && bs[1] == Anchored(p.name, p.scalar, p.anchors);
    }
  }

  lemma {:induction false} OthersApart(p: Contract, related: bool)
    requires IsContract(p)
    ensures ToldApart(OthersOf(p, related)) && NoneLookAlike(OthersOf(p, related))
    ensures forall b | b in OthersOf(p, related) ::
      Compares(b) && b.name == p.name && b.operators !! p.scalar && b.Related? == related
  {
    var bs := OthersOf(p, related);
    forall i | 0 <= i < |bs| ensures IsBranch(bs[i]) {
      OperandIsOperand(p.others[i], p.literal);
    }
    hide IsBranch;
  }

  lemma {:induction false} ComparisonsApart(p: Contract, related: bool)
    requires IsContract(p)
    ensures ToldApart(ComparisonsOf(p, related))
    ensures NoneLookAlike(ComparisonsOf(p, related)) <==>
      related || !p.traversal || p.scalar == {} || !Accepts(p.literal, ANCHOR)
    ensures forall b | b in ComparisonsOf(p, related) :: Compares(b) && b.name == p.name && b.Related? == related
  {
    hide ScalarsOf, OthersOf, Accepts, ToldApart, NoneLookAlike;
    ScalarsApart(p, related);
    OthersApart(p, related);
    ToldApartAppend(ScalarsOf(p, related), OthersOf(p, related));
  }

  /** The branch is of the entry. */
  predicate BelongsTo(b: Branch, e: Entry) {
    if e.Property? then !b.Predicates? && b.name == e.contract.name else b.Predicates?
  }

  lemma NothingToTellApart()
    ensures ToldApart([]) && NoneLookAlike([])
  {
  }

  lemma {:induction false} EntryApart(e: Entry)
    requires e.Property? ==> IsContract(e.contract)
    ensures ToldApart(BranchesOf(e))
    ensures NoneLookAlike(BranchesOf(e)) <==> !TakesAnchor(e)
    ensures forall b | b in BranchesOf(e) :: BelongsTo(b, e)
  {
    if e.Property? {
      hide ToldApart, NoneLookAlike, Accepts, IsContract, ComparisonsOf, ComputedOf;
      PropertyApart(e.contract);
    }
  }

  lemma {:induction false} PropertyApart(p: Contract)
    requires IsContract(p)
    ensures var bs := BranchesOf(Property(p));
      && ToldApart(bs)
      && (NoneLookAlike(bs) <==>
            !p.entity || !p.traversal || p.scalar == {} || !Accepts(p.literal, ANCHOR))
      && forall b | b in bs :: !b.Predicates? && b.name == p.name
  {
    hide ComparisonsOf, ComputedOf, ToldApart, NoneLookAlike, Accepts, Differ;
    NothingToTellApart();
    ComparisonsApart(p, false);
    ComparisonsApart(p, true);
    ComputedIsApart(p);
    var a, b := if p.entity then ComparisonsOf(p, false) else [], if p.relation then ComparisonsOf(p, true) else [];
    forall x, y | x in a && y in b ensures Differ(x, y) {
      DifferByKind(x, y);
    }
    ToldApartAppend(a, b);
    forall x, y | x in a + b && y in ComputedOf(p) ensures Differ(x, y) {
      DifferByKind(x, y);
    }
    ToldApartAppend(a + b, ComputedOf(p));
  }

  lemma DifferByKind(x: Branch, y: Branch)
    requires Compares(x)
    requires if Compares(y) then x.Related? != y.Related? else y.Computed?
    ensures Differ(x, y)
  {
  }

  lemma ComputedIsApart(p: Contract)
    ensures ToldApart(ComputedOf(p)) && NoneLookAlike(ComputedOf(p))
    ensures forall b | b in ComputedOf(p) :: b.Computed? && b.name == p.name
  {
  }

  lemma {:induction false} FilterOrigin(es: seq<Entry>, b: Branch) returns (k: nat)
    requires AreEntries(es) && b in Filters(es)
    ensures k < |es| && BelongsTo(b, es[k])
  {
    hide BranchesOf, BelongsTo;
    if b in BranchesOf(es[0]) {
      assert es[0] in es;
      EntryApart(es[0]);
      k := 0;
    } else {
      k := FilterOrigin(es[1..], b);
      k := k + 1;
    }
  }

  lemma {:induction false} FiltersApart(es: seq<Entry>)
    requires AreEntries(es)
    ensures ToldApart(Filters(es))
    ensures NoneLookAlike(Filters(es)) <==> forall e | e in es :: !TakesAnchor(e)
  {
    hide BranchesOf, ToldApart, NoneLookAlike, TakesAnchor, IsContract;
    NothingToTellApart();
    if es != [] {
      assert es[0] in es;
      EntryApart(es[0]);
      FiltersApart(es[1..]);
      forall x, y | x in BranchesOf(es[0]) && y in Filters(es[1..]) ensures Differ(x, y) {
        var k := FilterOrigin(es[1..], y);
        assert BelongsTo(x, es[0]) && BelongsTo(y, es[k + 1]);
        assert if es[0].Property? && es[k + 1].Property? then es[0].contract.name != es[k + 1].contract.name
               else es[0].Property? || es[k + 1].Property?;
      }
      ToldApartAppend(BranchesOf(es[0]), Filters(es[1..]));
      assert forall e :: e in es <==> e == es[0] || e in es[1..];
    }
  }

  /** A filter union of the program is separated exactly if no property that a traversal compares
      with the anchor has a literal that accepts the text of the anchor. Otherwise `AnchorIsMisread`
      tells what goes wrong. */
  lemma {:induction false} FilterUnionExactly(c: Codec, es: seq<Entry>)
    requires Carries(c) && AreEntries(es)
    ensures Supported(c, UnionOf(Filters(es)))
    ensures UnionsSeparated(c, UnionOf(Filters(es))) <==> forall e | e in es :: !TakesAnchor(e)
  {
    hide Filters, ToldApart, NoneLookAlike, TakesAnchor, UnionOf, IsContract;
    FiltersApart(es);
    UnionExactly(c, Filters(es));
  }
}
