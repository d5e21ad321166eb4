/** Lossless tables for repeated object shapes in the capability payload. */
module Capabilities {
  import opened Text
  import opened Json

  const TABLE := "$table"
  const LITERAL := "$literal"

  /** The common column set of an object of at least two objects with equal keys. */
  function Columns(m: map<string, Json>): (r: Option<set<string>>)
    ensures r.Some? ==> forall k | k in m :: m[k].Obj? && m[k].fields.Keys == r.value
    ensures r.Some? <==>
      && |m| > 1 && (forall k | k in m :: m[k].Obj?)
      && forall j, k | j in m && k in m :: m[j].fields.Keys == m[k].fields.Keys
  {
    if |m| > 1 && (forall k | k in m :: m[k].Obj?) then
      var columns := m[Least(m.Keys)].fields.Keys;
      if forall k | k in m :: m[k].fields.Keys == columns then Some(columns) else None
    else None
  }

  function Strings(names: seq<string>): (r: seq<Json>)
    ensures |r| == |names| && forall i | 0 <= i < |r| :: r[i] == Str(names[i])
  {
    seq(|names|, i requires 0 <= i < |names| => Str(names[i]))
  }

  /** `[[key, value], ...]` in key order. */
  function Pairs(fields: map<string, Json>): (r: seq<Json>)
    ensures |r| == |fields|
    ensures forall i | 0 <= i < |r| :: r[i] == Arr([Str(Sorted(fields.Keys)[i]), fields[Sorted(fields.Keys)[i]]])
  {
    var keys := Sorted(fields.Keys);
    seq(|keys|, i requires 0 <= i < |keys| => Arr([Str(keys[i]), fields[keys[i]]]))
  }

  /** The values in key order. */
  function InKeyOrder(fields: map<string, Json>): (r: seq<Json>)
    ensures |r| == |fields|
    ensures forall i | 0 <= i < |r| :: r[i] == fields[Sorted(fields.Keys)[i]]
  {
    var keys := Sorted(fields.Keys);
    seq(|keys|, i requires 0 <= i < |keys| => fields[keys[i]])
  }

  function TableRow(key: string, columns: set<string>, cells: map<string, Json>): (r: seq<Json>)
    requires columns <= cells.Keys
    ensures |r| == 1 + |columns| && r[0] == Str(key)
    ensures forall j | 0 <= j < |columns| :: r[1 + j] == cells[Sorted(columns)[j]]
  {
    var names := Sorted(columns);
    [Str(key)] + seq(|names|, j requires 0 <= j < |names| => cells[names[j]])
  }

  /** `{"$table": [columns, rows]}`, rows in key order, cells in column order. */
  function Table(columns: set<string>, rows: map<string, map<string, Json>>): Json
    requires forall k | k in rows :: columns <= rows[k].Keys
  {
    var keys := Sorted(rows.Keys);
    Obj(map[TABLE := Arr([
      Arr(Strings(Sorted(columns))),
      Arr(seq(|keys|, i requires 0 <= i < |keys| => Arr(TableRow(keys[i], columns, rows[keys[i]]))))])])
  }

  function Pack(v: Json): Json {
    match v
    case Arr(items) => Arr(seq(|items|, i requires 0 <= i < |items| => Pack(items[i])))
    case Obj(fields) =>
      var packed := map k | k in fields :: Pack(fields[k]);
      if TABLE in fields || LITERAL in fields then Obj(map[LITERAL := Arr(Pairs(packed))])
      else
        var columns := Columns(fields);
        if columns.None? then Obj(packed)
        else
          var table := Table(columns.value, map k | k in fields :: PackCells(fields[k]));
          if |CanonicalText(table)| < |CanonicalText(Obj(packed))| then table else Obj(packed)
    case _ => v
  }

  /** The packed values of a row, its own shape not looked at. */
  function PackCells(row: Json): (r: map<string, Json>)
    requires row.Obj?
    ensures r.Keys == row.fields.Keys
    decreases row, 0
  {
    map k | k in row.fields :: Pack(row.fields[k])
  }

  // ---- Unpacking ----

  /** A dictionary built from pairs; a later key wins. */
  function FromPairs(keys: seq<string>, values: seq<Json>): map<string, Json>
    requires |keys| == |values|
  {
    if keys == [] then map[]
    else
      var n := |keys| - 1;
      FromPairs(keys[..n], values[..n])[keys[n] := values[n]]
  }

  predicate AreStrings(names: seq<Json>) {
    forall i | 0 <= i < |names| :: names[i].Str?
  }

  function StringsOf(names: seq<Json>): (r: seq<string>)
    requires AreStrings(names)
    ensures |r| == |names| && forall i | 0 <= i < |r| :: r[i] == names[i].s
  {
    seq(|names|, i requires 0 <= i < |names| => names[i].s)
  }

  /** A list of two-element lists that start with a string. */
  predicate IsPairs(v: Json) {
    v.Arr? && forall i | 0 <= i < |v.items| ::
      v.items[i].Arr? && |v.items[i].items| == 2 && v.items[i].items[0].Str?
  }

  /** Column names and rows that each hold a string key and one cell per column. */
  predicate IsTable(v: Json) {
    && v.Arr? && |v.items| == 2 && v.items[0].Arr? && v.items[1].Arr?
    && AreStrings(v.items[0].items)
    && forall i | 0 <= i < |v.items[1].items| ::
         var row := v.items[1].items[i];
         row.Arr? && |row.items| == 1 + |v.items[0].items| && row.items[0].Str?
  }

  function Unpack(v: Json): Option<Json> {
    match v
    case Arr(items) =>
      var r := AllSome(seq(|items|, i requires 0 <= i < |items| => Unpack(items[i])));
      if r.None? then None else Some(Arr(r.value))
    case Obj(fields) =>
      if fields.Keys == {LITERAL} then
        if !IsPairs(fields[LITERAL]) then None
        else
          var pairs := fields[LITERAL].items;
          var values := AllSome(seq(|pairs|, i requires 0 <= i < |pairs| => Unpack(pairs[i].items[1])));
          if values.None? then None
          else Some(Obj(FromPairs(seq(|pairs|, i requires 0 <= i < |pairs| => pairs[i].items[0].s), values.value)))
      else if fields.Keys == {TABLE} then
        if !IsTable(fields[TABLE]) then None
        else
          var columns, rows := StringsOf(fields[TABLE].items[0].items), fields[TABLE].items[1].items;
          var values := AllSome(seq(|rows|, i requires 0 <= i < |rows| => UnpackRow(rows[i], columns)));
          if values.None? then None
          else Some(Obj(FromPairs(seq(|rows|, i requires 0 <= i < |rows| => rows[i].items[0].s), values.value)))
      else
        var r := AllSomeFields(map k | k in fields :: Unpack(fields[k]));
        if r.None? then None else Some(Obj(r.value))
    case _ => Some(v)
  }

  function UnpackRow(row: Json, columns: seq<string>): Option<Json>
    requires row.Arr? && |row.items| == 1 + |columns|
    decreases row, 0
  {
    var cells := AllSome(seq(|columns|, j requires 0 <= j < |columns| => Unpack(row.items[1 + j])));
    if cells.None? then None else Some(Obj(FromPairs(columns, cells.value)))
  }

  // ---- Losslessness ----

  lemma {:induction false} FromPairsEntries(keys: seq<string>, values: seq<Json>)
    requires |keys| == |values|
    requires forall i, j | 0 <= i < j < |keys| :: keys[i] != keys[j]
    ensures FromPairs(keys, values).Keys == set i | 0 <= i < |keys| :: keys[i]
    ensures forall i | 0 <= i < |keys| :: FromPairs(keys, values)[keys[i]] == values[i]
  {
    if keys != [] {
      var n := |keys| - 1;
      FromPairsEntries(keys[..n], values[..n]);
      forall i | 0 <= i < |keys|
        ensures keys[i] in FromPairs(keys, values) && FromPairs(keys, values)[keys[i]] == values[i]
      {
        if i < n {
          assert keys[..n][i] == keys[i];
        }
      }
    }
  }

  /** Listing a dictionary in key order and building it again gives the dictionary. */
  lemma SortedPairs(fields: map<string, Json>)
    ensures FromPairs(Sorted(fields.Keys), InKeyOrder(fields)) == fields
  {
    var keys := Sorted(fields.Keys);
    SortedDistinct(fields.Keys);
    hide Sorted, Position, FromPairs;
    FromPairsEntries(keys, InKeyOrder(fields));
    forall k | k in fields
      ensures k in FromPairs(keys, InKeyOrder(fields)) && FromPairs(keys, InKeyOrder(fields))[k] == fields[k]
    {
      assert keys[Position(fields.Keys, k)] == k;
    }
  }

  lemma {:induction false} LiteralBack(fields: map<string, Json>, packed: map<string, Json>)
    requires packed.Keys == fields.Keys
    requires forall k | k in fields :: Unpack(packed[k]) == Some(fields[k])
    ensures Unpack(Obj(map[LITERAL := Arr(Pairs(packed))])) == Some(Obj(fields))
  {
    hide Sorted, FromPairs;
    var v := Obj(map[LITERAL := Arr(Pairs(packed))]);
    var pairs, keys := Pairs(packed), Sorted(fields.Keys);
    var parts := seq(|pairs|, i requires 0 <= i < |pairs| => Unpack(pairs[i].items[1]));
    assert v.fields.Keys == {LITERAL} && IsPairs(v.fields[LITERAL]);
    assert seq(|pairs|, i requires 0 <= i < |pairs| => pairs[i].items[0].s) == keys;
    forall i | 0 <= i < |parts| ensures parts[i] == Some(fields[keys[i]]) {
      assert pairs[i].items[1] == packed[keys[i]];
    }
    assert AllSome(parts).value == InKeyOrder(fields);
    SortedPairs(fields);
  }

  lemma {:induction false} RowBack(key: string, columns: set<string>, row: Json, cells: map<string, Json>)
    requires row.Obj? && row.fields.Keys == columns == cells.Keys
    requires forall k | k in columns :: Unpack(cells[k]) == Some(row.fields[k])
    ensures UnpackRow(Arr(TableRow(key, columns, cells)), Sorted(columns)) == Some(row)
  {
    hide Sorted, Unpack, TableRow;
    var names := Sorted(columns);
    var items := TableRow(key, columns, cells);
    var parts := seq(|names|, j requires 0 <= j < |names| => Unpack(items[1 + j]));
    forall j | 0 <= j < |names| ensures parts[j] == Some(row.fields[names[j]]) {
    }
    assert AllSome(parts).value == InKeyOrder(row.fields);
    SortedPairs(row.fields);
  }

  function TableLines(columns: set<string>, rows: map<string, map<string, Json>>): (r: seq<Json>)
    requires forall k | k in rows :: columns <= rows[k].Keys
    ensures |r| == |rows|
    ensures forall i | 0 <= i < |r| ::
              r[i] == Arr(TableRow(Sorted(rows.Keys)[i], columns, rows[Sorted(rows.Keys)[i]]))
  {
    var keys := Sorted(rows.Keys);
    seq(|keys|, i requires 0 <= i < |keys| => Arr(TableRow(keys[i], columns, rows[keys[i]])))
  }

  lemma {:induction false} LinesBack(columns: set<string>, fields: map<string, Json>,
      rows: map<string, map<string, Json>>)
    requires rows.Keys == fields.Keys
    requires forall k | k in fields :: fields[k].Obj? && fields[k].fields.Keys == columns == rows[k].Keys
    requires forall k, column | k in fields && column in columns ::
               Unpack(rows[k][column]) == Some(fields[k].fields[column])
    ensures forall i | 0 <= i < |fields| ::
              UnpackRow(TableLines(columns, rows)[i], Sorted(columns)) == Some(fields[Sorted(fields.Keys)[i]])
  {
    hide Unpack, UnpackRow, TableRow, Sorted;
    var keys := Sorted(fields.Keys);
    forall i | 0 <= i < |fields|
      ensures UnpackRow(TableLines(columns, rows)[i], Sorted(columns)) == Some(fields[keys[i]])
    {
      var k := keys[i];
      assert k in fields;
      RowBack(k, columns, fields[k], rows[k]);
    }
  }

  lemma {:induction false} UnpackTable(names: seq<string>, lines: seq<Json>, keys: seq<string>, objects: seq<Json>)
    requires |keys| == |objects| == |lines|
    requires forall i | 0 <= i < |lines| ::
               lines[i].Arr? && |lines[i].items| == 1 + |names| && lines[i].items[0] == Str(keys[i])
    requires forall i | 0 <= i < |lines| :: UnpackRow(lines[i], names) == Some(objects[i])
    ensures Unpack(Obj(map[TABLE := Arr([Arr(Strings(names)), Arr(lines)])])) == Some(Obj(FromPairs(keys, objects)))
  {
    hide UnpackRow, FromPairs;
    var body := Arr([Arr(Strings(names)), Arr(lines)]);
    var rows := body.items[1].items;
    assert TABLE[1] != LITERAL[1];
    assert (map[TABLE := body]).Keys == {TABLE};
    assert AreStrings(body.items[0].items) && StringsOf(body.items[0].items) == names;
    assert IsTable(body);
    assert AllSome(seq(|rows|, i requires 0 <= i < |rows| => UnpackRow(rows[i], names))).value == objects;
    assert seq(|rows|, i requires 0 <= i < |rows| => rows[i].items[0].s) == keys;
  }

  lemma {:induction false} TableBack(columns: set<string>, fields: map<string, Json>,
      rows: map<string, map<string, Json>>)
    requires rows.Keys == fields.Keys
    requires forall k | k in fields :: fields[k].Obj? && fields[k].fields.Keys == columns == rows[k].Keys
    requires forall k, column | k in fields && column in columns ::
               Unpack(rows[k][column]) == Some(fields[k].fields[column])
    ensures Unpack(Table(columns, rows)) == Some(Obj(fields))
  {
    hide Sorted, Unpack, UnpackRow, TableRow, FromPairs, Strings;
    LinesBack(columns, fields, rows);
    SortedPairs(fields);
    TableIsLines(columns, rows);
    hide Table;
    UnpackTable(Sorted(columns), TableLines(columns, rows), Sorted(fields.Keys), InKeyOrder(fields));
  }

  lemma {:induction false} TableIsLines(columns: set<string>, rows: map<string, map<string, Json>>)
    requires forall k | k in rows :: columns <= rows[k].Keys
    ensures Table(columns, rows)
      == Obj(map[TABLE := Arr([Arr(Strings(Sorted(columns))), Arr(TableLines(columns, rows))])])
  {
    hide Sorted, TableRow, Strings;
  }

  lemma {:induction false} FieldsBack(fields: map<string, Json>, packed: map<string, Json>)
    requires packed.Keys == fields.Keys && packed.Keys != {LITERAL} && packed.Keys != {TABLE}
    requires forall k | k in fields :: Unpack(packed[k]) == Some(fields[k])
    ensures Unpack(Obj(packed)) == Some(Obj(fields))
  {
    var parts := map k | k in packed :: Unpack(packed[k]);
    assert AllSomeFields(parts).value == fields;
  }

  lemma {:induction false} ItemsBack(items: seq<Json>, packed: seq<Json>)
    requires |packed| == |items|
    requires forall i | 0 <= i < |items| :: Unpack(packed[i]) == Some(items[i])
    ensures Unpack(Arr(packed)) == Some(Arr(items))
  {
    var parts := seq(|packed|, i requires 0 <= i < |packed| => Unpack(packed[i]));
    assert AllSome(parts).value == items;
  }

  function PackedFields(fields: map<string, Json>): (r: map<string, Json>)
    ensures r.Keys == fields.Keys && forall k | k in r :: r[k] == Pack(fields[k])
  {
    map k | k in fields :: Pack(fields[k])
  }

  function PackedTable(fields: map<string, Json>): Json
    requires Columns(fields).Some?
  {
    Table(Columns(fields).value, map k | k in fields :: PackCells(fields[k]))
  }

  /** What an object is packed into: a literal if it uses a marker key; else a table, exactly when its
      members are at least two objects with the same keys and the table has the shorter text; else
      the object of the packed members. */
  lemma PackObject(fields: map<string, Json>)
    ensures var packed, plain := Pack(Obj(fields)), Obj(PackedFields(fields));
      if TABLE in fields || LITERAL in fields
      then packed == Obj(map[LITERAL := Arr(Pairs(PackedFields(fields)))])
      else if Columns(fields).Some? && |CanonicalText(PackedTable(fields))| < |CanonicalText(plain)|
      then packed == PackedTable(fields)
      else packed == plain
  {
  }

  /** Unpacking the packed form of any value gives the value, marker keys included. */
  lemma {:induction false} Lossless(v: Json)
    ensures Unpack(Pack(v)) == Some(v)
  {
    match v
    case Arr(items) =>
      forall i | 0 <= i < |items| ensures Unpack(Pack(items[i])) == Some(items[i]) {
        Lossless(items[i]);
      }
      ItemsBack(items, seq(|items|, i requires 0 <= i < |items| => Pack(items[i])));
    case Obj(fields) =>
      forall k | k in fields
        ensures Unpack(Pack(fields[k])) == Some(fields[k])
        ensures fields[k].Obj? ==> forall column | column in fields[k].fields ::
                  Unpack(PackCells(fields[k])[column]) == Some(fields[k].fields[column])
      {
        Lossless(fields[k]);
        if fields[k].Obj? {
          forall column | column in fields[k].fields
            ensures Unpack(PackCells(fields[k])[column]) == Some(fields[k].fields[column])
          {
            Lossless(fields[k].fields[column]);
          }
        }
      }
      ObjectLossless(fields);
    case _ =>
  }

  lemma {:induction false} ObjectLossless(fields: map<string, Json>)
    requires forall k | k in fields :: Unpack(Pack(fields[k])) == Some(fields[k])
    requires forall k | k in fields && fields[k].Obj? ::
               forall column | column in fields[k].fields ::
                 Unpack(PackCells(fields[k])[column]) == Some(fields[k].fields[column])
    ensures Unpack(Pack(Obj(fields))) == Some(Obj(fields))
  {
    PackObject(fields);
    hide Pack, Unpack, PackCells;
    if TABLE in fields || LITERAL in fields {
      LiteralBack(fields, PackedFields(fields));
    } else if Pack(Obj(fields)) == Obj(PackedFields(fields)) {
      FieldsBack(fields, PackedFields(fields));
    } else {
      TableBack(Columns(fields).value, fields, map k | k in fields :: PackCells(fields[k]));
    }
  }

  // ---- Size ----

  /** No object anywhere in `v` uses a marker key. */
  predicate Unmarked(v: Json) {
    match v
    case Arr(items) => forall i | 0 <= i < |items| :: Unmarked(items[i])
    case Obj(fields) =>
      TABLE !in fields && LITERAL !in fields && forall k | k in fields :: Unmarked(fields[k])
    case _ => true
  }

  lemma {:induction false} JoinedGrows(a: seq<string>, b: seq<string>)
    requires |a| == |b| && forall i | 0 <= i < |a| :: |a[i]| <= |b[i]|
    ensures |Joined(a)| <= |Joined(b)|
  {
    if |a| > 1 {
      JoinedGrows(a[1..], b[1..]);
    }
  }

  function MemberTexts(fields: map<string, Json>): (r: seq<string>)
    ensures |r| == |fields|
    ensures forall i | 0 <= i < |r| ::
              r[i] == Quoted(Sorted(fields.Keys)[i]) + ":" + CanonicalText(fields[Sorted(fields.Keys)[i]])
  {
    var keys := Sorted(fields.Keys);
    seq(|keys|, i requires 0 <= i < |keys| => Quoted(keys[i]) + ":" + CanonicalText(fields[keys[i]]))
  }

  lemma {:induction false} ObjectTextGrows(a: map<string, Json>, b: map<string, Json>)
    requires a.Keys == b.Keys && forall k | k in a :: |CanonicalText(a[k])| <= |CanonicalText(b[k])|
    ensures |CanonicalText(Obj(a))| <= |CanonicalText(Obj(b))|
  {
    JoinedGrows(MemberTexts(a), MemberTexts(b));
    assert CanonicalText(Obj(a)) == "{" + Joined(MemberTexts(a)) + "}";
    assert CanonicalText(Obj(b)) == "{" + Joined(MemberTexts(b)) + "}";
  }

  /** Without marker keys the packed text is never longer than the original. */
  lemma {:induction false} NeverLonger(v: Json)
    requires Unmarked(v)
    ensures |CanonicalText(Pack(v))| <= |CanonicalText(v)|
  {
    match v
    case Arr(items) =>
      var packed := seq(|items|, i requires 0 <= i < |items| => Pack(items[i]));
      var a := seq(|packed|, i requires 0 <= i < |packed| => CanonicalText(packed[i]));
      var b := seq(|items|, i requires 0 <= i < |items| => CanonicalText(items[i]));
      forall i | 0 <= i < |items| ensures |a[i]| <= |b[i]| {
        NeverLonger(items[i]);
      }
      JoinedGrows(a, b);
    case Obj(fields) =>
      var packed := map k | k in fields :: Pack(fields[k]);
      forall k | k in fields ensures |CanonicalText(packed[k])| <= |CanonicalText(fields[k])| {
        NeverLonger(fields[k]);
      }
      ObjectTextGrows(packed, fields);
    case _ =>
  }
}
