/** Matching the rows of an answer against the rows that are expected, one by one and greedily. */
module RowScoring {
  import opened Text
  import opened Json

  type Fields = map<string, Json>

  /** `dict.get`: a missing field reads as null. */
  function Get(row: Fields, key: string): Json {
    if key in row then row[key] else Null
  }

  /** `values_match` on two mappings: every stated field has its value. */
  predicate Matches(actual: Fields, expected: Fields) {
    forall key | key in expected :: Get(actual, key) == expected[key]
  }

  const REQUIRED := {"entity_id", "value", "unit", "status"}

  /** An expected row that does not state what a row has to state. */
  datatype IncompleteExpectation = IncompleteExpectation

  /** The first row from `i` on that matches. */
  function FirstMatch(rows: seq<Fields>, expected: Fields): (i: Option<nat>)
    ensures i.Some? ==> i.value < |rows| && Matches(rows[i.value], expected)
    ensures i.Some? ==> forall j | 0 <= j < i.value :: !Matches(rows[j], expected)
    ensures i.None? ==> forall row | row in rows :: !Matches(row, expected)
  {
    if rows == [] then None
    else if Matches(rows[0], expected) then Some(0)
    else
      var rest := FirstMatch(rows[1..], expected);
      if rest.Some? then Some(rest.value + 1) else None
  }

  function Pop<T>(rows: seq<T>, i: nat): (r: seq<T>)
    requires i < |rows|
    ensures |r| == |rows| - 1 && multiset(r) == multiset(rows) - multiset{rows[i]}
    ensures forall k | 0 <= k < |r| :: r[k] == rows[if k < i then k else k + 1]
  {
    assert rows == rows[..i] + [rows[i]] + rows[i + 1..];
    rows[..i] + rows[i + 1..]
  }

  /** Each expected row takes the first actual row that matches it out of the list. */
  function Greedy(expected: seq<Fields>, actual: seq<Fields>): Result<bool, IncompleteExpectation> {
    if expected == [] then Ok(true)
    else if !(REQUIRED <= expected[0].Keys) then Err(IncompleteExpectation)
    else
      var i := FirstMatch(actual, expected[0]);
      if i.None? then Ok(false) else Greedy(expected[1..], Pop(actual, i.value))
  }

  /** The loop over the expected rows, after the check that there are as many actual ones. */
  method ScoreRows(expected: seq<Fields>, actual: seq<Fields>) returns (r: Result<bool, IncompleteExpectation>)
    ensures r == if |expected| != |actual| then Ok(false) else Greedy(expected, actual)
  {
    if |expected| != |actual| {
      return Ok(false);
    }
    var rows := actual;
    for n := 0 to |expected|
      invariant Greedy(expected, actual) == Greedy(expected[n..], rows)
    {
      if !(REQUIRED <= expected[n].Keys) {
        return Err(IncompleteExpectation);
      }
      var i := FirstMatch(rows, expected[n]);
      if i.None? {
        return Ok(false);
      }
      assert expected[n..][1..] == expected[n + 1..];
      rows := Pop(rows, i.value);
    }
    r := Ok(true);
  }

  /** A bijection between expected and actual rows in which partners match: `partners` is a
      rearrangement of the actual rows. */
  ghost predicate Pairing(expected: seq<Fields>, actual: seq<Fields>, partners: seq<Fields>) {
    && |partners| == |expected| && multiset(partners) == multiset(actual)
    && forall i | 0 <= i < |expected| :: Matches(partners[i], expected[i])
  }

  lemma PairingCons(expected: seq<Fields>, actual: seq<Fields>, i: nat, rest: seq<Fields>)
    requires expected != [] && i < |actual| && Matches(actual[i], expected[0])
    requires Pairing(expected[1..], Pop(actual, i), rest)
    ensures Pairing(expected, actual, [actual[i]] + rest)
  {
    hide Matches, Pop;
    var partners := [actual[i]] + rest;
    forall j | 0 <= j < |expected| ensures Matches(partners[j], expected[j]) {
      if j > 0 {
        assert expected[j] == expected[1..][j - 1] && partners[j] == rest[j - 1];
      }
    }
    assert actual[i] in multiset(actual);
  }

  /** Acceptance is sound: it comes with a bijection. */
  lemma {:induction false} AcceptedHavePairing(expected: seq<Fields>,
      actual: seq<Fields>) returns (partners: seq<Fields>)
    requires |expected| == |actual| && Greedy(expected, actual) == Ok(true)
    ensures Pairing(expected, actual, partners)
  {
    if expected == [] {
      partners := [];
    } else {
      hide Matches, Pop, Pairing, FirstMatch;
      var i := FirstMatch(actual, expected[0]).value;
      var rest := AcceptedHavePairing(expected[1..], Pop(actual, i));
      PairingCons(expected, actual, i, rest);
      partners := [actual[i]] + rest;
    }
  }

  /** The expected row that does not state enough is reported exactly if all rows before it do and
      find their partners. */
  lemma {:induction false} IncompleteExactly(expected: seq<Fields>, actual: seq<Fields>)
    ensures Greedy(expected, actual).Err? <==>
      exists n :: 0 <= n < |expected| && !(REQUIRED <= expected[n].Keys) && Greedy(expected[..n], actual) == Ok(true)
  {
    if expected != [] {
      hide Matches, Pop, FirstMatch;
      var i := FirstMatch(actual, expected[0]);
      if REQUIRED <= expected[0].Keys && i.Some? && i.value < |actual| {
        var tail, rest := expected[1..], Pop(actual, i.value);
        IncompleteExactly(tail, rest);
        forall n | 0 < n <= |expected|
          ensures Greedy(expected[..n], actual) == Greedy(tail[..n - 1], rest)
        {
          assert expected[..n][1..] == tail[..n - 1];
        }
        if n :| 0 <= n < |tail| && !(REQUIRED <= tail[n].Keys) && Greedy(tail[..n], rest) == Ok(true) {
          assert expected[n + 1] == tail[n] && Greedy(expected[..n + 1], actual) == Ok(true);
        }
        if n :| 0 <= n < |expected| && !(REQUIRED <= expected[n].Keys) && Greedy(expected[..n], actual) == Ok(true) {
          assert tail[n - 1] == expected[n];
        }
      } else {
        assert !(REQUIRED <= expected[0].Keys) ==> Greedy(expected[..0], actual) == Ok(true);
      }
    }
  }

  // ---- When the greedy choice is also complete ----

  /** Two expected rows that no actual row can match at once. */
  predicate Conflict(a: Fields, b: Fields) {
    exists key :: key in a && key in b && a[key] != b[key]
  }

  /** Everything that `b` states, `a` states too. */
  predicate Includes(a: Fields, b: Fields) {
    forall key | key in b :: key in a && a[key] == b[key]
  }

  /** Of two expected rows that an actual row can match at once, the first states more. */
  ghost predicate SpecificFirst(expected: seq<Fields>) {
    forall i, j | 0 <= i < j < |expected| :: Conflict(expected[i], expected[j]) || Includes(expected[i], expected[j])
  }

  ghost predicate AllComplete(expected: seq<Fields>) {
    forall i | 0 <= i < |expected| :: REQUIRED <= expected[i].Keys
  }

  lemma {:induction false} CommonRowIncludes(row: Fields, a: Fields, b: Fields)
    requires Matches(row, a) && Matches(row, b)
    ensures !Conflict(a, b)
  {
    forall key | key in a && key in b ensures a[key] == b[key] {
      assert Get(row, key) == a[key] == b[key];
    }
  }

  lemma {:induction false} MatchesLess(row: Fields, a: Fields, b: Fields)
    requires Matches(row, a) && Includes(a, b)
    ensures Matches(row, b)
  {
    forall key | key in b ensures Get(row, key) == b[key] {
      assert key in a && a[key] == b[key];
    }
  }

  lemma Exchange(rows: seq<Fields>, q: nat)
    requires 0 < q < |rows|
    ensures multiset(rows[1..][q - 1 := rows[0]]) == multiset(rows) - multiset{rows[q]}
  {
    var rest := rows[1..][q - 1 := rows[0]];
    assert rows == [rows[0]] + rows[1..];
    assert rows[1..] == rows[1..q] + [rows[q]] + rows[q + 1..];
    assert rest == rows[1..q] + [rows[0]] + rows[q + 1..];
  }

  /** The partners left when the first expected row took the one of row `q`: that row takes over
      the partner of the first. */
  function Exchanged(partners: seq<Fields>, q: nat): (rest: seq<Fields>)
    requires q < |partners|
    ensures |rest| == |partners| - 1
    ensures forall m | 0 <= m < |rest| :: rest[m] == if m + 1 == q then partners[0] else partners[m + 1]
  {
    if q == 0 then partners[1..] else partners[1..][q - 1 := partners[0]]
  }

  lemma ExchangedContents(partners: seq<Fields>, q: nat)
    requires q < |partners|
    ensures multiset(Exchanged(partners, q)) == multiset(partners) - multiset{partners[q]}
  {
    if q == 0 {
      assert partners == [partners[0]] + partners[1..];
    } else {
      Exchange(partners, q);
    }
  }

  lemma {:induction false} ExchangedMatch(expected: seq<Fields>, partners: seq<Fields>, q: nat, m: nat)
    requires SpecificFirst(expected) && |partners| == |expected| && q < |expected| && m + 1 < |expected|
    requires forall i | 0 <= i < |expected| :: Matches(partners[i], expected[i])
    requires Matches(partners[q], expected[0])
    ensures Matches(Exchanged(partners, q)[m], expected[1..][m])
  {
    hide Matches, Conflict, Includes;
    assert Matches(partners[m + 1], expected[m + 1]);
    if m + 1 == q {
      CommonRowIncludes(partners[q], expected[0], expected[q]);
      assert Matches(partners[0], expected[0]);
      MatchesLess(partners[0], expected[0], expected[q]);
    }
  }

  /** After the first expected row took row `i`, the others can still be paired. */
  lemma {:induction false} TakeOver(expected: seq<Fields>, actual: seq<Fields>, partners: seq<Fields>, i: nat)
    returns (rest: seq<Fields>)
    requires expected != [] && SpecificFirst(expected) && Pairing(expected, actual, partners)
    requires i < |actual| && Matches(actual[i], expected[0])
    ensures Pairing(expected[1..], Pop(actual, i), rest)
  {
    hide Matches, Pop, SpecificFirst, Exchanged;
    assert actual[i] in multiset(partners);
    var q :| 0 <= q < |partners| && partners[q] == actual[i];
    rest := Exchanged(partners, q);
    ExchangedContents(partners, q);
    forall m | 0 <= m < |rest| ensures Matches(rest[m], expected[1..][m]) {
      ExchangedMatch(expected, partners, q, m);
    }
  }

  /** With the more specific row first every pairing is found. */
  lemma {:induction false} SpecificFirstFinds(expected: seq<Fields>, actual: seq<Fields>, partners: seq<Fields>)
    requires SpecificFirst(expected) && AllComplete(expected) && Pairing(expected, actual, partners)
    ensures Greedy(expected, actual) == Ok(true)
  {
    if expected != [] {
      hide Matches, Conflict, Includes, Pop, FirstMatch;
      assert partners[0] in multiset(actual);
      var i := FirstMatch(actual, expected[0]).value;
      var rest := TakeOver(expected, actual, partners, i);
      SpecificFirstFinds(expected[1..], Pop(actual, i), rest);
    }
  }

  // ---- The rows that the program builds ----

  predicate IsText(v: Json) { v.Str? }

  predicate IsTextOrNull(v: Json) { v.Str? || v.Null? }

  predicate IsTexts(v: Json) {
    v.Arr? && forall i | 0 <= i < |v.items| :: IsText(v.items[i])
  }

  predicate IsRelationship(v: Json) {
    && v.Obj? && v.fields.Keys == {"relation", "source_id", "target_id", "start", "end"}
    && IsText(v.fields["relation"])
    && IsTextOrNull(v.fields["source_id"]) && IsTextOrNull(v.fields["target_id"])
  }

  predicate IsEvidence(v: Json) {
    && v.Obj?
    && v.fields.Keys == {"entity_ids", "relationship", "semantic_property", "relationships", "reference_concept"}
    && IsTexts(v.fields["entity_ids"])
    && IsTextOrNull(v.fields["relationship"]) && IsTextOrNull(v.fields["semantic_property"])
    && IsTextOrNull(v.fields["reference_concept"])
    && v.fields["relationships"].Arr?
    && var links := v.fields["relationships"].items; forall i | 0 <= i < |links| :: IsRelationship(links[i])
  }

  const STATUSES := {
    "found", "discourse_context_missing", "caller_context_missing", "entity_not_found", "relationship_not_found",
    "property_unavailable", "relation_property_unavailable", "filter_input_missing", "filter_unsupported",
    "operator_unsupported", "semantic_plan_unsupported", "multi_intent_unsupported", "ambiguous",
    "computation_input_missing", "computation_impossible", "collection_incomplete"}

  predicate IsStatus(v: Json) { v.Str? && v.s in STATUSES }

  const FIELDS := REQUIRED + {"evidence", "missing_requirements"}

  /** A value that the program can put into a field of a row. */
  predicate FitsField(key: string, v: Json) {
    if key == "unit" then IsTextOrNull(v)
    else if key == "evidence" then IsEvidence(v)
    else if key == "missing_requirements" then IsTexts(v)
    else if key == "status" then IsStatus(v)
    else key == "value" || IsText(v)
  }

  /** The six fields of a row of an answer. */
  predicate IsBuilt(row: Fields) {
    row.Keys == FIELDS && forall key | key in FIELDS :: FitsField(key, row[key])
  }

  ghost predicate AllBuilt(rows: seq<Fields>) {
    forall row | row in rows :: IsBuilt(row)
  }

  function Evidence(ids: seq<Json>): Json {
    Obj(map["entity_ids" := Arr(ids), "relationship" := Null, "semantic_property" := Null,
            "relationships" := Arr([]), "reference_concept" := Null])
  }

  /** A value for each field, and another one for the fields that an expectation can leave out. */
  function Sample(key: string, first: bool): (v: Json)
    requires key in FIELDS
    ensures FitsField(key, v)
  {
    var texts := if first then [] else [Str("a")];
    if key == "evidence" then Evidence(texts)
    else if key == "missing_requirements" then Arr(texts)
    else Str("found")
  }

  lemma SamplesDiffer(key: string)
    requires key in FIELDS && key !in REQUIRED
    ensures Sample(key, true) != Sample(key, false)
  {
    assert Evidence([]).fields["entity_ids"] != Evidence([Str("a")]).fields["entity_ids"];
  }

  /** An expected row that some row of the program matches: every field it states has a value that
      the field can have, and a field that no row has is expected to be null. */
  predicate Matchable(e: Fields) {
    forall key | key in e :: if key in FIELDS then FitsField(key, e[key]) else e[key] == Null
  }

  ghost predicate AllMatchable(expected: seq<Fields>) {
    forall i | 0 <= i < |expected| :: Matchable(expected[i])
  }

  /** The row of the program that states what `e` does. */
  function Completed(e: Fields): (row: Fields)
    requires Matchable(e)
    ensures IsBuilt(row) && Matches(row, e)
  {
    map key | key in FIELDS :: if key in e then e[key] else Sample(key, true)
  }

  /** The part of an expected row that rows can differ in. */
  function Trimmed(e: Fields): Fields {
    map key | key in e && key in FIELDS :: e[key]
  }

  function AllTrimmed(expected: seq<Fields>): (r: seq<Fields>)
    ensures |r| == |expected| && forall i | 0 <= i < |r| :: r[i] == Trimmed(expected[i])
  {
    seq(|expected|, i requires 0 <= i < |expected| => Trimmed(expected[i]))
  }

  lemma {:induction false} TrimmedMatches(row: Fields, e: Fields)
    requires IsBuilt(row) && Matchable(e)
    ensures Matches(row, e) <==> Matches(row, Trimmed(e))
  {
    if Matches(row, Trimmed(e)) {
      forall key | key in e ensures Get(row, key) == e[key] {
        assert key in FIELDS ==> key in Trimmed(e);
      }
    }
    if Matches(row, e) {
      forall key | key in Trimmed(e) ensures Get(row, key) == Trimmed(e)[key] {
        assert key in e;
      }
    }
  }

  lemma {:induction false} FirstMatchTrimmed(rows: seq<Fields>, e: Fields)
    requires AllBuilt(rows) && Matchable(e)
    ensures FirstMatch(rows, e) == FirstMatch(rows, Trimmed(e))
  {
    hide Matches, Matchable, Trimmed, IsBuilt;
    if rows != [] {
      TrimmedMatches(rows[0], e);
      FirstMatchTrimmed(rows[1..], e);
    }
  }

  /** On rows of the program only that part is looked at. */
  lemma {:induction false} GreedyTrimmed(expected: seq<Fields>, actual: seq<Fields>)
    requires AllMatchable(expected) && AllBuilt(actual)
    ensures Greedy(expected, actual) == Greedy(AllTrimmed(expected), actual)
  {
    hide Matchable, FirstMatch, Matches, IsBuilt, Pop;
    if expected != [] {
      FirstMatchTrimmed(actual, expected[0]);
      var i := FirstMatch(actual, expected[0]);
      assert AllTrimmed(expected)[1..] == AllTrimmed(expected[1..]);
      assert REQUIRED <= expected[0].Keys <==> REQUIRED <= Trimmed(expected[0]).Keys by {
        assert forall key | key in REQUIRED :: key in FIELDS;
        assert forall key | key in REQUIRED :: key in expected[0] <==> key in Trimmed(expected[0]);
      }
      if i.Some? {
        assert forall row | row in Pop(actual, i.value) :: row in multiset(Pop(actual, i.value)) && row in actual;
        GreedyTrimmed(expected[1..], Pop(actual, i.value));
      }
    }
  }

  lemma {:induction false} PairingTrimmed(expected: seq<Fields>, actual: seq<Fields>, partners: seq<Fields>)
    requires AllMatchable(expected) && AllBuilt(actual)
    ensures Pairing(expected, actual, partners) <==> Pairing(AllTrimmed(expected), actual, partners)
  {
    hide Matches, Matchable, Trimmed, IsBuilt;
    if |partners| == |expected| && multiset(partners) == multiset(actual) {
      forall i | 0 <= i < |expected|
        ensures Matches(partners[i], expected[i]) <==> Matches(partners[i], AllTrimmed(expected)[i])
      {
        assert partners[i] in multiset(actual);
        TrimmedMatches(partners[i], expected[i]);
      }
    }
  }

  // Why the condition is needed: rows on which the greedy match goes wrong.

  /** A row that matches both `a` and `b`. */
  lemma {:induction false} SharedRow(a: Fields, b: Fields) returns (shared: Fields)
    requires Matchable(a) && Matchable(b) && !Conflict(a, b)
    ensures IsBuilt(shared) && Matches(shared, a) && Matches(shared, b)
  {
    hide FitsField, IsBuilt, Matches, Completed;
    assert Includes(a + b, a) && Includes(a + b, b);
    shared := Completed(a + b);
    MatchesLess(shared, a + b, a);
    MatchesLess(shared, a + b, b);
  }

  /** A row that matches only `a`. */
  lemma {:induction false} StrayRow(a: Fields, b: Fields) returns (stray: Fields)
    requires Matchable(a) && REQUIRED <= a.Keys && b.Keys <= FIELDS && !Conflict(a, b) && !Includes(a, b)
    ensures IsBuilt(stray) && Matches(stray, a) && !Matches(stray, b)
  {
    hide FitsField, Completed, Sample;
    var key :| key in b && !(key in a && a[key] == b[key]);
    assert key !in a && key in FIELDS && key !in REQUIRED;
    SamplesDiffer(key);
    var row := Completed(a);
    stray := row[key := Sample(key, b[key] != Sample(key, true))];
    assert Get(stray, key) != b[key];
    forall k | k in a ensures Get(stray, k) == a[k] {
      assert Get(row, k) == a[k];
    }
  }

  /** Partners for `rest`: the stray row wherever it matches, the shared row at `j`, and for each
      other one the row that completes it. */
  function Decoys(rest: seq<Fields>, j: nat, shared: Fields, stray: Fields): (rows: seq<Fields>)
    requires forall m | 0 <= m < |rest| :: Matchable(rest[m])
    ensures |rows| == |rest|
    ensures forall m | 0 <= m < |rest| ::
              rows[m] == if Matches(stray, rest[m]) then stray else if m == j then shared else Completed(rest[m])
  {
    seq(|rest|, m requires 0 <= m < |rest| =>
      if Matches(stray, rest[m]) then stray else if m == j then shared else Completed(rest[m]))
  }

  lemma {:induction false} FewerOccurrences<T>(x: seq<T>, y: seq<T>, t: T)
    requires |x| == |y| && forall m | 0 <= m < |x| && x[m] == t :: y[m] == t
    ensures multiset(x)[t] <= multiset(y)[t]
  {
    if x != [] {
      var n := |x| - 1;
      FewerOccurrences(x[..n], y[..n], t);
      assert x == x[..n] + [x[n]] && y == y[..n] + [y[n]];
    }
  }

  lemma {:induction false} DecoysPair(rest: seq<Fields>, j: nat, shared: Fields, stray: Fields)
    requires AllMatchable(rest) && IsBuilt(shared) && IsBuilt(stray)
    requires j < |rest| && Matches(shared, rest[j]) && !Matches(stray, rest[j])
    ensures var rows := Decoys(rest, j, shared, stray);
      && rows[j] == shared && shared != stray && AllBuilt(rows)
      && (forall m | 0 <= m < |rest| :: Matches(rows[m], rest[m]))
      && (forall m | 0 <= m < |rest| :: rows[m] == stray <==> Matches(stray, rest[m]))
  {
    hide Matches, Matchable, IsBuilt, Completed;
  }

  /** With the stray row in place of the shared one nothing pairs any more: it occurs once more
      than there are rows that it matches. */
  lemma {:induction false} DecoysFail(rest: seq<Fields>, j: nat, shared: Fields, stray: Fields, partners: seq<Fields>)
    requires AllMatchable(rest) && IsBuilt(shared) && IsBuilt(stray)
    requires j < |rest| && Matches(shared, rest[j]) && !Matches(stray, rest[j])
    ensures !Pairing(rest, Pop(Decoys(rest, j, shared, stray), j) + [stray], partners)
  {
    var rows := Decoys(rest, j, shared, stray);
    DecoysPair(rest, j, shared, stray);
    hide Matches, Decoys, Pop, IsBuilt;
    var left := Pop(rows, j) + [stray];
    assert multiset(left)[stray] == multiset(rows)[stray] + 1;
    if Pairing(rest, left, partners) {
      forall m | 0 <= m < |rest| && partners[m] == stray ensures rows[m] == stray {
        assert Matches(partners[m], rest[m]);
      }
      FewerOccurrences(partners, rows, stray);
    }
  }

  /** A first row that matches is taken. */
  lemma {:induction false} TakesFirst(expected: seq<Fields>, row: Fields, rows: seq<Fields>)
    requires expected != [] && REQUIRED <= expected[0].Keys && Matches(row, expected[0])
    ensures Greedy(expected, [row] + rows) == Greedy(expected[1..], rows)
  {
    hide Matches;
    assert FirstMatch([row] + rows, expected[0]) == Some(0);
    assert Pop([row] + rows, 0) == rows;
  }

  lemma BuiltPop(rows: seq<Fields>, j: nat, first: Fields, last: Fields)
    requires AllBuilt(rows) && j < |rows| && IsBuilt(first) && IsBuilt(last)
    ensures AllBuilt([first] + (Pop(rows, j) + [last]))
  {
    hide IsBuilt, Pop;
    forall row | row in Pop(rows, j) ensures IsBuilt(row) {
      assert row in multiset(Pop(rows, j));
      assert row in rows;
    }
  }

  lemma {:induction false} FirstRowMisleads(expected: seq<Fields>, j: nat)
    returns (actual: seq<Fields>, partners: seq<Fields>)
    requires AllMatchable(expected) && AllComplete(expected) && 0 < j < |expected| && expected[j].Keys <= FIELDS
    requires !Conflict(expected[0], expected[j]) && !Includes(expected[0], expected[j])
    ensures AllBuilt(actual) && Pairing(expected, actual, partners) && Greedy(expected, actual) != Ok(true)
  {
    hide Matches, Matchable, IsBuilt, Conflict, Includes, Pairing, Greedy;
    var shared := SharedRow(expected[0], expected[j]);
    var stray := StrayRow(expected[0], expected[j]);
    actual, partners := Misleading(expected, j, shared, stray);
  }

  lemma {:induction false} Misleading(expected: seq<Fields>, j: nat, shared: Fields, stray: Fields)
    returns (actual: seq<Fields>, partners: seq<Fields>)
    requires AllMatchable(expected) && AllComplete(expected) && 0 < j < |expected|
    requires IsBuilt(shared) && Matches(shared, expected[0]) && Matches(shared, expected[j])
    requires IsBuilt(stray) && Matches(stray, expected[0]) && !Matches(stray, expected[j])
    ensures AllBuilt(actual) && Pairing(expected, actual, partners) && Greedy(expected, actual) != Ok(true)
  {
    hide Matches, Matchable, IsBuilt, Decoys, Greedy, Pop, Pairing;
    var rest := expected[1..];
    assert rest[j - 1] == expected[j];
    var rows := Decoys(rest, j - 1, shared, stray);
    DecoysPair(rest, j - 1, shared, stray);
    var left := Pop(rows, j - 1) + [stray];
    actual, partners := [shared] + left, [stray] + rows;
    BuiltPop(rows, j - 1, shared, stray);
    MisleadingPairing(expected, rows, j - 1, shared, stray);
    TakesFirst(expected, shared, left);
    if Greedy(rest, left) == Ok(true) {
      var found := AcceptedHavePairing(rest, left);
      DecoysFail(rest, j - 1, shared, stray, found);
    }
  }

  lemma {:induction false} MisleadingPairing(expected: seq<Fields>, rows: seq<Fields>, j: nat,
      shared: Fields, stray: Fields)
    requires |expected| == |rows| + 1 && j < |rows| && rows[j] == shared && Matches(stray, expected[0])
    requires forall m | 0 <= m < |rows| :: Matches(rows[m], expected[1..][m])
    ensures Pairing(expected, [shared] + (Pop(rows, j) + [stray]), [stray] + rows)
  {
    hide Matches, Pop;
    var partners := [stray] + rows;
    SameContents(rows, j, stray);
    forall m | 0 <= m < |expected| ensures Matches(partners[m], expected[m]) {
      if m > 0 {
        assert partners[m] == rows[m - 1] && expected[m] == expected[1..][m - 1];
      }
    }
  }

  lemma SameContents(rows: seq<Fields>, j: nat, stray: Fields)
    requires j < |rows|
    ensures multiset([rows[j]] + (Pop(rows, j) + [stray])) == multiset([stray] + rows)
  {
    hide Pop;
    assert rows[j] in multiset(rows);
    assert multiset([rows[j]] + (Pop(rows, j) + [stray]))
      == multiset{rows[j]} + multiset(Pop(rows, j)) + multiset{stray};
  }

  /** Where the condition fails, some rows of the program can be paired and the greedy match does
      not accept. */
  lemma {:induction false} PairingMissed(expected: seq<Fields>) returns (actual: seq<Fields>, partners: seq<Fields>)
    requires AllMatchable(expected) && AllComplete(expected) && !SpecificFirst(expected)
    requires forall i | 0 <= i < |expected| :: expected[i].Keys <= FIELDS
    ensures AllBuilt(actual) && Pairing(expected, actual, partners) && Greedy(expected, actual) != Ok(true)
  {
    hide Matches, Matchable, IsBuilt, Conflict, Includes, Pop;
    if SpecificFirst(expected[1..]) {
      var j := MisleadingIndex(expected);
      actual, partners := FirstRowMisleads(expected, j);
    } else {
      var rest, others := PairingMissed(expected[1..]);
      var row := Completed(expected[0]);
      actual, partners := [row] + rest, [row] + others;
      TakesFirst(expected, row, rest);
      forall m | 0 <= m < |expected| ensures Matches(partners[m], expected[m]) {
        if m > 0 {
          assert partners[m] == others[m - 1] && expected[m] == expected[1..][m - 1];
        }
      }
    }
  }

  lemma {:induction false} MisleadingIndex(expected: seq<Fields>) returns (j: nat)
    requires !SpecificFirst(expected) && expected != [] && SpecificFirst(expected[1..])
    ensures 0 < j < |expected|
    ensures !Conflict(expected[0], expected[j]) && !Includes(expected[0], expected[j])
  {
    hide Conflict, Includes;
    forall i, k | 0 < i < k < |expected|
      ensures Conflict(expected[i], expected[k]) || Includes(expected[i], expected[k])
    {
      var rest := expected[1..];
      assert Conflict(rest[i - 1], rest[k - 1]) || Includes(rest[i - 1], rest[k - 1]);
    }
    j :| 0 < j < |expected| && !Conflict(expected[0], expected[j]) && !Includes(expected[0], expected[j]);
  }

  lemma {:induction false} AcceptedIsComplete(expected: seq<Fields>, actual: seq<Fields>)
    requires Greedy(expected, actual) == Ok(true)
    ensures AllComplete(expected)
  {
    if expected != [] {
      hide Pop, FirstMatch;
      AcceptedIsComplete(expected[1..], Pop(actual, FirstMatch(actual, expected[0]).value));
      forall i | 0 <= i < |expected| ensures REQUIRED <= expected[i].Keys {
        assert i > 0 ==> expected[i] == expected[1..][i - 1];
      }
    }
  }

  function AllCompleted(expected: seq<Fields>): (rows: seq<Fields>)
    requires forall i | 0 <= i < |expected| :: Matchable(expected[i])
    ensures AllBuilt(rows) && Pairing(expected, rows, rows)
  {
    seq(|expected|, i requires 0 <= i < |expected| => Completed(expected[i]))
  }

  /** Whenever rows of the program can be paired, the greedy match accepts. */
  ghost predicate FindsEveryPairing(expected: seq<Fields>) {
    forall actual, partners | AllBuilt(actual) && Pairing(expected, actual, partners) ::
      Greedy(expected, actual) == Ok(true)
  }

  /** Expectations of which each row states what it has to and, of two that some row of the program
      can match at once, the more specific one comes first. */
  ghost predicate WellOrdered(expected: seq<Fields>) {
    AllComplete(expected) && SpecificFirst(AllTrimmed(expected))
  }

  lemma {:induction false} MatchedIsMatchable(row: Fields, e: Fields)
    requires IsBuilt(row) && Matches(row, e)
    ensures Matchable(e)
  {
    hide FitsField;
    forall key | key in e ensures if key in FIELDS then FitsField(key, e[key]) else e[key] == Null {
      assert Get(row, key) == e[key];
    }
  }

  lemma {:induction false} UnmatchableHasNoPairing(expected: seq<Fields>, actual: seq<Fields>, partners: seq<Fields>)
    requires !AllMatchable(expected) && AllBuilt(actual)
    ensures !Pairing(expected, actual, partners)
  {
    hide Matchable, Matches, IsBuilt;
    if Pairing(expected, actual, partners) {
      var i :| 0 <= i < |expected| && !Matchable(expected[i]);
      assert partners[i] in multiset(actual);
      assert partners[i] in actual;
      MatchedIsMatchable(partners[i], expected[i]);
      assert false;
    }
  }

  lemma {:induction false} TrimmedComplete(expected: seq<Fields>)
    requires AllMatchable(expected)
    ensures AllMatchable(AllTrimmed(expected))
    ensures AllComplete(AllTrimmed(expected)) <==> AllComplete(expected)
    ensures forall e | e in AllTrimmed(expected) :: e.Keys <= FIELDS
  {
    hide FitsField;
    forall i | 0 <= i < |expected|
      ensures REQUIRED <= expected[i].Keys <==> REQUIRED <= Trimmed(expected[i]).Keys
      ensures Matchable(Trimmed(expected[i]))
    {
      assert forall key | key in REQUIRED :: key in expected[i] <==> key in Trimmed(expected[i]);
    }
    assert forall i | 0 <= i < |expected| :: AllTrimmed(expected)[i] == Trimmed(expected[i]);
  }

  /** The greedy match finds every pairing of rows that the program builds exactly when some
      expected row cannot be matched by any, or the expectations are well ordered. */
  lemma {:induction false} FindsExactly(expected: seq<Fields>)
    ensures FindsEveryPairing(expected) <==> !AllMatchable(expected) || WellOrdered(expected)
  {
    hide SpecificFirst, AllComplete, AllMatchable, AllBuilt, Pairing, Greedy, Trimmed;
    if !AllMatchable(expected) {
      forall actual, partners | AllBuilt(actual) ensures !Pairing(expected, actual, partners) {
        UnmatchableHasNoPairing(expected, actual, partners);
      }
    } else {
      TrimmedComplete(expected);
      if WellOrdered(expected) {
        forall actual, partners | AllBuilt(actual) && Pairing(expected, actual, partners)
          ensures Greedy(expected, actual) == Ok(true)
        {
          WellOrderedFinds(expected, actual, partners);
        }
      } else {
        var actual, partners := BuiltPairingMissed(expected);
        assert Pairing(expected, actual, partners);
      }
    }
  }

  lemma {:induction false} WellOrderedFinds(expected: seq<Fields>, actual: seq<Fields>, partners: seq<Fields>)
    requires AllMatchable(expected) && WellOrdered(expected) && AllBuilt(actual)
    requires Pairing(expected, actual, partners)
    ensures Greedy(expected, actual) == Ok(true)
  {
    hide SpecificFirst, AllComplete, AllMatchable, AllBuilt, Pairing, Greedy, Trimmed;
    TrimmedComplete(expected);
    PairingTrimmed(expected, actual, partners);
    GreedyTrimmed(expected, actual);
    SpecificFirstFinds(AllTrimmed(expected), actual, partners);
  }

  lemma {:induction false} BuiltPairingMissed(expected: seq<Fields>)
    returns (actual: seq<Fields>, partners: seq<Fields>)
    requires AllMatchable(expected) && !WellOrdered(expected)
    ensures AllBuilt(actual) && Pairing(expected, actual, partners) && Greedy(expected, actual) != Ok(true)
  {
    if AllComplete(expected) {
      hide SpecificFirst, AllComplete, AllMatchable, AllBuilt, Pairing, Greedy, Trimmed;
      TrimmedComplete(expected);
      assert forall i | 0 <= i < |expected| :: AllTrimmed(expected)[i] in AllTrimmed(expected);
      actual, partners := PairingMissed(AllTrimmed(expected));
      PairingTrimmed(expected, actual, partners);
      GreedyTrimmed(expected, actual);
    } else {
      actual := AllCompleted(expected);
      partners := actual;
      if Greedy(expected, actual) == Ok(true) {
        AcceptedIsComplete(expected, actual);
      }
    }
  }

  /** For such expectations acceptance means no more and no less than that a pairing exists. */
  lemma {:induction false} AcceptsExactly(expected: seq<Fields>, actual: seq<Fields>)
    requires AllBuilt(actual) && WellOrdered(expected) && |expected| == |actual|
    ensures Greedy(expected, actual) == Ok(true) <==> exists partners :: Pairing(expected, actual, partners)
  {
    hide WellOrdered, AllBuilt, AllMatchable, Pairing, Greedy;
    if Greedy(expected, actual) == Ok(true) {
      var partners := AcceptedHavePairing(expected, actual);
    }
    if exists partners :: Pairing(expected, actual, partners) {
      var partners :| Pairing(expected, actual, partners);
      if AllMatchable(expected) {
        WellOrderedFinds(expected, actual, partners);
      } else {
        UnmatchableHasNoPairing(expected, actual, partners);
      }
    }
  }

  /** All expected rows state the same fields. */
  ghost predicate Uniform(expected: seq<Fields>, keys: set<string>) {
    forall e | e in expected :: e.Keys == keys
  }

  function Restricted(row: Fields, keys: set<string>): Fields {
    map key | key in keys :: Get(row, key)
  }

  function AllRestricted(rows: seq<Fields>, keys: set<string>): (r: seq<Fields>)
    ensures |r| == |rows| && forall i | 0 <= i < |r| :: r[i] == Restricted(rows[i], keys)
  {
    if rows == [] then [] else [Restricted(rows[0], keys)] + AllRestricted(rows[1..], keys)
  }

  lemma MatchesIsEquality(actual: Fields, expected: Fields)
    ensures Matches(actual, expected) <==> Restricted(actual, expected.Keys) == expected
  {
    if Matches(actual, expected) {
      assert Restricted(actual, expected.Keys) == expected;
    }
    if Restricted(actual, expected.Keys) == expected {
      forall key | key in expected ensures Get(actual, key) == expected[key] {
        assert Restricted(actual, expected.Keys)[key] == expected[key];
      }
    }
  }

  lemma {:induction false} PopRestricted(rows: seq<Fields>, keys: set<string>, i: nat)
    requires i < |rows|
    ensures multiset(AllRestricted(Pop(rows, i), keys))
      == multiset(AllRestricted(rows, keys)) - multiset{Restricted(rows[i], keys)}
  {
    hide Restricted, AllRestricted, Pop;
    var all := AllRestricted(rows, keys);
    assert AllRestricted(Pop(rows, i), keys) == Pop(all, i);
  }

  lemma {:induction false} NoPartner(expected: seq<Fields>, actual: seq<Fields>, keys: set<string>)
    requires expected != [] && expected[0].Keys == keys && forall row | row in actual :: !Matches(row, expected[0])
    ensures multiset(expected) != multiset(AllRestricted(actual, keys))
  {
    hide Matches;
    var e := expected[0];
    assert e in multiset(expected);
    var shown := AllRestricted(actual, keys);
    forall i | 0 <= i < |shown| ensures shown[i] != e {
      MatchesIsEquality(actual[i], e);
      assert actual[i] in actual;
    }
  }

  lemma {:induction false} PartnerTaken(expected: seq<Fields>, actual: seq<Fields>, keys: set<string>, i: nat)
    requires expected != [] && expected[0].Keys == keys && i < |actual| && Matches(actual[i], expected[0])
    ensures multiset(expected) == multiset(AllRestricted(actual, keys))
      <==> multiset(expected[1..]) == multiset(AllRestricted(Pop(actual, i), keys))
  {
    hide Matches, Restricted, Pop, AllRestricted;
    var e := expected[0];
    MatchesIsEquality(actual[i], e);
    PopRestricted(actual, keys, i);
    assert expected == [e] + expected[1..];
    assert AllRestricted(actual, keys)[i] in multiset(AllRestricted(actual, keys));
    CancelOne(e, multiset(expected[1..]), multiset(AllRestricted(actual, keys)));
  }

  lemma CancelOne<T>(e: T, rest: multiset<T>, all: multiset<T>)
    requires e in all
    ensures multiset{e} + rest == all <==> rest == all - multiset{e}
  {
  }

  /** If all expected rows state the same fields, the greedy match accepts exactly when the actual
      rows show the expected ones in some order. */
  lemma {:induction false} UniformIsExact(expected: seq<Fields>, actual: seq<Fields>, keys: set<string>)
    requires |expected| == |actual| && Uniform(expected, keys) && REQUIRED <= keys
    ensures Greedy(expected, actual) == Ok(true) <==> multiset(expected) == multiset(AllRestricted(actual, keys))
    ensures Greedy(expected, actual).Ok?
  {
    if expected != [] {
      hide Matches, Restricted, Pop, AllRestricted, FirstMatch;
      assert expected[0] in expected;
      assert Uniform(expected[1..], keys);
      var i := FirstMatch(actual, expected[0]);
      if i.Some? {
        UniformIsExact(expected[1..], Pop(actual, i.value), keys);
        PartnerTaken(expected, actual, keys, i.value);
      } else {
        NoPartner(expected, actual, keys);
      }
    }
  }

  /** Rows that state the same fields are equal or in conflict. */
  lemma {:induction false} UniformIsSpecificFirst(expected: seq<Fields>, keys: set<string>)
    requires Uniform(expected, keys)
    ensures SpecificFirst(expected)
  {
    forall i, j | 0 <= i < j < |expected|
      ensures Conflict(expected[i], expected[j]) || Includes(expected[i], expected[j])
    {
      assert expected[i] in expected && expected[j] in expected;
      if !Conflict(expected[i], expected[j]) {
        forall key | key in expected[j] ensures key in expected[i] && expected[i][key] == expected[j][key] {
          assert key in expected[i];
        }
      }
    }
  }

  /** Any pairing of uniform expectations is found. */
  lemma {:induction false} UniformIsComplete(expected: seq<Fields>, actual: seq<Fields>, keys: set<string>,
      partners: seq<Fields>)
    requires Uniform(expected, keys) && REQUIRED <= keys && Pairing(expected, actual, partners)
    ensures |expected| == |actual| && Greedy(expected, actual) == Ok(true)
  {
    assert |multiset(partners)| == |multiset(actual)|;
    UniformIsSpecificFirst(expected, keys);
    forall i | 0 <= i < |expected| ensures REQUIRED <= expected[i].Keys {
      assert expected[i] in expected;
    }
    hide SpecificFirst, Pairing, Greedy;
    SpecificFirstFinds(expected, actual, partners);
  }

  // ---- A pairing that is missed ----

  /** A row as the program builds it for comparison. */
  function Built(value: Json, ids: seq<string>, missing: seq<string>): (row: Fields)
    ensures IsBuilt(row)
  {
    map["entity_id" := Str("person:a"), "value" := value, "unit" := Null, "status" := Str("found"),
        "evidence" := Evidence(Strings(ids).items), "missing_requirements" := Strings(missing)]
  }

  function Strings(names: seq<string>): Json {
    Arr(seq(|names|, i requires 0 <= i < |names| => Str(names[i])))
  }

  lemma {:induction false} StringsInjective(a: seq<string>, b: seq<string>)
    requires Strings(a) == Strings(b)
    ensures a == b
  {
    assert |Strings(a).items| == |Strings(b).items|;
    forall i | 0 <= i < |a| ensures a[i] == b[i] {
      assert Strings(a).items[i] == Strings(b).items[i];
    }
  }

  /** An expectation of the required fields, and one that also states what is missing. */
  function Plain(value: Json): Fields {
    map["entity_id" := Str("person:a"), "value" := value, "unit" := Null, "status" := Str("found")]
  }

  function Noted(value: Json, missing: seq<string>): Fields {
    Plain(value)["missing_requirements" := Strings(missing)]
  }

  lemma BuiltMatches(value: Json, ids: seq<string>, missing: seq<string>)
    ensures Matches(Built(value, ids, missing), Plain(value))
    ensures Matches(Built(value, ids, missing), Noted(value, missing))
  {
    hide Strings;
  }

  lemma {:induction false} OtherMissing(value: Json, ids: seq<string>, a: seq<string>, b: seq<string>)
    requires a != b
    ensures !Matches(Built(value, ids, a), Noted(value, b))
  {
    if Strings(a) == Strings(b) {
      StringsInjective(a, b);
    }
    hide Strings;
    assert "missing_requirements" in Noted(value, b);
    assert Get(Built(value, ids, a), "missing_requirements") == Strings(a);
  }

  /** One row takes the first actual row, and the next finds nothing left. */
  lemma GreedyStrands(first: Fields, second: Fields, one: Fields, other: Fields)
    requires REQUIRED <= first.Keys && REQUIRED <= second.Keys
    requires Matches(one, first) && !Matches(other, second)
    ensures Greedy([first, second], [one, other]) == Ok(false)
  {
    hide Matches;
    assert FirstMatch([one, other], first) == Some(0);
    assert Pop([one, other], 0) == [other];
    assert [first, second][1..] == [second];
    assert FirstMatch([other], second) == None;
    assert Greedy([second], [other]) == Ok(false);
  }

  /** An expected row that states less can take the partner of one that states more: a pairing of
      rows as the program builds them exists, and the greedy match rejects. */
  lemma GreedyMissesPairing(value: Json, ids: seq<string>, a: seq<string>, b: seq<string>)
    requires a != b
    ensures var expected := [Plain(value), Noted(value, a)];
      var one, other := Built(value, ids, a), Built(value, ids, b);
      && IsBuilt(one) && IsBuilt(other) && Pairing(expected, [one, other], [other, one])
      && Greedy(expected, [one, other]) == Ok(false)
  {
    BuiltMatches(value, ids, a);
    BuiltMatches(value, ids, b);
    OtherMissing(value, ids, b, a);
    RequiredStated(value, a);
    hide Matches, Noted, Plain, Built, Greedy, Pairing;
    GreedyStrands(Plain(value), Noted(value, a), Built(value, ids, a), Built(value, ids, b));
    PairOfTwo(Plain(value), Noted(value, a), Built(value, ids, b), Built(value, ids, a));
  }

  lemma PairOfTwo(first: Fields, second: Fields, one: Fields, other: Fields)
    requires Matches(one, first) && Matches(other, second)
    ensures Pairing([first, second], [other, one], [one, other])
  {
    hide Matches;
    assert multiset([one, other]) == multiset{one, other} == multiset([other, one]);
  }

  lemma RequiredStated(value: Json, missing: seq<string>)
    ensures REQUIRED <= Plain(value).Keys && REQUIRED <= Noted(value, missing).Keys
  {
  }
}
