/** JSON values and their canonical text. Objects are unordered maps, as the
    program compares them; `CanonicalText` lists keys in code-point order. */
module Json {
  import opened Text

  datatype Json =
    | Null
    | Bool(b: bool)
    | Num(n: int)
    | Str(s: string)
    | Arr(items: seq<Json>)
    | Obj(fields: map<string, Json>)

  function HexDigit(d: nat): char
    requires d < 16
  {
    if d < 10 then Digit(d) else (d - 10 + 'a' as int) as char
  }

  /** One character inside a JSON string literal, non-ASCII text left as it is. */
  function Escaped(c: char): (s: string)
    ensures s != []
  {
    if c == '\"' then "\\\""
    else if c == '\\' then "\\\\"
    else if c == '\n' then "\\n"
    else if c == '\r' then "\\r"
    else if c == '\t' then "\\t"
    else if c as int == 8 then "\\b"
    else if c as int == 12 then "\\f"
    else if c as int < 32 then "\\u00" + [HexDigit(c as int / 16), HexDigit(c as int % 16)]
    else [c]
  }

  function EscapedAll(s: string): string {
    if s == [] then [] else Escaped(s[0]) + EscapedAll(s[1..])
  }

  function Quoted(s: string): string {
    "\"" + EscapedAll(s) + "\""
  }

  function Joined(parts: seq<string>): string {
    if parts == [] then []
    else if |parts| == 1 then parts[0]
    else parts[0] + "," + Joined(parts[1..])
  }

  /** Compact JSON with sorted keys, `,` and `:` separators. */
  function CanonicalText(v: Json): string {
    match v
    case Null => "null"
    case Bool(b) => if b then "true" else "false"
    case Num(n) => Signed(n)
    case Str(s) => Quoted(s)
    case Arr(items) =>
      "[" + Joined(seq(|items|, i requires 0 <= i < |items| => CanonicalText(items[i]))) + "]"
    case Obj(fields) =>
      var keys := Sorted(fields.Keys);
      "{" + Joined(seq(|keys|, i requires 0 <= i < |keys| =>
        Quoted(keys[i]) + ":" + CanonicalText(fields[keys[i]]))) + "}"
  }

  /** How values are written. */
  lemma ScalarTexts()
    ensures CanonicalText(Bool(true)) == "true" && CanonicalText(Bool(false)) == "false"
    ensures CanonicalText(Null) == "null"
    ensures CanonicalText(Num(-17)) == "-17" && CanonicalText(Str("")) == "\"\""
    ensures CanonicalText(Arr([])) == "[]" && CanonicalText(Obj(map[])) == "{}"
  {
    DecimalExample();
  }

  lemma ArrayExample()
    ensures CanonicalText(Arr([Null, Num(-17), Arr([])])) == "[null,-17,[]]"
  {
    var items := [Null, Num(-17), Arr([])];
    var texts := seq(|items|, i requires 0 <= i < |items| => CanonicalText(items[i]));
    assert CanonicalText(Arr(items)) == "[" + Joined(texts) + "]";
    ScalarTexts();
    hide CanonicalText;
    assert texts == ["null", "-17", "[]"];
    assert Joined(["[]"]) == "[]" && Joined(["-17", "[]"]) == "-17,[]";
    assert texts[1..] == ["-17", "[]"];
  }

  // ---- Collecting results that may fail ----

  function AllSome(xs: seq<Option<Json>>): (r: Option<seq<Json>>)
    ensures r.Some? <==> forall i | 0 <= i < |xs| :: xs[i].Some?
    ensures r.Some? ==> |r.value| == |xs| && forall i | 0 <= i < |xs| :: r.value[i] == xs[i].value
  {
    if forall i | 0 <= i < |xs| :: xs[i].Some?
    then Some(seq(|xs|, i requires 0 <= i < |xs| && xs[i].Some? => xs[i].value))
    else None
  }

  function AllSomeFields(m: map<string, Option<Json>>): (r: Option<map<string, Json>>)
    ensures r.Some? <==> forall k | k in m :: m[k].Some?
    ensures r.Some? ==> r.value.Keys == m.Keys && forall k | k in m :: r.value[k] == m[k].value
  {
    if forall k | k in m :: m[k].Some? then Some(map k | k in m :: m[k].value) else None
  }
}
