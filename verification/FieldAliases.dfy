/** Bijective base-26 field symbols and the alias dictionary built from them. */
module FieldAliases {
  import opened Text

  predicate IsSymbol(s: string) {
    s != [] && forall i | 0 <= i < |s| :: 'a' <= s[i] <= 'z'
  }

  function Letter(d: nat): (c: char)
    requires d < 26
    ensures 'a' <= c <= 'z'
  {
    (d + 'a' as int) as char
  }

  function LetterIndex(c: char): (d: nat)
    requires 'a' <= c <= 'z'
    ensures d < 26
  {
    c as int - 'a' as int
  }

  function SymbolOf(index: nat): (s: string)
    ensures IsSymbol(s)
    decreases index
  {
    if index < 26 then [Letter(index)]
    else SymbolOf(index / 26 - 1) + [Letter(index % 26)]
  }

  function IndexOf(s: string): nat
    requires IsSymbol(s)
  {
    if |s| == 1 then LetterIndex(s[0])
    else 26 * (IndexOf(s[..|s| - 1]) + 1) + LetterIndex(s[|s| - 1])
  }

  /** Every natural number is recovered from its symbol. */
  lemma {:induction false} IndexOfSymbol(index: nat)
    ensures IndexOf(SymbolOf(index)) == index
  {
    if index >= 26 {
      var s := SymbolOf(index);
      assert s[..|s| - 1] == SymbolOf(index / 26 - 1);
      IndexOfSymbol(index / 26 - 1);
    }
  }

  /** Every non-empty lower-case string is the symbol of its index. */
  lemma {:induction false} SymbolOfIndex(s: string)
    requires IsSymbol(s)
    ensures SymbolOf(IndexOf(s)) == s
  {
    if |s| == 1 {
      assert s == [s[0]];
    } else {
      var init := s[..|s| - 1];
      SymbolOfIndex(init);
      var i, d := IndexOf(init), LetterIndex(s[|s| - 1]);
      assert IndexOf(s) / 26 - 1 == i && IndexOf(s) % 26 == d;
      assert s == init + [s[|s| - 1]];
    }
  }

  /** Symbols in order: the shorter first, equally long ones as in a dictionary. */
  predicate ComesBefore(a: string, b: string) {
    |a| < |b| || (|a| == |b| && Below(a, b) && a != b)
  }

  lemma {:induction false} BelowSnoc(a: string, b: string, c: char, d: char)
    requires |a| == |b|
    ensures Below(a + [c], b + [d]) <==> if a == b then c <= d else Below(a, b)
  {
    if a != [] {
      assert (a + [c])[1..] == a[1..] + [c] && (b + [d])[1..] == b[1..] + [d];
      BelowSnoc(a[1..], b[1..], c, d);
      assert a == [a[0]] + a[1..] && b == [b[0]] + b[1..];
    } else {
      assert [c][1..] == [d][1..] == [];
    }
  }

  lemma {:induction false} SymbolsGrow(i: nat, j: nat)
    requires i < j
    ensures ComesBefore(SymbolOf(i), SymbolOf(j))
    decreases j
  {
    if j >= 26 {
      if i >= 26 {
        var a, b := SymbolOf(i / 26 - 1), SymbolOf(j / 26 - 1);
        if i / 26 < j / 26 {
          SymbolsGrow(i / 26 - 1, j / 26 - 1);
        }
        if |a| == |b| {
          BelowSnoc(a, b, Letter(i % 26), Letter(j % 26));
          LastDiffer(a, b, Letter(i % 26), Letter(j % 26));
        }
      }
    }
  }

  lemma LastDiffer(a: string, b: string, c: char, d: char)
    requires |a| == |b| && (a != b || c != d)
    ensures a + [c] != b + [d]
  {
    assert (a + [c])[..|a|] == a && (b + [d])[..|b|] == b;
    assert (a + [c])[|a|] == c && (b + [d])[|b|] == d;
  }

  /** Symbols come in the order of their indices, each string exactly once: `a` to `z`, then `aa`. */
  lemma {:induction false} SymbolOrder(i: nat, j: nat)
    ensures ComesBefore(SymbolOf(i), SymbolOf(j)) <==> i < j
  {
    if i < j {
      SymbolsGrow(i, j);
    } else if j < i {
      SymbolsGrow(j, i);
      if |SymbolOf(i)| == |SymbolOf(j)| && Below(SymbolOf(i), SymbolOf(j)) {
        BelowAntisymmetric(SymbolOf(i), SymbolOf(j));
      }
    }
  }

  /** The loop of the source: digits are prepended until the index runs out. */
  method Symbol(index: int) returns (result: string)
    ensures result == if index < 0 then "" else SymbolOf(index)
  {
    result := "";
    var rest := index;
    while rest >= 0
      invariant rest >= -1 || rest == index
      invariant index >= 0 ==> (if rest < 0 then result else SymbolOf(rest) + result) == SymbolOf(index)
      invariant index < 0 ==> result == "" && rest == index
      decreases rest
    {
      ghost var before := if rest < 26 then [] else SymbolOf(rest / 26 - 1);
      assert SymbolOf(rest) == before + [Letter(rest % 26)];
      assert (before + [Letter(rest % 26)]) + result == before + ([Letter(rest % 26)] + result);
      result := [Letter(rest % 26)] + result;
      rest := rest / 26 - 1;
    }
  }

  /** The two dictionaries undo each other. */
  ghost predicate Opposite(aliases: map<string, string>, names: map<string, string>) {
    && (forall k | k in aliases :: aliases[k] in names && names[aliases[k]] == k)
    && (forall a | a in names :: names[a] in aliases && aliases[names[a]] == a)
  }

  /** Every name in the list is given the symbol of its place. */
  function Numbered(names: seq<string>): (aliases: map<string, string>)
    requires Ascending(names)
    ensures forall k :: k in aliases <==> k in names
    ensures forall i | 0 <= i < |names| :: aliases[names[i]] == SymbolOf(i)
  {
    map i | 0 <= i < |names| :: names[i] := SymbolOf(i)
  }

  function Aliases(fields: set<string>): map<string, string> {
    SortedAscending(fields);
    Numbered(Sorted(fields))
  }

  lemma AliasesDiffer(names: seq<string>, i: nat, j: nat)
    requires Ascending(names) && i < |names| && j < |names|
    requires Numbered(names)[names[i]] == Numbered(names)[names[j]]
    ensures i == j
  {
    hide Numbered;
    IndexOfSymbol(i);
    IndexOfSymbol(j);
  }

  /** The decoder's dictionary: each symbol leads back to its name. */
  function Swapped(names: seq<string>): (r: map<string, string>)
    requires Ascending(names)
    ensures Opposite(Numbered(names), r)
  {
    var aliases := Numbered(names);
    assert forall i, j | 0 <= i < |names| && 0 <= j < |names| && aliases[names[i]] == aliases[names[j]] :: i == j by {
      forall i, j | 0 <= i < |names| && 0 <= j < |names| && aliases[names[i]] == aliases[names[j]] ensures i == j {
        AliasesDiffer(names, i, j);
      }
    }
    map i | 0 <= i < |names| :: aliases[names[i]] := names[i]
  }

  function Names(fields: set<string>): map<string, string> {
    SortedAscending(fields);
    Swapped(Sorted(fields))
  }

  /** The fields are given symbols in the order of their names. */
  lemma {:induction false} AliasAt(fields: set<string>, i: nat)
    requires i < |fields|
    ensures Sorted(fields)[i] in Aliases(fields) && Aliases(fields)[Sorted(fields)[i]] == SymbolOf(i)
  {
    hide Sorted, SymbolOf;
    SortedAscending(fields);
  }

  /** Whatever the field set, every field has an alias, no two share one, and the
      decoder's dictionary undoes the encoder's in both directions. */
  lemma AliasesInvertible(fields: set<string>)
    ensures Aliases(fields).Keys == fields
    ensures Opposite(Aliases(fields), Names(fields))
  {
    SortedAscending(fields);
    forall k | k in fields ensures k in Sorted(fields) {
      assert Sorted(fields)[Position(fields, k)] == k;
    }
  }
}
