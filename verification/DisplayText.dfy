/** Replacing internal record IDs in text, at once and while the text streams in. */
module DisplayText {
  import opened Text

  // ---- The ID pattern: (?<![A-Za-z0-9_])[A-Za-z_][A-Za-z0-9_]*(?::[A-Za-z0-9_-]+)+ ----

  predicate IsHeadChar(c: char) { 'a' <= c <= 'z' || 'A' <= c <= 'Z' || c == '_' }

  predicate IsWordChar(c: char) { IsHeadChar(c) || '0' <= c <= '9' }

  predicate IsKeyChar(c: char) { IsWordChar(c) || c == '-' }

  /** The characters a stream holds back at the end of its text. */
  predicate IsIdChar(c: char) { IsKeyChar(c) || c == ':' }

  predicate AllWord(s: string) { forall i | 0 <= i < |s| :: IsWordChar(s[i]) }

  predicate AllKey(s: string) { forall i | 0 <= i < |s| :: IsKeyChar(s[i]) }

  /** The language of `(:[A-Za-z0-9_-]+)+`. */
  ghost predicate IsKeys(s: string) {
    exists k | 2 <= k <= |s| :: s[0] == ':' && AllKey(s[1..k]) && (k == |s| || IsKeys(s[k..]))
  }

  /** The language of the ID pattern without its lookbehind. */
  ghost predicate IsId(s: string) {
    exists h | 1 <= h < |s| :: IsHeadChar(s[0]) && AllWord(s[..h]) && IsKeys(s[h..])
  }

  /** May a match start at `i`? */
  predicate Opens(t: string, i: nat) {
    i < |t| && IsHeadChar(t[i]) && (i == 0 || !IsWordChar(t[i - 1]))
  }

  // ---- Greedy scanning ----

  function WordEnd(t: string, i: nat): (e: nat)
    requires i <= |t|
    ensures i <= e <= |t| && AllWord(t[i..e])
    ensures e < |t| ==> !IsWordChar(t[e])
    decreases |t| - i
  {
    if i < |t| && IsWordChar(t[i]) then
      var e := WordEnd(t, i + 1);
      assert t[i..e] == [t[i]] + t[i + 1..e];
      e
    else i
  }

  function KeyEnd(t: string, i: nat): (e: nat)
    requires i <= |t|
    ensures i <= e <= |t| && AllKey(t[i..e])
    ensures e < |t| ==> !IsKeyChar(t[e])
    decreases |t| - i
  {
    if i < |t| && IsKeyChar(t[i]) then
      var e := KeyEnd(t, i + 1);
      assert t[i..e] == [t[i]] + t[i + 1..e];
      e
    else i
  }

  /** Where the greedy repetition of `:key` groups from `i` ends. */
  function KeysEnd(t: string, i: nat): (e: nat)
    requires i <= |t|
    ensures i <= e <= |t|
    decreases |t| - i
  {
    if i < |t| && t[i] == ':' && KeyEnd(t, i + 1) > i + 1 then KeysEnd(t, KeyEnd(t, i + 1)) else i
  }

  /** The end of the match starting at `i`; `i` itself when there is none. */
  function MatchEnd(t: string, i: nat): (e: nat)
    requires i <= |t|
    ensures i <= e <= |t|
  {
    if Opens(t, i) then
      var h := WordEnd(t, i);
      var e := KeysEnd(t, h);
      if e > h then e else i
    else i
  }

  lemma SliceOfSlice(t: string, i: nat, j: nat, from: nat, to: nat)
    requires i <= from <= to <= j <= |t|
    ensures t[i..j][from - i..to - i] == t[from..to]
  {
    assert t[i..j] == t[i..from] + t[from..to] + t[to..j];
  }

  lemma {:induction false} KeysEndIsKeys(t: string, i: nat)
    requires i <= |t| && KeysEnd(t, i) > i
    ensures IsKeys(t[i..KeysEnd(t, i)])
    decreases |t| - i
  {
    var k, e := KeyEnd(t, i + 1), KeysEnd(t, i);
    var s := t[i..e];
    SliceOfSlice(t, i, e, i + 1, k);
    if e > k {
      KeysEndIsKeys(t, k);
      SliceOfSlice(t, i, e, k, e);
    }
  }

  /** The first group of a text of `:key` groups. */
  lemma FirstGroup(t: string, i: nat, j: nat) returns (k: nat)
    requires i <= j <= |t| && IsKeys(t[i..j])
    ensures i + 2 <= k <= j && t[i] == ':' && forall x | i + 1 <= x < k :: IsKeyChar(t[x])
    ensures k < j ==> IsKeys(t[k..j]) && t[k] == ':'
  {
    var s := t[i..j];
    var n :| 2 <= n <= |s| && s[0] == ':' && AllKey(s[1..n]) && (n == |s| || IsKeys(s[n..]));
    k := i + n;
    forall x | i + 1 <= x < k ensures IsKeyChar(t[x]) {
      assert t[x] == s[1..n][x - i - 1];
    }
    if k < j {
      assert s[n..] == t[k..j];
      IsKeysColon(t[k..j]);
    }
  }

  lemma {:induction false} KeysEndIsLongest(t: string, i: nat, j: nat)
    requires i <= j <= |t| && IsKeys(t[i..j])
    ensures j <= KeysEnd(t, i)
    decreases |t| - i
  {
    hide IsKeys;
    var k := FirstGroup(t, i, j);
    KeyEndCovers(t, i + 1, k);
    if k < j {
      KeysEndIsLongest(t, k, j);
    }
  }

  lemma {:induction false} IsKeysColon(s: string)
    requires IsKeys(s)
    ensures s != "" && s[0] == ':'
  {
  }

  lemma {:induction false} KeyEndCovers(t: string, i: nat, j: nat)
    requires i <= j <= |t| && forall x | i <= x < j :: IsKeyChar(t[x])
    ensures j <= KeyEnd(t, i)
    decreases j - i
  {
    if i < j {
      KeyEndCovers(t, i + 1, j);
    }
  }

  lemma {:induction false} WordEndCovers(t: string, i: nat, j: nat)
    requires i <= j <= |t| && forall x | i <= x < j :: IsWordChar(t[x])
    ensures j <= WordEnd(t, i)
    decreases j - i
  {
    if i < j {
      WordEndCovers(t, i + 1, j);
    }
  }

  lemma MatchIsId(t: string, i: nat)
    requires i <= |t| && MatchEnd(t, i) > i
    ensures Opens(t, i) && IsId(t[i..MatchEnd(t, i)])
  {
    var h, e := WordEnd(t, i), MatchEnd(t, i);
    KeysEndIsKeys(t, h);
    var s := t[i..e];
    assert s[..h - i] == t[i..h] && s[h - i..] == t[h..e];
  }

  /** The head of an ID, up to its first colon. */
  lemma HeadOf(t: string, i: nat, j: nat) returns (h: nat)
    requires i <= j <= |t| && IsId(t[i..j])
    ensures i < h < j && t[h] == ':' && IsKeys(t[h..j])
    ensures forall x | i <= x < h :: IsWordChar(t[x])
  {
    hide IsKeys;
    var s := t[i..j];
    var n :| 1 <= n < |s| && IsHeadChar(s[0]) && AllWord(s[..n]) && IsKeys(s[n..]);
    h := i + n;
    assert s[n..] == t[h..j];
    IsKeysColon(t[h..j]);
    forall x | i <= x < h ensures IsWordChar(t[x]) {
      assert t[x] == s[..n][x - i];
    }
  }

  lemma MatchCovers(t: string, i: nat, j: nat)
    requires i <= j <= |t| && Opens(t, i) && IsId(t[i..j])
    ensures i < j <= MatchEnd(t, i)
  {
    hide IsId, IsKeys;
    var h := HeadOf(t, i, j);
    WordEndCovers(t, i, h);
    WordEndStops(t, i, h);
    KeysEndIsLongest(t, h, j);
  }

  lemma {:induction false} WordEndStops(t: string, i: nat, h: nat)
    requires i <= h < |t| && t[h] == ':'
    ensures WordEnd(t, i) <= h
  {
    forall x | i <= x < WordEnd(t, i) ensures IsWordChar(t[x]) {
      assert t[x] == t[i..WordEnd(t, i)][x - i];
    }
  }

  /** The greedy scan finds exactly the longest ID that may start at `i`, and finds one
      whenever there is one: backtracking never helps this pattern. */
  lemma MatchIsLongest(t: string, i: nat)
    requires i <= |t|
    ensures MatchEnd(t, i) > i <==> Opens(t, i) && exists j | i <= j <= |t| :: IsId(t[i..j])
    ensures MatchEnd(t, i) > i ==> IsId(t[i..MatchEnd(t, i)])
    ensures Opens(t, i) ==> forall j | i <= j <= |t| && IsId(t[i..j]) :: j <= MatchEnd(t, i)
  {
    if MatchEnd(t, i) > i {
      MatchIsId(t, i);
    }
    if Opens(t, i) {
      forall j | i <= j <= |t| && IsId(t[i..j]) ensures i < j <= MatchEnd(t, i) {
        MatchCovers(t, i, j);
      }
    }
  }

  // ---- Substitution ----

  /** What the substitution writes at position `i`: the replacement of a match, or the character. */
  function Piece(t: string, i: nat, replace: string -> string): string
    requires i < |t|
  {
    var e := MatchEnd(t, i);
    if e > i then replace(t[i..e]) else [t[i]]
  }

  /** Where it goes on. */
  function Next(t: string, i: nat): (n: nat)
    requires i < |t|
    ensures i < n <= |t|
  {
    var e := MatchEnd(t, i);
    if e > i then e else i + 1
  }

  /** `pattern.sub(replace, t)` from position `i` on. */
  function RenderFrom(t: string, i: nat, replace: string -> string): string
    requires i <= |t|
    decreases |t| - i
  {
    if i == |t| then "" else Piece(t, i, replace) + RenderFrom(t, Next(t, i), replace)
  }

  function Render(t: string, replace: string -> string): string {
    RenderFrom(t, 0, replace)
  }

  /** A text after which nothing is held back. */
  predicate Settled(t: string) {
    t == "" || !IsIdChar(t[|t| - 1])
  }

  lemma {:induction false} WordEndBefore(x: string, y: string, i: nat)
    requires Settled(x) && i < |x|
    ensures WordEnd(x + y, i) == WordEnd(x, i) < |x|
    decreases |x| - i
  {
    if IsWordChar(x[i]) {
      WordEndBefore(x, y, i + 1);
    }
  }

  lemma {:induction false} KeyEndBefore(x: string, y: string, i: nat)
    requires Settled(x) && i < |x|
    ensures KeyEnd(x + y, i) == KeyEnd(x, i) < |x|
    decreases |x| - i
  {
    if IsKeyChar(x[i]) {
      KeyEndBefore(x, y, i + 1);
    }
  }

  lemma {:induction false} KeysEndBefore(x: string, y: string, i: nat)
    requires Settled(x) && i < |x|
    ensures KeysEnd(x + y, i) == KeysEnd(x, i) < |x|
    decreases |x| - i
  {
    if x[i] == ':' {
      KeyEndBefore(x, y, i + 1);
      if KeyEnd(x, i + 1) > i + 1 {
        KeysEndBefore(x, y, KeyEnd(x, i + 1));
      }
    }
  }

  /** No match crosses a settled boundary. */
  lemma MatchEndBefore(x: string, y: string, i: nat)
    requires Settled(x) && i < |x|
    ensures MatchEnd(x + y, i) == MatchEnd(x, i) < |x|
  {
    WordEndBefore(x, y, i);
    if Opens(x, i) {
      KeysEndBefore(x, y, WordEnd(x, i));
    }
  }

  lemma {:induction false} WordEndAfter(x: string, y: string, i: nat)
    requires i <= |y|
    ensures WordEnd(x + y, |x| + i) == |x| + WordEnd(y, i)
    decreases |y| - i
  {
    if i < |y| && IsWordChar(y[i]) {
      WordEndAfter(x, y, i + 1);
    }
  }

  lemma {:induction false} KeyEndAfter(x: string, y: string, i: nat)
    requires i <= |y|
    ensures KeyEnd(x + y, |x| + i) == |x| + KeyEnd(y, i)
    decreases |y| - i
  {
    if i < |y| && IsKeyChar(y[i]) {
      KeyEndAfter(x, y, i + 1);
    }
  }

  lemma {:induction false} KeysEndAfter(x: string, y: string, i: nat)
    requires i <= |y|
    ensures KeysEnd(x + y, |x| + i) == |x| + KeysEnd(y, i)
    decreases |y| - i
  {
    hide KeyEnd;
    if i < |y| && y[i] == ':' {
      KeyEndAfter(x, y, i + 1);
      var e := KeyEnd(y, i + 1);
      assert KeyEnd(x + y, |x| + i + 1) == |x| + e;
      if e > i + 1 {
        KeysEndAfter(x, y, e);
      }
    }
  }

  /** No word goes on from `x` to a head of an ID at the start of `y`. */
  predicate Apart(x: string, y: string) {
    x == "" || y == "" || !IsWordChar(x[|x| - 1]) || !IsHeadChar(y[0])
  }

  /** The lookbehind sees nothing across such a boundary. */
  lemma MatchEndAfter(x: string, y: string, i: nat)
    requires Apart(x, y) && i <= |y|
    ensures MatchEnd(x + y, |x| + i) == |x| + MatchEnd(y, i)
  {
    WordEndAfter(x, y, i);
    assert Opens(x + y, |x| + i) == Opens(y, i);
    if Opens(y, i) {
      KeysEndAfter(x, y, WordEnd(y, i));
    }
  }

  lemma SliceAfter(x: string, y: string, i: nat, j: nat)
    requires i <= j <= |y|
    ensures (x + y)[|x| + i..|x| + j] == y[i..j]
  {
  }

  lemma PieceAfter(x: string, y: string, i: nat, replace: string -> string)
    requires Apart(x, y) && i < |y|
    ensures Next(x + y, |x| + i) == |x| + Next(y, i) && Piece(x + y, |x| + i, replace) == Piece(y, i, replace)
  {
    MatchEndAfter(x, y, i);
    hide MatchEnd, Apart;
    SliceAfter(x, y, i, Next(y, i));
  }

  lemma {:induction false} RenderAfter(x: string, y: string, i: nat, replace: string -> string)
    requires Apart(x, y) && i <= |y|
    ensures RenderFrom(x + y, |x| + i, replace) == RenderFrom(y, i, replace)
    decreases |y| - i
  {
    hide MatchEnd, Apart, Piece, Next;
    if i < |y| {
      PieceAfter(x, y, i, replace);
      RenderAfter(x, y, Next(y, i), replace);
    }
  }

  lemma PieceBefore(x: string, y: string, i: nat, replace: string -> string)
    requires Settled(x) && i < |x|
    ensures Next(x + y, i) == Next(x, i) && Piece(x + y, i, replace) == Piece(x, i, replace)
  {
    MatchEndBefore(x, y, i);
    hide MatchEnd, Settled;
    assert (x + y)[i..Next(x, i)] == x[i..Next(x, i)];
  }

  lemma {:induction false} RenderBefore(x: string, y: string, i: nat, replace: string -> string)
    requires Settled(x) && i <= |x|
    ensures RenderFrom(x + y, i, replace) == RenderFrom(x, i, replace) + Render(y, replace)
    decreases |x| - i
  {
    hide MatchEnd, Piece, Next;
    if i == |x| {
      RenderAfter(x, y, 0, replace);
    } else {
      PieceBefore(x, y, i, replace);
      RenderBefore(x, y, Next(x, i), replace);
      Associative(Piece(x, i, replace), RenderFrom(x, Next(x, i), replace), Render(y, replace));
    }
  }

  lemma Associative(a: string, b: string, c: string)
    ensures a + (b + c) == (a + b) + c
  {
  }

  /** Rendering splits at every settled boundary. */
  lemma RenderSplits(x: string, y: string, replace: string -> string)
    requires Settled(x)
    ensures Render(x + y, replace) == Render(x, replace) + Render(y, replace)
  {
    RenderBefore(x, y, 0, replace);
  }

  // ---- An ID in a text ----

  lemma Consecutive(s: string, first: int, c: char)
    requires forall i | 0 <= i < |s| :: s[i] as int == first + i
    ensures c in s <==> first <= c as int < first + |s|
  {
    if first <= c as int < first + |s| {
      assert s[c as int - first] == c;
    }
  }

  /** The character classes of the pattern, and the characters that a stream holds back. */
  lemma CharClasses(c: char)
    ensures IsHeadChar(c) <==> c in "abcdefghijklmnopqrstuvwxyz" || c in "ABCDEFGHIJKLMNOPQRSTUVWXYZ" || c == '_'
    ensures IsWordChar(c) <==> IsHeadChar(c) || c in "0123456789"
    ensures IsKeyChar(c) <==> IsWordChar(c) || c == '-'
    ensures IsIdChar(c) <==> IsKeyChar(c) || c == ':'
  {
    Consecutive("abcdefghijklmnopqrstuvwxyz", 'a' as int, c);
    Consecutive("ABCDEFGHIJKLMNOPQRSTUVWXYZ", 'A' as int, c);
    Consecutive("0123456789", '0' as int, c);
  }

  lemma {:induction false} KeysGrow(s: string, c: char)
    requires IsKeys(s) && IsKeyChar(c)
    ensures IsKeys(s + [c])
  {
    var k :| 2 <= k <= |s| && s[0] == ':' && AllKey(s[1..k]) && (k == |s| || IsKeys(s[k..]));
    if k == |s| {
      assert (s + [c])[1..k + 1] == s[1..k] + [c];
    } else {
      KeysGrow(s[k..], c);
      assert (s + [c])[1..k] == s[1..k] && (s + [c])[k..] == s[k..] + [c];
    }
  }

  /** An ID goes on with every key character. */
  lemma IdGrows(s: string, c: char)
    requires IsId(s) && IsKeyChar(c)
    ensures IsId(s + [c])
  {
    hide IsKeys;
    var h :| 1 <= h < |s| && IsHeadChar(s[0]) && AllWord(s[..h]) && IsKeys(s[h..]);
    KeysGrow(s[h..], c);
    assert (s + [c])[..h] == s[..h] && (s + [c])[h..] == s[h..] + [c];
  }

  lemma {:induction false} KeysHold(s: string, i: nat)
    requires IsKeys(s) && i < |s|
    ensures IsIdChar(s[i])
  {
    var k :| 2 <= k <= |s| && s[0] == ':' && AllKey(s[1..k]) && (k == |s| || IsKeys(s[k..]));
    if 0 < i < k {
      assert s[i] == s[1..k][i - 1];
    } else if i >= k {
      KeysHold(s[k..], i - k);
    }
  }

  /** An ID consists of ID characters. */
  lemma IdHolds(s: string, i: nat)
    requires IsId(s) && i < |s|
    ensures IsIdChar(s[i])
  {
    hide IsKeys;
    var h :| 1 <= h < |s| && IsHeadChar(s[0]) && AllWord(s[..h]) && IsKeys(s[h..]);
    if i < h {
      assert s[i] == s[..h][i];
    } else {
      KeysHold(s[h..], i - h);
    }
  }

  /** `y` does not go on with the ID before it. */
  ghost predicate Ends(id: string, y: string) {
    forall j | |id| < j <= |id + y| :: !IsId((id + y)[..j])
  }

  /** As when the rest is empty or begins with no ID character. */
  lemma IdEnds(id: string, y: string)
    requires y == "" || !IsIdChar(y[0])
    ensures Ends(id, y)
  {
    hide IsId, IsIdChar;
    forall j | |id| < j <= |id + y| ensures !IsId((id + y)[..j]) {
      if IsId((id + y)[..j]) {
        IdHolds((id + y)[..j], |id|);
      }
    }
  }

  lemma MatchIsThatId(id: string, y: string)
    requires IsId(id) && Ends(id, y)
    ensures MatchEnd(id + y, 0) == |id| > 0
  {
    var t := id + y;
    assert t[0..|id|] == id && Opens(t, 0);
    hide IsId;
    MatchCovers(t, 0, |id|);
    MatchIsId(t, 0);
    assert t[0..MatchEnd(t, 0)] == t[..MatchEnd(t, 0)];
  }

  lemma EndedApart(id: string, y: string)
    requires IsId(id) && Ends(id, y)
    ensures Apart(id, y)
  {
    hide IsId;
    if y != "" {
      assert (id + y)[..|id| + 1] == id + [y[0]];
      if IsKeyChar(y[0]) {
        IdGrows(id, y[0]);
      }
    }
  }

  /** An ID that begins a text and ends there is replaced, and the rest is rendered by itself. */
  lemma LeadingIdReplaced(id: string, y: string, replace: string -> string)
    requires IsId(id) && Ends(id, y)
    ensures Render(id + y, replace) == replace(id) + Render(y, replace)
  {
    MatchIsThatId(id, y);
    EndedApart(id, y);
    RenderAfter(id, y, 0, replace);
    hide IsId, Ends, Apart, MatchEnd;
    assert (id + y)[0..|id|] == id;
  }

  /** Wherever a text holds an ID between a place that no ID crosses and a rest that does not go
      on with it, the replacement of the ID is shown there. */
  lemma IdIsReplaced(x: string, id: string, y: string, replace: string -> string)
    requires Settled(x) && IsId(id) && Ends(id, y)
    ensures Render(x + id + y, replace) == Render(x, replace) + replace(id) + Render(y, replace)
  {
    LeadingIdReplaced(id, y, replace);
    RenderSplits(x, id + y, replace);
    hide Render, IsId, Ends, Settled;
    Associative(x, id, y);
    Associative(Render(x, replace), replace(id), Render(y, replace));
  }

  // ---- Resolving one ID ----

  datatype ReferenceMode = Address | Name | Id

  /** What the selectors find for one entity in the current language; empty when nothing. */
  datatype Entity = Entity(addressAs: string, displayName: string)

  const PERSON := "person:"

  /** A known entity shows its form of address or its name; anything else stays an ID. */
  function Resolve(entities: map<string, Entity>, id: string, mode: ReferenceMode): string {
    if mode == Id || id !in entities then id
    else if mode == Address && PERSON <= id && entities[id].addressAs != "" then entities[id].addressAs
    else if entities[id].displayName != "" then entities[id].displayName
    else id
  }

  function Replacement(entities: map<string, Entity>, personMode: ReferenceMode): string -> string {
    (id: string) => Resolve(entities, id, if PERSON <= id then personMode else Name)
  }

  lemma {:induction false} UnknownPiece(t: string, i: nat, replace: string -> string)
    requires i < |t| && forall id | IsId(id) :: replace(id) == id
    ensures Piece(t, i, replace) + t[Next(t, i)..] == t[i..]
  {
    if MatchEnd(t, i) > i {
      MatchIsId(t, i);
    }
  }

  /** Text that mentions no known entity is shown unchanged. */
  lemma {:induction false} UnknownIdsStay(t: string, i: nat, replace: string -> string)
    requires i <= |t|
    requires forall id | IsId(id) :: replace(id) == id
    ensures RenderFrom(t, i, replace) == t[i..]
    decreases |t| - i
  {
    hide Piece, Next, IsId, MatchEnd;
    if i < |t| {
      UnknownPiece(t, i, replace);
      UnknownIdsStay(t, Next(t, i), replace);
    }
  }

  /** With nobody registered every text is shown unchanged, in every mode. */
  lemma NobodyKnown(t: string, personMode: ReferenceMode)
    ensures Render(t, Replacement(map[], personMode)) == t
  {
    UnknownIdsStay(t, 0, Replacement(map[], personMode));
  }

  /** Which name is shown: a person's form of address where the mode asks for it and there is
      one, else the display name; the ID where no name is found or a person's ID is asked for. */
  lemma ReplacementShows(entities: map<string, Entity>, personMode: ReferenceMode, id: string)
    requires IsId(id)
    ensures var shown := Replacement(entities, personMode)(id);
      && shown != ""
      && (id !in entities || (PERSON <= id && personMode == Id) ==> shown == id)
      && (id in entities && !(PERSON <= id && personMode == Id) ==>
        var (addressed, name) := (entities[id].addressAs, entities[id].displayName);
        && (PERSON <= id && personMode == Address && addressed != "" ==> shown == addressed)
        && (!(PERSON <= id && personMode == Address && addressed != "") && name != "" ==> shown == name)
        && (!(PERSON <= id && personMode == Address && addressed != "") && name == "" ==> shown == id))
  {
    assert id != "";
  }

  /** Something to show for an entity in a mode. */
  predicate HasName(entity: Entity, addressed: bool) {
    entity.displayName != "" || (addressed && entity.addressAs != "")
  }

  /** Exactly when an ID stays, if no entity is called by its own ID. */
  lemma StaysExactly(entities: map<string, Entity>, personMode: ReferenceMode, id: string)
    requires IsId(id)
    requires id in entities ==> entities[id].displayName != id && entities[id].addressAs != id
    ensures Replacement(entities, personMode)(id) == id <==>
      || id !in entities
      || (PERSON <= id && personMode == Id)
      || !HasName(entities[id], PERSON <= id && personMode == Address)
  {
  }

  /** No known ID is left standing: at its place in a text its name is shown. */
  lemma KnownIdShowsName(
    x: string, id: string, y: string, entities: map<string, Entity>, personMode: ReferenceMode)
    requires Settled(x) && IsId(id) && (y == "" || !IsIdChar(y[0]))
    requires id in entities && !(PERSON <= id && personMode == Id)
    requires HasName(entities[id], PERSON <= id && personMode == Address)
    ensures var replace := Replacement(entities, personMode);
      Render(x + id + y, replace) == Render(x, replace)
        + (if PERSON <= id && personMode == Address && entities[id].addressAs != "" then entities[id].addressAs
           else entities[id].displayName)
        + Render(y, replace)
  {
    var replace := Replacement(entities, personMode);
    IdEnds(id, y);
    IdIsReplaced(x, id, y, replace);
    hide Render, IsId, Ends, Settled;
  }

  // ---- Streaming ----

  /** Where the trailing run of ID characters begins. */
  function Boundary(t: string): (b: nat)
    ensures b <= |t| && Settled(t[..b])
    ensures forall i | b <= i < |t| :: IsIdChar(t[i])
  {
    if t != "" && IsIdChar(t[|t| - 1]) then
      var init := t[..|t| - 1];
      assert forall b | 0 <= b <= |init| :: init[..b] == t[..b];
      Boundary(init)
    else |t|
  }

  function Ready(t: string): string { t[..Boundary(t)] }

  function Held(t: string): string { t[Boundary(t)..] }

  lemma SettledExtends(x: string, y: string)
    requires Settled(x) && Settled(y)
    ensures Settled(x + y)
  {
    if y == "" { assert x + y == x; }
  }

  /** `out` shows all of `text` but the run `held` at its end, cut where no ID crosses. */
  ghost predicate Streamed(text: string, out: string, held: string, replace: string -> string) {
    && |held| <= |text|
    && var settled := text[..|text| - |held|];
    && Settled(settled) && out == Render(settled, replace) && settled + held == text
  }

  lemma SettledOf(settled: string, held: string, out: string, replace: string -> string)
    requires Settled(settled) && out == Render(settled, replace)
    ensures Streamed(settled + held, out, held, replace)
  {
    assert (settled + held)[..|settled|] == settled;
  }

  lemma Regrouped(settled: string, held: string, chunk: string, ready: string, rest: string)
    requires held + chunk == ready + rest
    ensures settled + held + chunk == settled + ready + rest
  {
    Associative(settled, held, chunk);
    Associative(settled, ready, rest);
  }

  lemma ReadyAndHeld(t: string)
    ensures Settled(Ready(t)) && t == Ready(t) + Held(t)
  {
    hide Settled;
  }

  lemma ReadyShown(settled: string, ready: string, rest: string, replace: string -> string)
    requires Settled(settled) && Settled(ready)
    ensures Streamed(settled + ready + rest, Render(settled, replace) + Render(ready, replace), rest, replace)
  {
    SettledExtends(settled, ready);
    RenderSplits(settled, ready, replace);
    hide Render, Settled, Streamed;
    SettledOf(settled + ready, rest, Render(settled, replace) + Render(ready, replace), replace);
  }

  /** One feeding step. */
  lemma FeedStep(text: string, out: string, held: string, chunk: string, replace: string -> string)
    requires Streamed(text, out, held, replace)
    ensures Streamed(text + chunk, out + Render(Ready(held + chunk), replace), Held(held + chunk), replace)
  {
    var settled := text[..|text| - |held|];
    assert Settled(settled) && out == Render(settled, replace) && text == settled + held;
    hide Render, Settled, Streamed, Ready, Held;
    ReadyAndHeld(held + chunk);
    ReadyShown(settled, Ready(held + chunk), Held(held + chunk), replace);
    Regrouped(settled, held, chunk, Ready(held + chunk), Held(held + chunk));
  }

  /** What is left to show is the rendering of the run held back. */
  lemma StreamedRest(text: string, out: string, held: string, replace: string -> string)
    requires Streamed(text, out, held, replace)
    ensures out + Render(held, replace) == Render(text, replace)
  {
    RenderSplits(text[..|text| - |held|], held, replace);
  }

  /** The output of feeding `chunks` in turn and the run still held back afterwards. */
  ghost function Fed(chunks: seq<string>, replace: string -> string): (string, string) {
    if chunks == [] then ("", "")
    else
      var (out, held) := Fed(chunks[..|chunks| - 1], replace);
      var combined := held + chunks[|chunks| - 1];
      (out + Render(Ready(combined), replace), Held(combined))
  }

  function Concat(chunks: seq<string>): string {
    if chunks == [] then "" else Concat(chunks[..|chunks| - 1]) + chunks[|chunks| - 1]
  }

  /** However a text is cut into chunks, the streamed output followed by the rendering of
      the held run is the rendering of the whole text; what is held is a run of ID
      characters after a settled text whose rendering has been emitted in full. */
  lemma {:induction false} StreamingEqualsRendering(chunks: seq<string>, replace: string -> string)
    ensures var (out, held) := Fed(chunks, replace);
      && Streamed(Concat(chunks), out, held, replace)
      && out + Render(held, replace) == Render(Concat(chunks), replace)
  {
    hide Render, Streamed, Ready, Held;
    if chunks == [] {
      NothingStreamed(replace);
    } else {
      var before, chunk := chunks[..|chunks| - 1], chunks[|chunks| - 1];
      StreamingEqualsRendering(before, replace);
      FeedStep(Concat(before), Fed(before, replace).0, Fed(before, replace).1, chunk, replace);
    }
    StreamedRest(Concat(chunks), Fed(chunks, replace).0, Fed(chunks, replace).1, replace);
  }

  lemma NothingStreamed(replace: string -> string)
    ensures Streamed("", "", "", replace)
  {
  }

  lemma {:induction false} ConcatPrefix(chunks: seq<string>, n: nat)
    requires n <= |chunks|
    ensures Concat(chunks[..n]) <= Concat(chunks)
    decreases |chunks| - n
  {
    if n == |chunks| {
      assert chunks[..n] == chunks;
    } else {
      ConcatPrefix(chunks, n + 1);
      assert chunks[..n + 1][..n] == chunks[..n];
    }
  }

  /** What has been shown after any number of chunks is a prefix of the final text. */
  lemma {:induction false} EmittedIsPrefix(chunks: seq<string>, n: nat, replace: string -> string)
    requires n <= |chunks|
    ensures Fed(chunks[..n], replace).0 <= Render(Concat(chunks), replace)
  {
    StreamingEqualsRendering(chunks[..n], replace);
    ConcatPrefix(chunks, n);
    hide Render, Fed, Concat;
    var (out, held) := Fed(chunks[..n], replace);
    StreamedIsPrefix(Concat(chunks[..n]), out, held, Concat(chunks), replace);
  }

  lemma StreamedIsPrefix(text: string, out: string, held: string, whole: string, replace: string -> string)
    requires Streamed(text, out, held, replace) && text <= whole
    ensures out <= Render(whole, replace)
  {
    hide Render;
    var settled := text[..|text| - |held|];
    assert whole == settled + whole[|settled|..];
    RenderSplits(settled, whole[|settled|..], replace);
  }

  function Shown(t: string, expose: bool, replace: string -> string): string {
    if expose then t else Render(t, replace)
  }

  /** The loop of `feed` that walks back over the trailing run of ID characters. */
  method CutBack(combined: string) returns (boundary: nat)
    ensures boundary == Boundary(combined)
  {
    boundary := |combined|;
    assert combined[..boundary] == combined;
    while boundary > 0 && IsIdChar(combined[boundary - 1])
      invariant boundary <= |combined|
      invariant Boundary(combined[..boundary]) == Boundary(combined)
    {
      assert combined[..boundary][..boundary - 1] == combined[..boundary - 1];
      boundary := boundary - 1;
    }
  }

  /** Incremental rendering of streamed text. `fed` is the text received so far and `emitted`
      what was shown of it. */
  class DisplayTextStream {
    const expose: bool
    const replace: string -> string
    var pending: string
    ghost var fed: string
    ghost var emitted: string

    /** All text but the pending run has been shown, cut where no ID crosses. */
    ghost predicate Valid()
      reads this
    {
      if expose then pending == "" && emitted == fed else Streamed(fed, emitted, pending, replace)
    }

    constructor (expose: bool, replace: string -> string)
      ensures Valid() && fed == pending == emitted == ""
      ensures this.expose == expose && this.replace == replace
    {
      this.expose, this.replace := expose, replace;
      pending, fed, emitted := "", "", "";
      NothingStreamed(replace);
    }

    method Feed(text: string) returns (out: string)
      requires Valid()
      modifies this
      ensures Valid()
      ensures fed == old(fed) + text && emitted == old(emitted) + out
      ensures emitted <= Shown(fed, expose, replace)
      ensures pending != "" ==> !expose && forall i | 0 <= i < |pending| :: IsIdChar(pending[i])
    {
      hide Render, Streamed;
      if expose {
        out := text;
      } else {
        var combined := pending + text;
        var boundary := CutBack(combined);
        FeedStep(fed, emitted, pending, text, replace);
        pending := combined[boundary..];
        out := Render(combined[..boundary], replace);
      }
      fed, emitted := fed + text, emitted + out;
      if !expose {
        StreamedIsPrefix(fed, emitted, pending, fed, replace);
      }
    }

    /** The rest of the text is shown, and the stream starts over. */
    method Finish() returns (out: string)
      requires Valid()
      modifies this
      ensures Valid() && fed == pending == emitted == ""
      ensures old(emitted) + out == Shown(old(fed), expose, replace)
    {
      out := Render(pending, replace);
      if !expose {
        StreamedRest(fed, emitted, pending, replace);
      }
      pending, fed, emitted := "", "", "";
      NothingStreamed(replace);
    }
  }
}
