/** Choosing members of a sequence, in order. */
module Selection {
  ghost predicate Increasing(at: seq<nat>) {
    forall i, j | 0 <= i < j < |at| :: at[i] < at[j]
  }

  ghost predicate IsAmong(n: nat, at: seq<nat>) {
    n in at
  }

  /** `at` lists, in order, the places of `s` that hold something to keep. */
  ghost predicate Places<T>(at: seq<nat>, s: seq<T>, keep: T -> bool) {
    && Increasing(at) && (at != [] ==> at[|at| - 1] < |s|)
    && forall n: nat {:trigger IsAmong(n, at)} | n < |s| :: IsAmong(n, at) <==> keep(s[n])
  }

  /** `r` shows what `s` holds at these places. */
  ghost predicate ShowsAt<T, U>(r: seq<U>, at: seq<nat>, s: seq<T>, show: T -> U) {
    |r| == |at| && forall i | 0 <= i < |r| :: at[i] < |s| && r[i] == show(s[at[i]])
  }

  /** `r` shows exactly the members of `s` to keep: in order, and each as often as it occurs. */
  ghost predicate Chosen<T, U>(r: seq<U>, s: seq<T>, keep: T -> bool, show: T -> U) {
    exists at: seq<nat> :: Places(at, s, keep) && ShowsAt(r, at, s, show)
  }

  lemma ChosenFromNone<T, U>(keep: T -> bool, show: T -> U)
    ensures Chosen([], [], keep, show)
  {
    assert Places([], [], keep) && ShowsAt([], [], [], show);
  }

  lemma PlacesSnoc<T>(at: seq<nat>, s: seq<T>, x: T, keep: T -> bool)
    requires Places(at, s, keep)
    ensures Places(if keep(x) then at + [|s|] else at, s + [x], keep)
  {
    var at' := if keep(x) then at + [|s|] else at;
    assert Increasing(at');
    forall n: nat | n < |s + [x]| ensures IsAmong(n, at') <==> keep((s + [x])[n]) {
      assert n < |s| ==> (IsAmong(n, at) <==> keep(s[n]));
    }
  }

  lemma ShowsSnoc<T, U>(r: seq<U>, at: seq<nat>, s: seq<T>, x: T, show: T -> U)
    requires ShowsAt(r, at, s, show)
    ensures ShowsAt(r, at, s + [x], show) && ShowsAt(r + [show(x)], at + [|s|], s + [x], show)
  {
  }

  /** One member more. */
  lemma ChosenSnoc<T, U>(r: seq<U>, s: seq<T>, x: T, keep: T -> bool, show: T -> U)
    requires Chosen(r, s, keep, show)
    ensures Chosen(if keep(x) then r + [show(x)] else r, s + [x], keep, show)
  {
    var at: seq<nat> :| Places(at, s, keep) && ShowsAt(r, at, s, show);
    PlacesSnoc(at, s, x, keep);
    ShowsSnoc(r, at, s, x, show);
    hide Places, ShowsAt;
  }

  lemma PlacesFront<T>(at: seq<nat>, s: seq<T>, x: T, keep: T -> bool)
    requires Places(at, s + [x], keep)
    ensures keep(x) ==> at != [] && at[|at| - 1] == |s| && Places(at[..|at| - 1], s, keep)
    ensures !keep(x) ==> Places(at, s, keep)
  {
    assert (s + [x])[|s|] == x;
    assert IsAmong(|s|, at) <==> keep(x);
    if keep(x) {
      var i :| 0 <= i < |at| && at[i] == |s|;
      assert i == |at| - 1;
      var front := at[..i];
      forall n: nat | n < |s| ensures IsAmong(n, front) <==> keep(s[n]) {
        assert at == front + [|s|];
        assert IsAmong(n, at) <==> keep((s + [x])[n]);
      }
    } else {
      assert at != [] ==> IsAmong(at[|at| - 1], at);
      forall n: nat | n < |s| ensures IsAmong(n, at) <==> keep(s[n]) {
        assert IsAmong(n, at) <==> keep((s + [x])[n]);
      }
    }
  }

  lemma ChosenFront<T, U>(r: seq<U>, s: seq<T>, x: T, keep: T -> bool, show: T -> U)
    requires Chosen(r, s + [x], keep, show)
    ensures keep(x) ==> r != [] && r[|r| - 1] == show(x) && Chosen(r[..|r| - 1], s, keep, show)
    ensures !keep(x) ==> Chosen(r, s, keep, show)
  {
    var at: seq<nat> :| Places(at, s + [x], keep) && ShowsAt(r, at, s + [x], show);
    PlacesFront(at, s, x, keep);
    if keep(x) {
      assert ShowsAt(r[..|r| - 1], at[..|at| - 1], s, show) by {
        hide Places;
        PlacesBelow(at[..|at| - 1], s, keep);
      }
    } else {
      PlacesBelow(at, s, keep);
      assert ShowsAt(r, at, s, show) by { hide Places; }
    }
  }

  lemma PlacesBelow<T>(at: seq<nat>, s: seq<T>, keep: T -> bool)
    requires Places(at, s, keep)
    ensures forall i | 0 <= i < |at| :: at[i] < |s|
  {
  }

  /** There is only one choice. */
  lemma {:induction false} ChosenUnique<T, U>(r: seq<U>, other: seq<U>, s: seq<T>, keep: T -> bool, show: T -> U)
    requires Chosen(r, s, keep, show) && Chosen(other, s, keep, show)
    ensures r == other
  {
    if s != [] {
      var most, x := s[..|s| - 1], s[|s| - 1];
      assert s == most + [x];
      ChosenFront(r, most, x, keep, show);
      ChosenFront(other, most, x, keep, show);
      hide Chosen;
      if keep(x) {
        ChosenUnique(r[..|r| - 1], other[..|other| - 1], most, keep, show);
        assert r == r[..|r| - 1] + [show(x)] && other == other[..|other| - 1] + [show(x)];
      } else {
        ChosenUnique(r, other, most, keep, show);
      }
    }
  }

  /** Nothing is chosen exactly when nothing is to be kept. */
  lemma NothingChosen<T, U>(r: seq<U>, s: seq<T>, keep: T -> bool, show: T -> U)
    requires Chosen(r, s, keep, show)
    ensures r == [] <==> forall i | 0 <= i < |s| :: !keep(s[i])
  {
    var at: seq<nat> :| Places(at, s, keep) && ShowsAt(r, at, s, show);
    if r != [] {
      assert IsAmong(at[0], at) && at[0] < |s|;
      assert keep(s[at[0]]);
    }
    if i: nat :| i < |s| && keep(s[i]) {
      assert IsAmong(i, at);
    }
  }

  /** Only what is kept and shown matters. */
  lemma ChosenAlong<S, T, U>(r: seq<U>, s: seq<S>, t: seq<T>, keepS: S -> bool, keepT: T -> bool, showS: S -> U,
                             showT: T -> U)
    requires Chosen(r, s, keepS, showS) && |s| == |t|
    requires forall i | 0 <= i < |s| :: keepS(s[i]) == keepT(t[i]) && showS(s[i]) == showT(t[i])
    ensures Chosen(r, t, keepT, showT)
  {
    var at: seq<nat> :| Places(at, s, keepS) && ShowsAt(r, at, s, showS);
    assert Places(at, t, keepT) by {
      forall n: nat | n < |t| ensures IsAmong(n, at) <==> keepT(t[n]) {
        assert IsAmong(n, at) <==> keepS(s[n]);
      }
    }
    assert ShowsAt(r, at, t, showT);
  }

  function Same<T>(x: T): T { x }

  /** What is chosen from a sequence in order is in order. */
  lemma ChosenInOrder<T>(r: seq<T>, s: seq<T>, keep: T -> bool, le: (T, T) -> bool)
    requires Chosen(r, s, keep, Same)
    requires forall i, j | 0 <= i < j < |s| :: le(s[i], s[j])
    ensures forall i, j | 0 <= i < j < |r| :: le(r[i], r[j])
  {
    var at: seq<nat> :| Places(at, s, keep) && ShowsAt(r, at, s, Same);
    forall i, j | 0 <= i < j < |r| ensures le(r[i], r[j]) {
      assert at[i] < at[j] < |s|;
    }
  }

  /** Every member that is kept is chosen as often as it occurs. */
  lemma {:induction false} ChosenCount<T>(r: seq<T>, s: seq<T>, keep: T -> bool, x: T)
    requires Chosen(r, s, keep, Same)
    ensures multiset(r)[x] == if keep(x) then multiset(s)[x] else 0
  {
    if s != [] {
      var most, last := s[..|s| - 1], s[|s| - 1];
      assert s == most + [last];
      ChosenFront(r, most, last, keep, Same);
      hide Chosen;
      if keep(last) {
        ChosenCount(r[..|r| - 1], most, keep, x);
        assert r == r[..|r| - 1] + [last];
      } else {
        ChosenCount(r, most, keep, x);
      }
    }
  }
}
