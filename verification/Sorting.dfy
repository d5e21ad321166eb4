/** Sorting by an order that is given as a predicate: the stable insertion sort, and what every
    correct sort has in common with it. */
module Sorting {
  type Order<!T> = (T, T) -> bool

  ghost predicate IsTotal<T(!new)>(le: Order<T>) {
    forall x, y :: le(x, y) || le(y, x)
  }

  ghost predicate IsTransitive<T(!new)>(le: Order<T>) {
    forall x, y, z :: le(x, y) && le(y, z) ==> le(x, z)
  }

  predicate InOrder<T>(s: seq<T>, le: Order<T>) {
    forall i, j | 0 <= i < j < |s| :: le(s[i], s[j])
  }

  /** Put `x` before everything that it may precede. */
  function Insert<T>(x: T, s: seq<T>, le: Order<T>): (r: seq<T>)
    ensures |r| == |s| + 1
  {
    if s == [] || le(x, s[0]) then [x] + s else [s[0]] + Insert(x, s[1..], le)
  }

  function Sort<T>(s: seq<T>, le: Order<T>): (r: seq<T>)
    ensures |r| == |s|
  {
    if s == [] then [] else Insert(s[0], Sort(s[1..], le), le)
  }

  lemma {:induction false} InsertContents<T>(x: T, s: seq<T>, le: Order<T>)
    ensures multiset(Insert(x, s, le)) == multiset{x} + multiset(s)
  {
    if s != [] && !le(x, s[0]) {
      InsertContents(x, s[1..], le);
      assert s == [s[0]] + s[1..];
    }
  }

  lemma {:induction false} SortContents<T>(s: seq<T>, le: Order<T>)
    ensures multiset(Sort(s, le)) == multiset(s)
  {
    if s != [] {
      SortContents(s[1..], le);
      InsertContents(s[0], Sort(s[1..], le), le);
      assert s == [s[0]] + s[1..];
    }
  }

  lemma {:induction false} InOrderCons<T(!new)>(x: T, s: seq<T>, le: Order<T>)
    requires IsTransitive(le) && InOrder(s, le) && (s != [] ==> le(x, s[0]))
    ensures InOrder([x] + s, le)
  {
    forall j | 0 <= j < |s| ensures le(x, s[j]) {
      assert j > 0 ==> le(s[0], s[j]);
    }
  }

  lemma {:induction false} InsertInOrder<T(!new)>(x: T, s: seq<T>, le: Order<T>)
    requires IsTotal(le) && IsTransitive(le) && InOrder(s, le)
    ensures InOrder(Insert(x, s, le), le)
    ensures Insert(x, s, le)[0] == x || (s != [] && Insert(x, s, le)[0] == s[0])
  {
    hide IsTransitive;
    if s == [] || le(x, s[0]) {
      InOrderCons(x, s, le);
    } else {
      InsertInOrder(x, s[1..], le);
      InOrderCons(s[0], Insert(x, s[1..], le), le);
    }
  }

  lemma {:induction false} SortInOrder<T(!new)>(s: seq<T>, le: Order<T>)
    requires IsTotal(le) && IsTransitive(le)
    ensures InOrder(Sort(s, le), le)
  {
    if s != [] {
      SortInOrder(s[1..], le);
      InsertInOrder(s[0], Sort(s[1..], le), le);
    }
  }

  /** No two different members may precede each other. */
  ghost predicate Settles<T>(s: seq<T>, le: Order<T>) {
    forall i, j | 0 <= i < |s| && 0 <= j < |s| && le(s[i], s[j]) && le(s[j], s[i]) :: s[i] == s[j]
  }

  lemma {:induction false} HeadsEqual<T>(a: seq<T>, b: seq<T>, le: Order<T>)
    requires InOrder(a, le) && InOrder(b, le) && multiset(a) == multiset(b) && Settles(a, le)
    requires a != [] && b != []
    ensures a[0] == b[0]
  {
    assert b[0] in multiset(b) && a[0] in multiset(a);
    var i :| 0 <= i < |a| && a[i] == b[0];
    var j :| 0 <= j < |b| && b[j] == a[0];
  }

  lemma {:induction false} TailContents<T>(a: seq<T>, b: seq<T>)
    requires a != [] && b != [] && a[0] == b[0] && multiset(a) == multiset(b)
    ensures multiset(a[1..]) == multiset(b[1..])
  {
    assert a == [a[0]] + a[1..] && b == [b[0]] + b[1..];
    assert multiset(a[1..]) == multiset(a) - multiset{a[0]};
    assert multiset(b[1..]) == multiset(b) - multiset{b[0]};
  }

  /** Where the order settles every pair, it determines the sorted list. */
  lemma {:induction false} SortUnique<T>(a: seq<T>, b: seq<T>, le: Order<T>)
    requires InOrder(a, le) && InOrder(b, le) && multiset(a) == multiset(b) && Settles(a, le)
    ensures a == b
  {
    assert |multiset(a)| == |multiset(b)|;
    if a != [] {
      HeadsEqual(a, b, le);
      TailContents(a, b);
      SortUnique(a[1..], b[1..], le);
      assert a == [a[0]] + a[1..] && b == [b[0]] + b[1..];
    }
  }
}
