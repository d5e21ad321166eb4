/** Exclusive time per stage of a latency trace: every event's duration without the
    union of the events it contains. Times are whole ticks of a common unit, so the
    measure of a set of instants is its number of ticks. */
module ExclusiveTime {
  import opened Sorting

  function Max(x: int, y: int): int { if x < y then y else x }

  /** The ticks from `a` up to but not including `b`. */
  ghost function Span(a: int, b: int): (r: set<int>)
    ensures forall t :: t in r <==> a <= t < b
    ensures |r| == Max(0, b - a)
    decreases Max(0, b - a)
  {
    if a < b then {a} + Span(a + 1, b) else {}
  }

  datatype Event = Event(stage: string, start: int, duration: int) {
    function End(): int { start + duration }

    ghost function Ticks(): set<int> { Span(start, End()) }
  }

  datatype Interval = Interval(a: int, b: int)

  predicate Inside(outer: Event, inner: Event) {
    outer.start <= inner.start && inner.End() <= outer.End()
  }

  /** Another event, contained in `i`, covers tick `t`. */
  ghost predicate ChildCovers(events: seq<Event>, i: nat, t: int)
    requires i < |events|
  {
    exists j | 0 <= j < |events| && j != i :: Inside(events[i], events[j]) && t in events[j].Ticks()
  }

  /** The ticks of `i` that no other contained event covers. */
  ghost function Owned(events: seq<Event>, i: nat): set<int>
    requires i < |events|
  {
    set t | t in events[i].Ticks() && !ChildCovers(events, i, t)
  }

  // ---- Sorting intervals ----

  /** Tuple order. */
  predicate AtMost(x: Interval, y: Interval) {
    x.a < y.a || (x.a == y.a && x.b <= y.b)
  }

  function SortedIntervals(s: seq<Interval>): seq<Interval> {
    Sort(s, AtMost)
  }

  lemma SortedIsPermutation(s: seq<Interval>)
    ensures InOrder(SortedIntervals(s), AtMost)
    ensures multiset(SortedIntervals(s)) == multiset(s)
  {
    SortContents(s, AtMost);
    SortInOrder(s, AtMost);
  }

  // ---- The sweep ----

  /** Tick `t` lies in one of the intervals. */
  ghost predicate Hits(s: seq<Interval>, t: int) {
    exists i | 0 <= i < |s| :: s[i].a <= t < s[i].b
  }

  ghost function Union(s: seq<Interval>): (r: set<int>)
    ensures forall t :: t in r <==> Hits(s, t)
  {
    if s == [] then {}
    else
      var n := |s| - 1;
      assert forall t :: Hits(s, t) <==> Hits(s[..n], t) || s[n].a <= t < s[n].b;
      Union(s[..n]) + Span(s[n].a, s[n].b)
  }

  lemma {:induction false} UnionOfPermutation(s: seq<Interval>, r: seq<Interval>)
    requires multiset(s) == multiset(r)
    ensures Union(s) == Union(r)
  {
    forall t ensures Hits(s, t) <==> Hits(r, t) {
      if Hits(s, t) {
        var i :| 0 <= i < |s| && s[i].a <= t < s[i].b;
        assert s[i] in multiset(r);
      }
      if Hits(r, t) {
        var i :| 0 <= i < |r| && r[i].a <= t < r[i].b;
        assert r[i] in multiset(s);
      }
    }
  }

  lemma UnionAppend(s: seq<Interval>, k: nat)
    requires k < |s|
    ensures Union(s[..k + 1]) == Union(s[..k]) + Span(s[k].a, s[k].b)
  {
    assert s[..k + 1][..k] == s[..k];
  }

  /** Below the cursor, a later interval adds nothing: the interval that set the cursor
      began no later than it does. */
  lemma {:induction false} BelowCursor(s: seq<Interval>, k: nat, start: int, cursor: int)
    requires InOrder(s, AtMost) && k < |s| && start <= s[k].a
    requires forall i | 0 <= i < k :: s[i].b <= cursor
    requires cursor == start || exists i | 0 <= i < k :: s[i].b == cursor
    ensures forall t | t in Union(s[..k]) :: t < cursor
    ensures forall t | s[k].a <= t < s[k].b && t < cursor :: t in Union(s[..k])
  {
    hide Union, Span;
    var before := s[..k];
    forall t | s[k].a <= t < s[k].b && t < cursor ensures Hits(before, t) {
      var j :| 0 <= j < k && s[j].b == cursor;
      assert AtMost(s[j], s[k]);
      assert before[j].a <= t < before[j].b;
    }
    forall t | Hits(before, t) ensures t < cursor {
      var i :| 0 <= i < |before| && before[i].a <= t < before[i].b;
      assert s[i].b <= cursor;
    }
  }

  lemma {:induction false} SweepStep(s: seq<Interval>, k: nat, start: int, cursor: int)
    requires InOrder(s, AtMost) && k < |s| && start <= s[k].a
    requires forall i | 0 <= i < k :: s[i].b <= cursor
    requires cursor == start || exists i | 0 <= i < k :: s[i].b == cursor
    ensures |Union(s[..k + 1])| == |Union(s[..k])| + Max(0, s[k].b - Max(cursor, s[k].a))
  {
    UnionAppend(s, k);
    BelowCursor(s, k, start, cursor);
    Grow(Union(s[..k]), s[k].a, s[k].b, cursor);
  }

  lemma {:induction false} Grow(u: set<int>, a: int, b: int, cursor: int)
    requires forall t | t in u :: t < cursor
    requires forall t | a <= t < b && t < cursor :: t in u
    ensures |u + Span(a, b)| == |u| + Max(0, b - Max(cursor, a))
  {
    hide Span;
    var added := Span(Max(cursor, a), b);
    assert u + Span(a, b) == u + added;
    assert u !! added;
  }

  /** The cursor sweep over intervals in order computes the measure of their union. */
  method Sweep(intervals: seq<Interval>, start: int) returns (covered: nat)
    requires InOrder(intervals, AtMost) && forall i | 0 <= i < |intervals| :: start <= intervals[i].a
    ensures covered == |Union(intervals)|
  {
    hide Span;
    var cursor := start;
    covered := 0;
    for k := 0 to |intervals|
      invariant covered == |Union(intervals[..k])|
      invariant forall i | 0 <= i < k :: intervals[i].b <= cursor
      invariant cursor == start || exists i | 0 <= i < k :: intervals[i].b == cursor
    {
      SweepStep(intervals, k, start, cursor);
      covered := covered + Max(0, intervals[k].b - Max(cursor, intervals[k].a));
      cursor := Max(cursor, intervals[k].b);
    }
    assert intervals[..|intervals|] == intervals;
  }

  /** The intervals of the other events that event `i` contains, among the first `n`. */
  function Children(events: seq<Event>, i: nat, n: nat): (r: seq<Interval>)
    requires i < |events| && n <= |events|
    ensures forall k | 0 <= k < |r| :: events[i].start <= r[k].a
  {
    if n == 0 then []
    else
      var rest := Children(events, i, n - 1);
      if n - 1 != i && Inside(events[i], events[n - 1])
      then rest + [Interval(events[n - 1].start, events[n - 1].End())]
      else rest
  }

  lemma HitsAppend(s: seq<Interval>, x: Interval, t: int)
    ensures Hits(s + [x], t) <==> Hits(s, t) || x.a <= t < x.b
  {
    var all := s + [x];
    assert all[|s|] == x;
    if Hits(s, t) {
      var k :| 0 <= k < |s| && s[k].a <= t < s[k].b;
      assert all[k] == s[k];
    }
  }

  lemma {:induction false} ChildrenHit(events: seq<Event>, i: nat, n: nat, t: int)
    requires i < |events| && n <= |events|
    ensures Hits(Children(events, i, n), t) <==>
      exists j | 0 <= j < n && j != i :: Inside(events[i], events[j]) && t in events[j].Ticks()
  {
    hide Hits, Inside;
    if n == 0 {
      NoHits(t);
    } else {
      ChildrenHit(events, i, n - 1, t);
      HitsAppend(Children(events, i, n - 1), Interval(events[n - 1].start, events[n - 1].End()), t);
    }
  }

  lemma NoHits(t: int)
    ensures !Hits([], t)
  {
  }

  /** The intervals the source sweeps for event `i`. */
  function Intervals(events: seq<Event>, i: nat): (r: seq<Interval>)
    requires i < |events|
    ensures InOrder(r, AtMost) && forall k | 0 <= k < |r| :: events[i].start <= r[k].a
  {
    var children := Children(events, i, |events|);
    SortedIsPermutation(children);
    var sorted := SortedIntervals(children);
    assert forall k | 0 <= k < |sorted| :: sorted[k] in multiset(children);
    sorted
  }

  lemma {:induction false} ChildrenHitExactly(events: seq<Event>, i: nat, t: int)
    requires i < |events|
    ensures Hits(Children(events, i, |events|), t) <==> t in events[i].Ticks() - Owned(events, i)
  {
    hide Hits, Children, Span;
    ChildrenHit(events, i, |events|, t);
    if ChildCovers(events, i, t) {
      var j :| 0 <= j < |events| && j != i && Inside(events[i], events[j]) && t in events[j].Ticks();
      assert t in events[i].Ticks();
    }
  }

  /** The swept intervals cover exactly the ticks of `i` that it does not own. */
  lemma IntervalsCoverChildren(events: seq<Event>, i: nat)
    requires i < |events|
    ensures Union(Intervals(events, i)) == events[i].Ticks() - Owned(events, i)
  {
    hide Hits, Children, SortedIntervals, Owned, Span, Union;
    var children := Children(events, i, |events|);
    SortedIsPermutation(children);
    UnionOfPermutation(SortedIntervals(children), children);
    forall t ensures t in Union(children) <==> t in events[i].Ticks() - Owned(events, i) {
      ChildrenHitExactly(events, i, t);
    }
  }

  /** What one event adds to the total of its stage. */
  ghost function Own(events: seq<Event>, i: nat): (n: nat)
    requires i < |events|
    ensures n <= Max(0, events[i].duration)
  {
    SubsetSize(Owned(events, i), events[i].Ticks());
    |Owned(events, i)|
  }

  lemma {:induction false} SubsetSize<T>(a: set<T>, b: set<T>)
    requires a <= b
    ensures |a| <= |b|
    ensures |a| == |b| <==> a == b
  {
    assert b == a + (b - a);
  }

  /** What the source computes from the swept measure is the number of owned ticks. */
  lemma OwnIsRemainder(events: seq<Event>, i: nat)
    requires i < |events|
    ensures Own(events, i) == Max(0, events[i].duration - |Union(Intervals(events, i))|)
  {
    hide Union, Span, Owned, Intervals;
    IntervalsCoverChildren(events, i);
    OwnedTicks(events, i);
    Remainder(Owned(events, i), events[i].Ticks());
  }

  lemma OwnedTicks(events: seq<Event>, i: nat)
    requires i < |events|
    ensures Owned(events, i) <= events[i].Ticks()
  {
  }

  lemma Remainder<T>(a: set<T>, b: set<T>)
    requires a <= b
    ensures |b - a| == |b| - |a|
  {
    assert b == a + (b - a);
  }

  lemma DisjointSize<T>(a: set<T>, b: set<T>)
    requires a !! b
    ensures |a + b| == |a| + |b|
  {
  }

  /** The total of `stage` over the first `n` events. */
  ghost function StageTotal(events: seq<Event>, stage: string, n: nat): nat
    requires n <= |events|
  {
    if n == 0 then 0
    else StageTotal(events, stage, n - 1) + if events[n - 1].stage == stage then Own(events, n - 1) else 0
  }

  ghost function TotalOwn(events: seq<Event>, n: nat): nat
    requires n <= |events|
  {
    if n == 0 then 0 else TotalOwn(events, n - 1) + Own(events, n - 1)
  }

  /** `totals` books the first `n` events. */
  ghost predicate IsTotals(events: seq<Event>, n: nat, totals: map<string, nat>)
    requires n <= |events|
  {
    && (forall i | 0 <= i < n :: events[i].stage in totals)
    && (forall stage | stage in totals :: exists i | 0 <= i < n :: events[i].stage == stage)
    && (forall stage | stage in totals :: totals[stage] == StageTotal(events, stage, n))
  }

  lemma {:induction false} NothingBooked(events: seq<Event>, stage: string, n: nat)
    requires n <= |events| && forall i | 0 <= i < n :: events[i].stage != stage
    ensures StageTotal(events, stage, n) == 0
  {
    if n > 0 {
      NothingBooked(events, stage, n - 1);
    }
  }

  lemma TotalsExtended(events: seq<Event>, n: nat, totals: map<string, nat>, own: nat)
    requires n < |events| && IsTotals(events, n, totals) && own == Own(events, n)
    ensures var stage := events[n].stage;
      IsTotals(events, n + 1, totals[stage := (if stage in totals then totals[stage] else 0) + own])
  {
    hide Own;
    var stage := events[n].stage;
    if stage !in totals {
      NothingBooked(events, stage, n);
    }
    var after := totals[stage := (if stage in totals then totals[stage] else 0) + own];
    forall x | x in after
      ensures (exists i | 0 <= i < n + 1 :: events[i].stage == x) && after[x] == StageTotal(events, x, n + 1)
    {
      if x == stage {
        assert events[n].stage == x;
      } else {
        var i :| 0 <= i < n && events[i].stage == x;
        assert i < n + 1;
      }
    }
  }

  /** What the loop of the source adds for event `n`. */
  method OwnTime(events: seq<Event>, n: nat) returns (own: nat)
    requires n < |events|
    ensures own == Own(events, n)
  {
    hide Own, Union, Children, SortedIntervals;
    var event := events[n];
    var covered := Sweep(Intervals(events, n), event.start);
    own := Max(0, event.End() - event.start - covered);
    OwnIsRemainder(events, n);
  }

  /** The totals by stage: each event adds the number of ticks it owns. */
  method Exclusive(events: seq<Event>) returns (totals: map<string, nat>)
    ensures IsTotals(events, |events|, totals)
  {
    totals := map[];
    for n := 0 to |events|
      invariant IsTotals(events, n, totals)
    {
      hide IsTotals, Own;
      var own := OwnTime(events, n);
      TotalsExtended(events, n, totals, own);
      var stage := events[n].stage;
      totals := totals[stage := (if stage in totals then totals[stage] else 0) + own];
    }
  }

  /** The sum of the totals of the listed stages. */
  ghost function ListedTotal(events: seq<Event>, stages: seq<string>, n: nat): nat
    requires n <= |events|
  {
    if stages == [] then 0 else StageTotal(events, stages[0], n) + ListedTotal(events, stages[1..], n)
  }

  lemma {:induction false} ListedTotalStep(events: seq<Event>, stages: seq<string>, n: nat)
    requires n < |events| && forall i, j | 0 <= i < j < |stages| :: stages[i] != stages[j]
    ensures ListedTotal(events, stages, n + 1) ==
      ListedTotal(events, stages, n) + if events[n].stage in stages then Own(events, n) else 0
  {
    if stages != [] {
      ListedTotalStep(events, stages[1..], n);
      assert stages == [stages[0]] + stages[1..];
    }
  }

  /** The entries of the totals add up to the exclusive times of all events: no event is
      lost and none is booked under two stages. */
  lemma {:induction false} StagesAddUp(events: seq<Event>, stages: seq<string>, n: nat)
    requires n <= |events| && forall i, j | 0 <= i < j < |stages| :: stages[i] != stages[j]
    requires forall i | 0 <= i < |events| :: events[i].stage in stages
    ensures ListedTotal(events, stages, n) == TotalOwn(events, n)
  {
    hide Own, StageTotal, ListedTotal;
    if n == 0 {
      NothingListed(events, stages);
    } else {
      StagesAddUp(events, stages, n - 1);
      assert events[n - 1].stage in stages;
      ListedTotalStep(events, stages, n - 1);
    }
  }

  lemma {:induction false} NothingListed(events: seq<Event>, stages: seq<string>)
    ensures ListedTotal(events, stages, 0) == 0
  {
    if stages != [] {
      NothingListed(events, stages[1..]);
    }
  }

  // ---- Conservation ----

  ghost predicate Covered(events: seq<Event>, t: int) {
    exists i | 0 <= i < |events| :: t in events[i].Ticks()
  }

  ghost function AllTicks(events: seq<Event>): set<int> {
    set i, t | 0 <= i < |events| && t in events[i].Ticks() :: t
  }

  ghost function AllOwned(events: seq<Event>, n: nat): set<int>
    requires n <= |events|
  {
    set i, t | 0 <= i < n && t in Owned(events, i) :: t
  }

  /** Any two events are nested or have no tick in common. */
  ghost predicate Laminar(events: seq<Event>) {
    forall i, j | 0 <= i < j < |events| ::
      Inside(events[i], events[j]) || Inside(events[j], events[i]) || events[i].Ticks() !! events[j].Ticks()
  }

  predicate SameSpan(x: Event, y: Event) { x.start == y.start && x.duration == y.duration }

  /** Events with one and the same span own nothing; their ticks count all the same when
      an event strictly inside owns them. */
  ghost predicate TwinsFilled(events: seq<Event>) {
    forall i, j, t | 0 <= i < j < |events| && SameSpan(events[i], events[j]) && t in events[i].Ticks() ::
      exists k | 0 <= k < |events| ::
        Inside(events[i], events[k]) && !SameSpan(events[i], events[k]) && t in events[k].Ticks()
  }

  /** A tick shared by two events of which neither contains the other is left to an event that one
      of them contains. */
  ghost predicate OverlapsFilled(events: seq<Event>) {
    forall i, j | 0 <= i < j < |events| && !Inside(events[i], events[j]) && !Inside(events[j], events[i]) ::
      forall t | t in events[i].Ticks() && t in events[j].Ticks() ::
        ChildCovers(events, i, t) || ChildCovers(events, j, t)
  }

  /** No tick is booked for two of the first `n` events. */
  ghost predicate BookedOnce(events: seq<Event>, n: nat)
    requires n <= |events|
  {
    forall i, j | 0 <= i < j < n :: Owned(events, i) !! Owned(events, j)
  }

  /** Over any trace, no tick is booked twice exactly when the overlaps are filled. */
  lemma {:induction false} BookedOnceExactly(events: seq<Event>)
    ensures BookedOnce(events, |events|) <==> OverlapsFilled(events)
  {
    hide Span, Inside;
    if OverlapsFilled(events) {
      forall i, j | 0 <= i < j < |events| ensures Owned(events, i) !! Owned(events, j) {
        OwnedDisjoint(events, i, j);
      }
    }
    if BookedOnce(events, |events|) {
      forall i, j, t |
        && 0 <= i < j < |events| && !Inside(events[i], events[j]) && !Inside(events[j], events[i])
        && t in events[i].Ticks() && t in events[j].Ticks()
        ensures ChildCovers(events, i, t) || ChildCovers(events, j, t)
      {
        assert Owned(events, i) !! Owned(events, j);
        assert !(t in Owned(events, i) && t in Owned(events, j));
      }
    }
  }

  lemma OwnedDisjoint(events: seq<Event>, i: nat, j: nat)
    requires OverlapsFilled(events) && i < j < |events|
    ensures Owned(events, i) !! Owned(events, j)
  {
    hide Span, Inside;
    forall t | t in Owned(events, i) ensures t !in Owned(events, j) {
    }
  }

  /** A nested trace has no overlaps to fill. */
  lemma LaminarIsFilled(events: seq<Event>)
    requires Laminar(events)
    ensures OverlapsFilled(events)
  {
    hide Span, Inside;
  }

  lemma AllOwnedNone(events: seq<Event>)
    ensures AllOwned(events, 0) == {} && BookedOnce(events, 0)
  {
  }

  lemma AllOwnedStep(events: seq<Event>, n: nat)
    requires n < |events|
    ensures AllOwned(events, n + 1) == AllOwned(events, n) + Owned(events, n)
  {
    hide Owned;
    forall t ensures t in AllOwned(events, n + 1) <==> t in AllOwned(events, n) || t in Owned(events, n) {
      if t in AllOwned(events, n + 1) {
        var i :| 0 <= i < n + 1 && t in Owned(events, i);
        assert i < n ==> t in AllOwned(events, n);
      }
    }
  }

  lemma {:induction false} OwnedBefore(events: seq<Event>, n: nat)
    requires n < |events|
    ensures BookedOnce(events, n + 1) <==> BookedOnce(events, n) && AllOwned(events, n) !! Owned(events, n)
  {
    hide Owned;
    if AllOwned(events, n) !! Owned(events, n) {
      forall i | 0 <= i < n ensures Owned(events, i) !! Owned(events, n) {
        forall t | t in Owned(events, i) ensures t in AllOwned(events, n) {
        }
      }
    }
    if BookedOnce(events, n + 1) {
      forall t | t in AllOwned(events, n) ensures t !in Owned(events, n) {
        var i :| 0 <= i < n && t in Owned(events, i);
        assert Owned(events, i) !! Owned(events, n);
      }
    }
  }

  lemma SumSize<T>(a: set<T>, b: set<T>)
    ensures |a + b| <= |a| + |b|
    ensures |a + b| == |a| + |b| <==> a !! b
  {
    DisjointSize(a, b - a);
    assert a + b == a + (b - a);
    SubsetSize(b - a, b);
    assert a !! b <==> b - a == b;
  }

  /** Over any trace the exclusive times add up to at least the ticks that are owned, and to just
      these exactly when none is booked twice. */
  lemma {:induction false} TotalIsOwned(events: seq<Event>, n: nat)
    requires n <= |events|
    ensures TotalOwn(events, n) >= |AllOwned(events, n)|
    ensures TotalOwn(events, n) == |AllOwned(events, n)| <==> BookedOnce(events, n)
  {
    hide Owned, AllOwned, BookedOnce, Span;
    if n == 0 {
      AllOwnedNone(events);
    } else {
      TotalIsOwned(events, n - 1);
      AllOwnedStep(events, n - 1);
      OwnedBefore(events, n - 1);
      SumSize(AllOwned(events, n - 1), Owned(events, n - 1));
    }
  }

  /** A tick of an event that another contained event covers lies in one strictly inside. */
  lemma StrictlyInside(events: seq<Event>, t: int, i: nat) returns (k: nat)
    requires TwinsFilled(events) && i < |events| && ChildCovers(events, i, t)
    ensures k < |events| && t in events[k].Ticks() && events[k].duration < events[i].duration
  {
    hide Span;
    var j :| 0 <= j < |events| && j != i && Inside(events[i], events[j]) && t in events[j].Ticks();
    k := j;
    if SameSpan(events[i], events[j]) {
      var x, y := if i < j then i else j, if i < j then j else i;
      assert SameSpan(events[x], events[y]) && t in events[x].Ticks();
      k :| 0 <= k < |events|
        && Inside(events[x], events[k]) && !SameSpan(events[x], events[k]) && t in events[k].Ticks();
    }
  }

  lemma {:induction false} TwinsFilledIsOwned(events: seq<Event>, t: int, i: nat)
    requires TwinsFilled(events) && i < |events| && t in events[i].Ticks()
    ensures exists k | 0 <= k < |events| :: t in Owned(events, k)
    decreases events[i].duration
  {
    hide TwinsFilled;
    if ChildCovers(events, i, t) {
      var k := StrictlyInside(events, t, i);
      TwinsFilledIsOwned(events, t, k);
    } else {
      assert t in Owned(events, i);
    }
  }

  lemma {:induction false} OwnedIsTwinsFilled(events: seq<Event>)
    requires Laminar(events)
    requires forall t | Covered(events, t) :: exists k | 0 <= k < |events| :: t in Owned(events, k)
    ensures TwinsFilled(events)
  {
    forall i, j, t | 0 <= i < j < |events| && SameSpan(events[i], events[j]) && t in events[i].Ticks()
      ensures exists k | 0 <= k < |events| ::
        Inside(events[i], events[k]) && !SameSpan(events[i], events[k]) && t in events[k].Ticks()
    {
      assert Covered(events, t);
      var m :| 0 <= m < |events| && t in Owned(events, m);
      // The owner contains neither twin, so it lies strictly inside both.
      assert m != i && m != j && !Inside(events[m], events[i]);
      assert t in events[m].Ticks();
    }
  }

  /** Over a nested trace the exclusive times never exceed the time covered, and they add
      up to it exactly when every tick of events with equal spans lies in an event
      strictly inside them. */
  lemma {:induction false} Conservation(events: seq<Event>)
    requires Laminar(events)
    ensures TotalOwn(events, |events|) <= |AllTicks(events)|
    ensures TotalOwn(events, |events|) == |AllTicks(events)| <==> TwinsFilled(events)
  {
    LaminarIsFilled(events);
    BookedOnceExactly(events);
    TotalIsOwned(events, |events|);
    hide Laminar;
    var owned, all := AllOwned(events, |events|), AllTicks(events);
    SubsetSize(owned, all);
    if TwinsFilled(events) {
      forall t | t in all ensures t in owned {
        var i :| 0 <= i < |events| && t in events[i].Ticks();
        TwinsFilledIsOwned(events, t, i);
      }
    }
    if owned == all {
      forall t | Covered(events, t) ensures exists k | 0 <= k < |events| :: t in Owned(events, k) {
        assert t in owned;
      }
      OwnedIsTwinsFilled(events);
    }
  }

  /** Exclusive times of a nested trace of pairwise distinct spans add up to the measure
      of the union of all its events. */
  lemma {:induction false} DistinctSpansConserve(events: seq<Event>)
    requires Laminar(events)
    requires forall i, j | 0 <= i < j < |events| :: !SameSpan(events[i], events[j])
    ensures TotalOwn(events, |events|) == |AllTicks(events)|
  {
    Conservation(events);
  }

  /** Without nesting a shared tick is booked twice: `[0, 2)` and `[1, 3)` cover three
      ticks but own four. */
  lemma OverlapCountsTwice()
    ensures var events := [Event("a", 0, 2), Event("b", 1, 2)];
      TotalOwn(events, 2) == 4 && |AllTicks(events)| == 3
  {
    var events := [Event("a", 0, 2), Event("b", 1, 2)];
    assert Owned(events, 0) == Span(0, 2);
    assert Owned(events, 1) == Span(1, 3);
    forall t ensures t in AllTicks(events) <==> t in Span(0, 3) {
      if t in Span(0, 3) {
        assert t in events[0].Ticks() || t in events[1].Ticks();
      }
    }
    assert AllTicks(events) == Span(0, 3);
    assert TotalOwn(events, 1) == Own(events, 0);
  }
}
