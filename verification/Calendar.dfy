/** Combining bounded reads of several calendars into one listing, and what a listing says
    about availability. */
module Calendar {
  import opened Text
  import opened Sorting
  import opened Selection
  import opened CalendarPages

  // ---- Who may read what ----

  datatype Binding = Binding(id: string, person: string, provider: string, readers: seq<string>)

  predicate ReadableBy(binding: Binding, caller: string) {
    caller == binding.person || caller in binding.readers
  }

  /** The calendar is the caller's own or names the caller as a reader, and it is the one asked for
      and that of the person asked for. */
  predicate Selects(binding: Binding, caller: string, calendar: Option<string>, person: Option<string>) {
    && (binding.person == caller || caller in binding.readers)
    && (calendar == None || calendar == Some(binding.id))
    && (person == None || person == Some(binding.person))
  }

  function Where(bindings: seq<Binding>, keep: Binding -> bool): (r: seq<Binding>)
    ensures forall b :: b in r <==> b in bindings && keep(b)
  {
    if bindings == [] then []
    else
      var last := bindings[|bindings| - 1];
      Where(bindings[..|bindings| - 1], keep) + (if keep(last) then [last] else [])
  }

  lemma {:induction false} WhereChooses(bindings: seq<Binding>, keep: Binding -> bool)
    ensures Chosen(Where(bindings, keep), bindings, keep, Same)
  {
    hide Chosen;
    if bindings == [] {
      ChosenFromNone(keep, Same<Binding>);
    } else {
      var most, last := bindings[..|bindings| - 1], bindings[|bindings| - 1];
      WhereChooses(most, keep);
      ChosenSnoc(Where(most, keep), most, last, keep, Same);
      assert bindings == most + [last];
      assert Where(bindings, keep) == if keep(last) then Where(most, keep) + [last] else Where(most, keep);
    }
  }

  lemma {:induction false} WhereTwice(bindings: seq<Binding>, keep: Binding -> bool, more: Binding -> bool,
      both: Binding -> bool)
    requires forall b :: both(b) <==> keep(b) && more(b)
    ensures Where(Where(bindings, keep), more) == Where(bindings, both)
  {
    if bindings != [] {
      var most, last := bindings[..|bindings| - 1], bindings[|bindings| - 1];
      WhereTwice(most, keep, more, both);
      var r := Where(most, keep);
      if keep(last) {
        assert Where(bindings, keep) == r + [last];
        assert (r + [last])[..|r|] == r;
      } else {
        assert Where(bindings, keep) == r;
      }
    }
  }

  lemma {:induction false} WhereSame(bindings: seq<Binding>, keep: Binding -> bool, same: Binding -> bool)
    requires forall b :: same(b) <==> keep(b)
    ensures Where(bindings, keep) == Where(bindings, same)
  {
    if bindings != [] {
      WhereSame(bindings[..|bindings| - 1], keep, same);
    }
  }

  datatype CalendarError = NotAuthorized | ServiceUnavailable | IncomparableRecords

  /** The selected calendars: three filters one after the other. */
  function Authorized(bindings: seq<Binding>, caller: Option<string>, calendar: Option<string>, person: Option<string>)
    : (r: Result<seq<Binding>, CalendarError>)
    ensures r.Ok? ==> r.value != [] && caller.Some?
    ensures r.Ok? ==> forall b :: b in r.value <==> b in bindings && Selects(b, caller.value, calendar, person)
    ensures r.Err? ==> r.error == NotAuthorized
    ensures r.Err? ==> caller.None? || forall b | b in bindings :: !Selects(b, caller.value, calendar, person)
  {
    if caller.None? then Err(NotAuthorized)
    else
      var readable := Where(bindings, (b: Binding) => ReadableBy(b, caller.value));
      var named := if calendar.Some? then Where(readable, (b: Binding) => b.id == calendar.value) else readable;
      var owned := if person.Some? then Where(named, (b: Binding) => b.person == person.value) else named;
      if owned == [] then Err(NotAuthorized) else Ok(owned)
  }

  function Selecting(caller: string, calendar: Option<string>, person: Option<string>): Binding -> bool {
    (b: Binding) => Selects(b, caller, calendar, person)
  }

  /** Every calendar to select is selected once, in the order of the configuration. */
  lemma {:induction false} AuthorizedChooses(
    bindings: seq<Binding>, caller: Option<string>, calendar: Option<string>, person: Option<string>)
    ensures var a := Authorized(bindings, caller, calendar, person);
      a.Ok? ==> Chosen(a.value, bindings, Selecting(caller.value, calendar, person), Same)
  {
    if caller.Some? {
      hide Where, Chosen;
      var readable := (b: Binding) => ReadableBy(b, caller.value);
      var some := Selecting(caller.value, calendar, None);
      var all := Selecting(caller.value, calendar, person);
      if calendar.Some? {
        WhereTwice(bindings, readable, (b: Binding) => b.id == calendar.value, some);
      } else {
        WhereSame(bindings, readable, some);
      }
      if person.Some? {
        WhereTwice(bindings, some, (b: Binding) => b.person == person.value, all);
      } else {
        WhereSame(bindings, some, all);
      }
      WhereChooses(bindings, all);
    }
  }

  // ---- Events and their order ----

  /** An event of a provider: instants are integers, `rest` is everything else that is shown. */
  datatype Event = Event(key: string, start: int, cancelled: bool, busy: bool, rest: string)

  datatype Record = Record(id: string, calendar: string, person: string, event: Event)

  function RecordOf(binding: Binding, event: Event): Record {
    Record(binding.id + ":" + event.key, binding.id, binding.person, event)
  }

  function Records(binding: Binding, events: seq<Event>): (r: seq<Record>)
    ensures |r| == |events|
    ensures forall i | 0 <= i < |r| ::
      r[i] == Record(binding.id + ":" + events[i].key, binding.id, binding.person, events[i])
  {
    if events == [] then [] else [RecordOf(binding, events[0])] + Records(binding, events[1..])
  }

  /** The order of the sort keys: start, then id. */
  predicate Before(a: Record, b: Record) {
    a.event.start < b.event.start || (a.event.start == b.event.start && Below(a.id, b.id))
  }

  /** Equal start and id with different contents: the sort would compare two dictionaries. */
  predicate Clash(a: Record, b: Record) {
    a.event.start == b.event.start && a.id == b.id && a != b
  }

  predicate Clashing(records: seq<Record>) {
    exists i, j | 0 <= i < j < |records| :: Clash(records[i], records[j])
  }

  function Arranged(records: seq<Record>): (r: seq<Record>)
    ensures |r| == |records|
  {
    Sort(records, Before)
  }

  lemma BeforeTransitive(a: Record, b: Record, c: Record)
    requires Before(a, b) && Before(b, c)
    ensures Before(a, c)
  {
    if a.event.start == b.event.start == c.event.start {
      BelowTransitive(a.id, b.id, c.id);
    }
  }

  lemma BeforeIsOrder()
    ensures IsTotal(Before) && IsTransitive(Before)
  {
    forall a, b ensures Before(a, b) || Before(b, a) {
      BelowTotal(a.id, b.id);
    }
    forall a, b, c | Before(a, b) && Before(b, c) ensures Before(a, c) {
      BeforeTransitive(a, b, c);
    }
  }

  lemma ArrangedIsSorted(records: seq<Record>)
    ensures multiset(Arranged(records)) == multiset(records)
    ensures InOrder(Arranged(records), Before)
  {
    BeforeIsOrder();
    SortContents(records, Before);
    SortInOrder(records, Before);
  }

  /** Without a clash the order determines the result, so any correct sort gives `Arranged`. */
  lemma ArrangedUnique(records: seq<Record>, sorted: seq<Record>)
    requires InOrder(sorted, Before) && multiset(sorted) == multiset(records) && !Clashing(sorted)
    ensures sorted == Arranged(records)
  {
    forall i, j | 0 <= i < |sorted| && 0 <= j < |sorted| && Before(sorted[i], sorted[j]) && Before(sorted[j], sorted[i])
      ensures sorted[i] == sorted[j]
    {
      BelowAntisymmetric(sorted[i].id, sorted[j].id);
      assert i != j ==> !Clash(sorted[if i < j then i else j], sorted[if i < j then j else i]);
    }
    ArrangedIsSorted(records);
    SortUnique(sorted, Arranged(records), Before);
  }

  // ---- How many records start no later than an instant ----

  function StartedBy(records: seq<Record>, t: int): (n: nat)
    ensures n <= |records|
  {
    if records == [] then 0
    else (if records[0].event.start <= t then 1 else 0) + StartedBy(records[1..], t)
  }

  lemma {:induction false} StartedByAppend(a: seq<Record>, b: seq<Record>, t: int)
    ensures StartedBy(a + b, t) == StartedBy(a, t) + StartedBy(b, t)
  {
    if a == [] {
      assert a + b == b;
    } else {
      assert (a + b)[1..] == a[1..] + b;
      StartedByAppend(a[1..], b, t);
    }
  }

  lemma {:induction false} StartedByInsert(x: Record, records: seq<Record>, t: int)
    ensures StartedBy(Insert(x, records, Before), t) == StartedBy([x] + records, t)
  {
    assert ([x] + records)[1..] == records;
    if !(records == [] || Before(x, records[0])) {
      StartedByInsert(x, records[1..], t);
      assert ([x] + records[1..])[1..] == records[1..];
      assert ([records[0]] + Insert(x, records[1..], Before))[1..] == Insert(x, records[1..], Before);
    }
  }

  lemma {:induction false} StartedByArranged(records: seq<Record>, t: int)
    ensures StartedBy(Arranged(records), t) == StartedBy(records, t)
  {
    if records != [] {
      StartedByArranged(records[1..], t);
      StartedByInsert(records[0], Arranged(records[1..]), t);
      assert ([records[0]] + Arranged(records[1..]))[1..] == Arranged(records[1..]);
    }
  }

  lemma {:induction false} AllStarted(records: seq<Record>, t: int)
    requires forall i | 0 <= i < |records| :: records[i].event.start <= t
    ensures StartedBy(records, t) == |records|
  {
    if records != [] {
      AllStarted(records[1..], t);
    }
  }

  /** In a sorted list the records that start by `t` come first. */
  lemma {:induction false} StartedComeFirst(records: seq<Record>, t: int, j: nat)
    requires InOrder(records, Before) && j < StartedBy(records, t)
    ensures records[j].event.start <= t
  {
    if records[0].event.start <= t {
      if j > 0 {
        StartedComeFirst(records[1..], t, j - 1);
      }
    } else {
      StartedComeFirst(records[1..], t, 0);
    }
  }

  // ---- The merge ----

  datatype Loaded = Failed | Fetched(batch: Batch<Event>)

  datatype Load = Load(binding: Binding, result: Loaded)

  datatype Listing = Listing(
    calendars: seq<string>, events: seq<Record>, complete: bool, unavailable: seq<string>, truncated: seq<string>)

  function IdOf(l: Load): string {
    l.binding.id
  }

  /** The ids of the calendars that satisfy a condition, in order. */
  function Ids(loaded: seq<Load>, keep: Load -> bool): seq<string> {
    if loaded == [] then []
    else
      var last := loaded[|loaded| - 1];
      Ids(loaded[..|loaded| - 1], keep) + (if keep(last) then [IdOf(last)] else [])
  }

  lemma {:induction false} IdsChosen(loaded: seq<Load>, keep: Load -> bool)
    ensures Chosen(Ids(loaded, keep), loaded, keep, IdOf)
  {
    hide Chosen;
    if loaded == [] {
      ChosenFromNone(keep, IdOf);
    } else {
      var most, last := loaded[..|loaded| - 1], loaded[|loaded| - 1];
      IdsChosen(most, keep);
      ChosenSnoc(Ids(most, keep), most, last, keep, IdOf);
      assert loaded == most + [last];
      assert Ids(loaded, keep) == if keep(last) then Ids(most, keep) + [IdOf(last)] else Ids(most, keep);
    }
  }

  predicate IsFailed(l: Load) {
    l.result.Failed?
  }

  predicate IsFetched(l: Load) {
    l.result.Fetched?
  }

  predicate IsTruncated(l: Load) {
    l.result.Fetched? && !l.result.batch.complete
  }

  /** Every record of every calendar that was fetched. */
  function Keyed(loaded: seq<Load>): seq<Record> {
    if loaded == [] then []
    else
      var last := loaded[|loaded| - 1];
      Keyed(loaded[..|loaded| - 1])
        + (if last.result.Fetched? then Records(last.binding, last.result.batch.events) else [])
  }

  /** `s[:n]` in Python. */
  function Slice<T>(s: seq<T>, n: int): seq<T> {
    if n >= 0 then Take(s, n) else if |s| + n >= 0 then s[..|s| + n] else []
  }

  /** The first records of all calendars that were fetched, and what became of the others. */
  function Merged(loaded: seq<Load>, limit: int): Listing {
    Listing(
      Ids(loaded, IsFetched), Slice(Arranged(Keyed(loaded)), limit),
      Ids(loaded, IsFailed) == [] && Ids(loaded, IsTruncated) == [] && |Keyed(loaded)| <= limit,
      Ids(loaded, IsFailed), Ids(loaded, IsTruncated))
  }

  /** The loop over what was loaded, the sort and the cut at the limit. */
  method Merge(loaded: seq<Load>, limit: int) returns (r: Result<Listing, CalendarError>)
    ensures r == Err(ServiceUnavailable) <==> Ids(loaded, IsFetched) == [] && Ids(loaded, IsFailed) != []
    ensures r == Err(IncomparableRecords) <==> r != Err(ServiceUnavailable) && Clashing(Keyed(loaded))
    ensures r != Err(NotAuthorized)
    ensures r.Ok? ==> r.value == Merged(loaded, limit)
  {
    var unavailable: seq<string>, truncated: seq<string>, fetched: seq<string> := [], [], [];
    var keyed: seq<Record> := [];
    for i := 0 to |loaded|
      invariant unavailable == Ids(loaded[..i], IsFailed)
      invariant truncated == Ids(loaded[..i], IsTruncated)
      invariant fetched == Ids(loaded[..i], IsFetched)
      invariant keyed == Keyed(loaded[..i])
    {
      assert loaded[..i + 1][..i] == loaded[..i];
      var l := loaded[i];
      if l.result.Failed? {
        unavailable := unavailable + [l.binding.id];
      } else {
        fetched := fetched + [l.binding.id];
        if !l.result.batch.complete {
          truncated := truncated + [l.binding.id];
        }
        keyed := keyed + Records(l.binding, l.result.batch.events);
      }
    }
    assert loaded[..|loaded|] == loaded;
    if fetched == [] && unavailable != [] {
      return Err(ServiceUnavailable);
    }
    if Clashing(keyed) {
      return Err(IncomparableRecords);
    }
    var sorted := Arranged(keyed);
    var complete := unavailable == [] && truncated == [] && |keyed| <= limit;
    return Ok(Listing(fetched, Slice(sorted, limit), complete, unavailable, truncated));
  }

  // ---- The earliest events of all calendars ----

  /** The records of the windows of all fetched calendars; `window` tells what a calendar holds. */
  ghost function Whole(loaded: seq<Load>, window: Binding -> seq<Event>): seq<Record> {
    if loaded == [] then []
    else
      var last := loaded[|loaded| - 1];
      Whole(loaded[..|loaded| - 1], window)
        + (if last.result.Fetched? then Records(last.binding, window(last.binding)) else [])
  }

  /** A read gave the whole window or exactly `limit` events from its start. */
  ghost predicate Bounded(l: Load, window: Binding -> seq<Event>, limit: nat) {
    l.result.Fetched? ==>
      && l.result.batch.events <= window(l.binding)
      && (l.result.batch.events == window(l.binding) || |l.result.batch.events| == limit)
  }

  ghost predicate AllBounded(loaded: seq<Load>, window: Binding -> seq<Event>, limit: nat) {
    forall i | 0 <= i < |loaded| :: Bounded(loaded[i], window, limit) && StartsAscend(window(loaded[i].binding))
  }

  predicate StartsAscend(events: seq<Event>) {
    forall i, j | 0 <= i < j < |events| :: events[i].start <= events[j].start
  }

  /** What the reads left behind. */
  ghost function Tails(loaded: seq<Load>, window: Binding -> seq<Event>, limit: nat): seq<Record>
    requires AllBounded(loaded, window, limit)
  {
    if loaded == [] then []
    else
      var last := loaded[|loaded| - 1];
      assert Bounded(last, window, limit);
      Tails(loaded[..|loaded| - 1], window, limit)
        + (if last.result.Fetched?
           then Records(last.binding, window(last.binding)[|last.result.batch.events|..]) else [])
  }

  lemma {:induction false} RecordsAppend(binding: Binding, a: seq<Event>, b: seq<Event>)
    ensures Records(binding, a + b) == Records(binding, a) + Records(binding, b)
  {
  }

  lemma {:induction false} RecordsSplit(binding: Binding, window: seq<Event>, n: nat)
    requires n <= |window|
    ensures multiset(Records(binding, window))
      == multiset(Records(binding, window[..n])) + multiset(Records(binding, window[n..]))
  {
    assert window == window[..n] + window[n..];
    RecordsAppend(binding, window[..n], window[n..]);
  }

  lemma {:induction false} WholeIsKeyedAndTails(loaded: seq<Load>, window: Binding -> seq<Event>, limit: nat)
    requires AllBounded(loaded, window, limit)
    ensures multiset(Whole(loaded, window)) == multiset(Keyed(loaded)) + multiset(Tails(loaded, window, limit))
  {
    hide Records, StartsAscend;
    if loaded != [] {
      var last := loaded[|loaded| - 1];
      WholeIsKeyedAndTails(loaded[..|loaded| - 1], window, limit);
      assert Bounded(last, window, limit);
      if last.result.Fetched? {
        var events := last.result.batch.events;
        assert window(last.binding)[..|events|] == events;
        RecordsSplit(last.binding, window(last.binding), |events|);
      }
    }
  }

  /** A record left behind starts no earlier than those that were read before it. */
  lemma {:induction false} TailIsLate(binding: Binding, events: seq<Event>, window: seq<Event>, x: Record)
    requires events <= window && StartsAscend(window) && x in Records(binding, window[|events|..])
    ensures StartedBy(Records(binding, events), x.event.start) == |events|
  {
    var read, tail := Records(binding, events), Records(binding, window[|events|..]);
    var j :| 0 <= j < |tail| && tail[j] == x;
    assert x.event == window[|events| + j];
    forall i | 0 <= i < |read| ensures read[i].event.start <= x.event.start {
      assert read[i].event == window[i];
    }
    AllStarted(read, x.event.start);
  }

  /** A record left behind starts no earlier than `limit` records that were read. */
  lemma {:induction false} TailsAreLate(loaded: seq<Load>, window: Binding -> seq<Event>, limit: nat, x: Record)
    requires AllBounded(loaded, window, limit) && x in Tails(loaded, window, limit)
    ensures StartedBy(Keyed(loaded), x.event.start) >= limit
  {
    hide StartedBy, Records, StartsAscend;
    var last := loaded[|loaded| - 1];
    var most := loaded[..|loaded| - 1];
    assert Bounded(last, window, limit) && StartsAscend(window(last.binding));
    var read := if last.result.Fetched? then Records(last.binding, last.result.batch.events) else [];
    StartedByAppend(Keyed(most), read, x.event.start);
    if x in Tails(most, window, limit) {
      TailsAreLate(most, window, limit, x);
    } else {
      NotEmptied(last.binding, window(last.binding), |last.result.batch.events|, x);
      TailIsLate(last.binding, last.result.batch.events, window(last.binding), x);
    }
  }

  lemma {:induction false} NotEmptied(binding: Binding, window: seq<Event>, n: nat, x: Record)
    requires n <= |window| && x in Records(binding, window[n..])
    ensures n < |window|
  {
  }

  /** `r` is a selection of `limit` records of `all` (or all of them) that start no later than
      any of the others. */
  ghost predicate IsEarliest(r: seq<Record>, all: seq<Record>, limit: nat) {
    && |r| == (if |all| <= limit then |all| else limit)
    && exists rest: seq<Record> ::
         && multiset(r) + multiset(rest) == multiset(all)
         && forall x, y | x in rest && y in r :: y.event.start <= x.event.start
  }

  /** The first `limit` records of the sorted reads start no later than a record left behind. */
  lemma {:induction false} TailsFollow(loaded: seq<Load>, window: Binding -> seq<Event>, limit: nat, x: Record, j: nat)
    requires AllBounded(loaded, window, limit) && x in Tails(loaded, window, limit)
    ensures limit <= |Keyed(loaded)|
    ensures |Arranged(Keyed(loaded))| == |Keyed(loaded)|
    ensures j < limit ==> Arranged(Keyed(loaded))[j].event.start <= x.event.start
  {
    hide Tails, AllBounded, Keyed, Arranged, InOrder;
    TailsAreLate(loaded, window, limit, x);
    ArrangedIsSorted(Keyed(loaded));
    StartedByArranged(Keyed(loaded), x.event.start);
    if j < limit {
      StartedComeFirst(Arranged(Keyed(loaded)), x.event.start, j);
    }
  }

  lemma Split<T>(s: seq<T>, n: nat)
    requires n <= |s|
    ensures multiset(s) == multiset(s[..n]) + multiset(s[n..])
  {
    assert s == s[..n] + s[n..];
  }

  /** The records that were read but cut off, and those left behind. */
  ghost function Rest(loaded: seq<Load>, window: Binding -> seq<Event>, limit: nat): seq<Record>
    requires AllBounded(loaded, window, limit)
  {
    var sorted := Arranged(Keyed(loaded));
    sorted[|Take(sorted, limit)|..] + Tails(loaded, window, limit)
  }

  lemma {:induction false} SelectionAndRest(loaded: seq<Load>, window: Binding -> seq<Event>, limit: nat)
    requires AllBounded(loaded, window, limit)
    ensures multiset(Take(Arranged(Keyed(loaded)), limit)) + multiset(Rest(loaded, window, limit))
      == multiset(Whole(loaded, window))
  {
    hide Keyed, Tails, Whole, Arranged, AllBounded;
    var sorted := Arranged(Keyed(loaded));
    ArrangedIsSorted(Keyed(loaded));
    WholeIsKeyedAndTails(loaded, window, limit);
    Split(sorted, |Take(sorted, limit)|);
  }

  lemma {:induction false} RestIsLate(loaded: seq<Load>, window: Binding -> seq<Event>, limit: nat, x: Record,
      y: Record)
    requires AllBounded(loaded, window, limit)
    requires x in Rest(loaded, window, limit) && y in Take(Arranged(Keyed(loaded)), limit)
    ensures y.event.start <= x.event.start
  {
    hide Keyed, Tails, Whole, Arranged, AllBounded;
    var sorted := Arranged(Keyed(loaded));
    var r := Take(sorted, limit);
    var j :| 0 <= j < |r| && r[j] == y;
    if x in Tails(loaded, window, limit) {
      TailsFollow(loaded, window, limit, x, j);
    } else {
      assert x in sorted[|r|..];
      ArrangedIsSorted(Keyed(loaded));
      var i :| |r| <= i < |sorted| && sorted[i] == x;
      assert Before(sorted[j], sorted[i]);
    }
  }

  lemma {:induction false} SelectionSize(loaded: seq<Load>, window: Binding -> seq<Event>, limit: nat)
    requires AllBounded(loaded, window, limit)
    ensures |Take(Arranged(Keyed(loaded)), limit)|
      == if |Whole(loaded, window)| <= limit then |Whole(loaded, window)| else limit
  {
    hide Keyed, Tails, Whole, Arranged, AllBounded;
    var tails := Tails(loaded, window, limit);
    ArrangedIsSorted(Keyed(loaded));
    WholeIsKeyedAndTails(loaded, window, limit);
    assert |multiset(Whole(loaded, window))| == |Keyed(loaded)| + |tails|;
    if tails != [] {
      assert tails[0] in tails;
      TailsFollow(loaded, window, limit, tails[0], 0);
    }
  }

  /** If every calendar was read whole or up to the limit, the merged events are sorted and are
      the earliest of all windows. */
  lemma {:induction false} EarliestEvents(loaded: seq<Load>, window: Binding -> seq<Event>, limit: nat)
    requires AllBounded(loaded, window, limit)
    ensures var r := Slice(Arranged(Keyed(loaded)), limit);
      InOrder(r, Before) && IsEarliest(r, Whole(loaded, window), limit)
  {
    hide Keyed, Tails, Whole, Arranged, AllBounded, Rest, Before;
    var r := Take(Arranged(Keyed(loaded)), limit);
    ArrangedIsSorted(Keyed(loaded));
    SelectionAndRest(loaded, window, limit);
    SelectionSize(loaded, window, limit);
    forall x, y | x in Rest(loaded, window, limit) && y in r ensures y.event.start <= x.event.start {
      RestIsLate(loaded, window, limit, x, y);
    }
  }

  // ---- Availability ----

  datatype Availability = Availability(
    calendars: seq<string>, checked: bool, available: bool, conflicts: seq<Record>,
    unavailable: seq<string>, truncated: seq<string>)

  predicate Occupies(r: Record) {
    r.event.busy && !r.event.cancelled
  }

  function Conflicts(events: seq<Record>): (r: seq<Record>)
    ensures forall x :: x in r <==> x in events && Occupies(x)
  {
    if events == [] then []
    else
      var last := events[|events| - 1];
      Conflicts(events[..|events| - 1]) + (if Occupies(last) then [last] else [])
  }

  lemma {:induction false} ConflictsChosen(events: seq<Record>)
    ensures Chosen(Conflicts(events), events, Occupies, Same)
  {
    hide Chosen;
    if events == [] {
      ChosenFromNone(Occupies, Same<Record>);
    } else {
      var most, last := events[..|events| - 1], events[|events| - 1];
      ConflictsChosen(most);
      ChosenSnoc(Conflicts(most), most, last, Occupies, Same);
      assert events == most + [last];
      assert Conflicts(events) == if Occupies(last) then Conflicts(most) + [last] else Conflicts(most);
    }
  }

  function AvailabilityOf(listing: Listing): Availability {
    var conflicts := Conflicts(listing.events);
    Availability(
      listing.calendars, listing.complete, listing.complete && conflicts == [], conflicts,
      listing.unavailable, listing.truncated)
  }

  /** A read that claims to be complete gave the whole window; any read gave a part of it. */
  ghost predicate Honest(l: Load, window: Binding -> seq<Event>) {
    l.result.Fetched? ==>
      && l.result.batch.events <= window(l.binding)
      && (l.result.batch.complete ==> l.result.batch.events == window(l.binding))
  }

  lemma {:induction false} NoIds(loaded: seq<Load>, keep: Load -> bool, i: nat)
    requires Ids(loaded, keep) == [] && i < |loaded|
    ensures !keep(loaded[i])
  {
    if i < |loaded| - 1 {
      NoIds(loaded[..|loaded| - 1], keep, i);
    }
  }

  lemma {:induction false} KeyedHas(loaded: seq<Load>, i: nat, r: Record)
    requires i < |loaded| && loaded[i].result.Fetched?
    requires r in Records(loaded[i].binding, loaded[i].result.batch.events)
    ensures r in Keyed(loaded)
  {
    if i < |loaded| - 1 {
      KeyedHas(loaded[..|loaded| - 1], i, r);
    }
  }

  lemma {:induction false} KeyedFrom(loaded: seq<Load>, r: Record) returns (i: nat)
    requires r in Keyed(loaded)
    ensures i < |loaded| && loaded[i].result.Fetched?
    ensures r in Records(loaded[i].binding, loaded[i].result.batch.events)
  {
    var most := loaded[..|loaded| - 1];
    if r in Keyed(most) {
      i := KeyedFrom(most, r);
    } else {
      i := |loaded| - 1;
    }
  }

  /** Some selected calendar holds `r` in its window. */
  ghost predicate Holds(loaded: seq<Load>, window: Binding -> seq<Event>, r: Record) {
    exists i :: 0 <= i < |loaded| && r in Records(loaded[i].binding, window(loaded[i].binding))
  }

  lemma {:induction false} ReadIsHeld(loaded: seq<Load>, window: Binding -> seq<Event>, r: Record)
    requires forall i | 0 <= i < |loaded| :: Honest(loaded[i], window)
    requires r in Keyed(loaded)
    ensures Holds(loaded, window, r)
  {
    var i := KeyedFrom(loaded, r);
    assert Honest(loaded[i], window);
    var events := loaded[i].result.batch.events;
    var j :| 0 <= j < |events| && Records(loaded[i].binding, events)[j] == r;
    assert Records(loaded[i].binding, window(loaded[i].binding))[j] == r;
  }

  lemma {:induction false} HeldIsRead(loaded: seq<Load>, window: Binding -> seq<Event>, r: Record)
    requires forall i | 0 <= i < |loaded| :: Honest(loaded[i], window)
    requires Ids(loaded, IsFailed) == [] && Ids(loaded, IsTruncated) == []
    requires Holds(loaded, window, r)
    ensures r in Keyed(loaded)
  {
    var i :| 0 <= i < |loaded| && r in Records(loaded[i].binding, window(loaded[i].binding));
    NoIds(loaded, IsFailed, i);
    NoIds(loaded, IsTruncated, i);
    assert Honest(loaded[i], window);
    KeyedHas(loaded, i, r);
  }

  lemma {:induction false} SelectedIsRead(records: seq<Record>, limit: int, r: Record)
    ensures r in Slice(Arranged(records), limit) ==> r in records
    ensures |records| <= limit && r in records ==> r in Slice(Arranged(records), limit)
  {
    ArrangedIsSorted(records);
    assert r in multiset(Arranged(records)) <==> r in multiset(records);
  }

  /** A complete listing shows exactly what the selected calendars hold; a listing that is not
      complete shows nothing else. */
  lemma {:induction false} ListingIsExact(loaded: seq<Load>, window: Binding -> seq<Event>, limit: int, r: Record)
    requires forall i | 0 <= i < |loaded| :: Honest(loaded[i], window)
    ensures var listing := Merged(loaded, limit);
      && (r in listing.events ==> Holds(loaded, window, r))
      && (listing.complete ==> (r in listing.events <==> Holds(loaded, window, r)))
  {
    hide Keyed, Arranged, Slice, Honest, Holds;
    SelectedIsRead(Keyed(loaded), limit, r);
    if r in Keyed(loaded) {
      ReadIsHeld(loaded, window, r);
    }
    if Ids(loaded, IsFailed) == [] && Ids(loaded, IsTruncated) == [] && Holds(loaded, window, r) {
      HeldIsRead(loaded, window, r);
    }
  }

  // ---- From the servers to the answer ----

  /** The calendars of a household behind their servers, by calendar id. */
  datatype Backend<!Item> = Backend(servers: map<string, Server<Item>>, timedOut: string -> bool)

  /** Every selected calendar has a server with finitely many page tokens. */
  ghost predicate Served<Item(!new)>(bindings: seq<Binding>, backend: Backend<Item>, tokens: map<string, set<string>>) {
    forall b | b in bindings :: HasServer(b, backend, tokens)
  }

  ghost predicate HasServer<Item(!new)>(b: Binding, backend: Backend<Item>, tokens: map<string, set<string>>) {
    b.id in backend.servers && b.id in tokens && FiniteTokens(backend.servers[b.id], tokens[b.id])
  }

  /** No page of a selected calendar is longer than was asked for. */
  ghost predicate Sized<Item(!new)>(bindings: seq<Binding>, backend: Backend<Item>, tokens: map<string, set<string>>) {
    forall b | b in bindings ::
      b.id in backend.servers && b.id in tokens && RespectsSize(backend.servers[b.id], tokens[b.id])
  }

  /** What is read of a calendar. */
  ghost function ReadOf<Item(!new)>(b: Binding, backend: Backend<Item>, normalise: Item -> Option<Event>, limit: int,
      tokens: map<string, set<string>>): Reading<Item>
    requires HasServer(b, backend, tokens)
  {
    Read(backend.servers[b.id], normalise, limit, tokens[b.id])
  }

  /** The events on all pages received of each calendar. */
  ghost function Pages<Item(!new)>(backend: Backend<Item>, normalise: Item -> Option<Event>, limit: int,
      tokens: map<string, set<string>>): Binding -> seq<Event>
  {
    (b: Binding) =>
      if HasServer(b, backend, tokens) then Kept(ReadOf(b, backend, normalise, limit, tokens).items, normalise) else []
  }

  /** What becomes of the read of one calendar; one that takes too long counts as failed. */
  ghost function LoadOf<Item(!new)>(b: Binding, backend: Backend<Item>, normalise: Item -> Option<Event>, limit: int,
      tokens: map<string, set<string>>): Load
    requires HasServer(b, backend, tokens)
  {
    var r := Answer(ReadOf(b, backend, normalise, limit, tokens), normalise, limit);
    Load(b, if r.Err? || backend.timedOut(b.id) then Failed else Fetched(r.value))
  }

  ghost function LoadsOf<Item(!new)>(selected: seq<Binding>, backend: Backend<Item>, normalise: Item -> Option<Event>,
      limit: int, tokens: map<string, set<string>>): (loaded: seq<Load>)
    requires Served(selected, backend, tokens)
    ensures |loaded| == |selected|
    ensures forall i | 0 <= i < |selected| :: loaded[i].binding == selected[i]
    ensures forall i | 0 <= i < |selected| :: loaded[i] == LoadOf(selected[i], backend, normalise, limit, tokens)
  {
    seq(|selected|, i requires 0 <= i < |selected| && HasServer(selected[i], backend, tokens) =>
      LoadOf(selected[i], backend, normalise, limit, tokens))
  }

  /** Load one calendar. */
  method LoadBinding<Item(!new)>(binding: Binding, backend: Backend<Item>, normalise: Item -> Option<Event>, limit: int,
                                 ghost tokens: map<string, set<string>>)
    returns (l: Load)
    requires HasServer(binding, backend, tokens)
    ensures l == LoadOf(binding, backend, normalise, limit, tokens)
  {
    hide Read, Answer;
    var r := CalendarPages.ListEvents(backend.servers[binding.id], normalise, limit, tokens[binding.id]);
    l := Load(binding, if r.Err? || backend.timedOut(binding.id) then Failed else Fetched(r.value));
  }

  /** Load every selected calendar. */
  method LoadAll<Item(!new)>(selected: seq<Binding>, backend: Backend<Item>, normalise: Item -> Option<Event>,
                             limit: int, ghost tokens: map<string, set<string>>)
    returns (loaded: seq<Load>)
    requires Served(selected, backend, tokens)
    ensures loaded == LoadsOf(selected, backend, normalise, limit, tokens)
  {
    hide LoadOf, HasServer;
    loaded := [];
    for n := 0 to |selected|
      invariant |loaded| == n
      invariant forall i | 0 <= i < n ::
        HasServer(selected[i], backend, tokens) && loaded[i] == LoadOf(selected[i], backend, normalise, limit, tokens)
    {
      assert selected[n] in selected;
      var l := LoadBinding(selected[n], backend, normalise, limit, tokens);
      loaded := loaded + [l];
    }
  }

  ghost predicate HeldBy(selected: seq<Binding>, window: Binding -> seq<Event>, x: Record) {
    exists b :: b in selected && x in Records(b, window(b))
  }

  /** Every event shown is held by a selected calendar, and a complete listing shows every event
      that is. */
  ghost predicate ShowsExactly(listing: Listing, selected: seq<Binding>, window: Binding -> seq<Event>) {
    forall x: Record ::
      && (x in listing.events ==> HeldBy(selected, window, x))
      && (listing.complete && HeldBy(selected, window, x) ==> x in listing.events)
  }

  /** The records of the windows of some calendars, one calendar after the other. */
  ghost function Held(selected: seq<Binding>, window: Binding -> seq<Event>): seq<Record> {
    if selected == [] then []
    else
      Held(selected[..|selected| - 1], window)
        + Records(selected[|selected| - 1], window(selected[|selected| - 1]))
  }

  lemma {:induction false} WholeIsHeld(selected: seq<Binding>, loaded: seq<Load>, window: Binding -> seq<Event>)
    requires |loaded| == |selected|
    requires forall i | 0 <= i < |loaded| :: loaded[i].binding == selected[i] && loaded[i].result.Fetched?
    ensures Whole(loaded, window) == Held(selected, window)
  {
    if loaded != [] {
      var n := |loaded| - 1;
      WholeIsHeld(selected[..n], loaded[..n], window);
      assert loaded[n].binding == selected[n];
    }
  }

  lemma {:induction false} HoldsIsHeldBy(selected: seq<Binding>, loaded: seq<Load>,
      window: Binding -> seq<Event>, x: Record)
    requires |loaded| == |selected| && forall i | 0 <= i < |loaded| :: loaded[i].binding == selected[i]
    ensures Holds(loaded, window, x) <==> HeldBy(selected, window, x)
  {
    if Holds(loaded, window, x) {
      var i :| 0 <= i < |loaded| && x in Records(loaded[i].binding, window(loaded[i].binding));
      assert selected[i] in selected;
    }
    if HeldBy(selected, window, x) {
      var b :| b in selected && x in Records(b, window(b));
      var i :| 0 <= i < |selected| && selected[i] == b;
      assert loaded[i].binding == b;
    }
  }

  lemma {:induction false} HeldMembers(selected: seq<Binding>, window: Binding -> seq<Event>, x: Record)
    ensures x in Held(selected, window) <==> HeldBy(selected, window, x)
  {
    if selected != [] {
      var most, last := selected[..|selected| - 1], selected[|selected| - 1];
      HeldMembers(most, window, x);
      assert forall b :: b in selected <==> b in most || b == last;
    }
  }

  lemma {:induction false} MergedShowsExactly(selected: seq<Binding>, loaded: seq<Load>, window: Binding -> seq<Event>,
      limit: int)
    requires |loaded| == |selected| && forall i | 0 <= i < |loaded| :: loaded[i].binding == selected[i]
    requires forall i | 0 <= i < |loaded| :: Honest(loaded[i], window)
    ensures ShowsExactly(Merged(loaded, limit), selected, window)
  {
    hide Holds, HeldBy, Merged, Honest;
    forall x: Record
      ensures x in Merged(loaded, limit).events ==> HeldBy(selected, window, x)
      ensures Merged(loaded, limit).complete && HeldBy(selected, window, x) ==> x in Merged(loaded, limit).events
    {
      HoldsIsHeldBy(selected, loaded, window, x);
      ListingIsExact(loaded, window, limit, x);
    }
  }

  // What was read, for any servers.

  /** The events on the pages received of each selected calendar fit in the limit. */
  ghost predicate Fits(selected: seq<Binding>, window: Binding -> seq<Event>, limit: int) {
    forall b | b in selected :: |window(b)| <= limit
  }

  /** A read gave the first events of what was received, and all of them exactly when they fit. */
  ghost predicate Cut(l: Load, window: Binding -> seq<Event>, limit: int) {
    l.result.Fetched? ==>
      && l.result.batch.events <= window(l.binding)
      && (l.result.batch.events == window(l.binding) <==> |window(l.binding)| <= limit)
  }

  lemma {:induction false} LoadIsRead<Item(!new)>(b: Binding, backend: Backend<Item>, normalise: Item -> Option<Event>,
      limit: int, tokens: map<string, set<string>>)
    requires HasServer(b, backend, tokens) && limit >= 1
    ensures var l, pages := LoadOf(b, backend, normalise, limit, tokens), Pages(backend, normalise, limit, tokens);
      && Cut(l, pages, limit)
      && (RespectsSize(backend.servers[b.id], tokens[b.id]) ==> |pages(b)| <= limit)
      && (l.result.Fetched? && l.result.batch.complete ==>
            ReadOf(b, backend, normalise, limit, tokens).end.LastPage?)
  {
    hide Read, Answer, Kept, FiniteTokens, RespectsSize;
    AnswerMeans(backend.servers[b.id], normalise, limit, tokens[b.id]);
  }

  /** With pages no longer than asked for everything fits. */
  lemma {:induction false} SizedFits<Item(!new)>(selected: seq<Binding>, backend: Backend<Item>,
      normalise: Item -> Option<Event>, limit: int, tokens: map<string, set<string>>)
    requires Served(selected, backend, tokens) && Sized(selected, backend, tokens) && limit >= 1
    ensures Fits(selected, Pages(backend, normalise, limit, tokens), limit)
  {
    hide LoadOf, Pages, ReadOf, RespectsSize, Cut;
    forall b | b in selected ensures |Pages(backend, normalise, limit, tokens)(b)| <= limit {
      LoadIsRead(b, backend, normalise, limit, tokens);
    }
  }

  /** The records loaded are those of the windows exactly when every window was loaded whole. */
  lemma {:induction false} KeyedIsHeld(selected: seq<Binding>, loaded: seq<Load>, window: Binding -> seq<Event>)
    requires |loaded| == |selected|
    requires forall i | 0 <= i < |loaded| ::
      loaded[i].binding == selected[i] && loaded[i].result.Fetched?
      && loaded[i].result.batch.events <= window(selected[i])
    ensures |Keyed(loaded)| <= |Held(selected, window)|
    ensures |Keyed(loaded)| == |Held(selected, window)| <==>
      forall i | 0 <= i < |loaded| :: loaded[i].result.batch.events == window(selected[i])
    ensures |Keyed(loaded)| == |Held(selected, window)| ==> Keyed(loaded) == Held(selected, window)
  {
    if loaded != [] {
      var n := |loaded| - 1;
      KeyedIsHeld(selected[..n], loaded[..n], window);
      assert |loaded[n].result.batch.events| == |window(selected[n])| ==>
        loaded[n].result.batch.events == window(selected[n]);
      assert (forall i | 0 <= i < |loaded| :: loaded[i].result.batch.events == window(selected[i])) <==>
        (forall i | 0 <= i < n :: loaded[..n][i].result.batch.events == window(selected[..n][i]))
        && loaded[n].result.batch.events == window(selected[n]);
    }
  }

  /** The listing shows nothing that was not read. If it is complete, every selected calendar was
      read to its last page, and the listing shows what was read, each record as often as it was,
      exactly when the events of each calendar fit in the limit. */
  ghost predicate ShowsPages<Item(!new)>(listing: Listing, selected: seq<Binding>, backend: Backend<Item>,
      normalise: Item -> Option<Event>, limit: int, tokens: map<string, set<string>>)
    requires Served(selected, backend, tokens)
  {
    var pages := Pages(backend, normalise, limit, tokens);
    && (forall x | x in listing.events :: HeldBy(selected, pages, x))
    && (listing.complete ==>
          && (forall b | b in selected :: ReadOf(b, backend, normalise, limit, tokens).end.LastPage?)
          && (multiset(listing.events) == multiset(Held(selected, pages)) <==> Fits(selected, pages, limit)))
  }

  /** What is listed comes from some calendar. */
  lemma {:induction false} MergedIsHeld(selected: seq<Binding>, loaded: seq<Load>, window: Binding -> seq<Event>,
      limit: int, x: Record)
    requires |loaded| == |selected| && forall i | 0 <= i < |loaded| :: loaded[i].binding == selected[i]
    requires forall i | 0 <= i < |loaded| :: Cut(loaded[i], window, limit)
    requires x in Merged(loaded, limit).events
    ensures HeldBy(selected, window, x)
  {
    hide Keyed, Arranged, Slice, HeldBy, Holds;
    SelectedIsRead(Keyed(loaded), limit, x);
    var i := KeyedFrom(loaded, x);
    assert Cut(loaded[i], window, limit);
    var events := loaded[i].result.batch.events;
    var j :| 0 <= j < |events| && Records(loaded[i].binding, events)[j] == x;
    assert Records(loaded[i].binding, window(loaded[i].binding))[j] == x;
    HoldsThere(loaded, window, i, x);
    HoldsIsHeldBy(selected, loaded, window, x);
  }

  lemma HoldsThere(loaded: seq<Load>, window: Binding -> seq<Event>, i: nat, x: Record)
    requires i < |loaded| && x in Records(loaded[i].binding, window(loaded[i].binding))
    ensures Holds(loaded, window, x)
  {
  }

  /** A complete listing holds what was loaded, and that is everything exactly when it fits. */
  lemma {:induction false} CompleteShowsAll(selected: seq<Binding>, loaded: seq<Load>, window: Binding -> seq<Event>,
      limit: int)
    requires |loaded| == |selected| && forall i | 0 <= i < |loaded| :: loaded[i].binding == selected[i]
    requires forall i | 0 <= i < |loaded| :: Cut(loaded[i], window, limit)
    requires Merged(loaded, limit).complete
    ensures multiset(Merged(loaded, limit).events) == multiset(Held(selected, window)) <==>
      Fits(selected, window, limit)
  {
    hide Keyed, Held, Ids;
    forall i | 0 <= i < |loaded|
      ensures loaded[i].result.Fetched? && loaded[i].result.batch.events <= window(selected[i])
      ensures loaded[i].result.batch.events == window(selected[i]) <==> |window(selected[i])| <= limit
    {
      NoIds(loaded, IsFailed, i);
      assert Cut(loaded[i], window, limit);
    }
    KeyedIsHeld(selected, loaded, window);
    ArrangedIsSorted(Keyed(loaded));
    assert Merged(loaded, limit).events == Arranged(Keyed(loaded));
    assert |multiset(Held(selected, window))| == |Held(selected, window)|;
    assert |multiset(Keyed(loaded))| == |Keyed(loaded)|;
    assert Fits(selected, window, limit) <==> forall i | 0 <= i < |selected| :: |window(selected[i])| <= limit;
  }

  lemma {:induction false} MergedShowsPages<Item(!new)>(selected: seq<Binding>, backend: Backend<Item>,
      normalise: Item -> Option<Event>, limit: int, tokens: map<string, set<string>>)
    requires Served(selected, backend, tokens) && limit >= 1
    ensures var loaded := LoadsOf(selected, backend, normalise, limit, tokens);
      ShowsPages(Merged(loaded, limit), selected, backend, normalise, limit, tokens)
  {
    hide LoadOf, Pages, ReadOf, HasServer, RespectsSize, Cut, Fits, HeldBy, Held, Ids, Keyed, Arranged, Slice;
    var loaded, pages := LoadsOf(selected, backend, normalise, limit, tokens), Pages(backend, normalise, limit, tokens);
    var listing := Merged(loaded, limit);
    forall i | 0 <= i < |selected|
      ensures Cut(loaded[i], pages, limit)
      ensures listing.complete ==>
                HasServer(selected[i], backend, tokens)
                && ReadOf(selected[i], backend, normalise, limit, tokens).end.LastPage?
    {
      assert selected[i] in selected;
      LoadIsRead(selected[i], backend, normalise, limit, tokens);
      if listing.complete {
        NoIds(loaded, IsFailed, i);
        NoIds(loaded, IsTruncated, i);
      }
    }
    forall x | x in listing.events ensures HeldBy(selected, pages, x) {
      MergedIsHeld(selected, loaded, pages, limit, x);
    }
    if listing.complete {
      CompleteShowsAll(selected, loaded, pages, limit);
    }
  }

  /** A limit below one reads nothing and shows nothing. */
  lemma {:induction false} NothingMerged<Item(!new)>(selected: seq<Binding>, backend: Backend<Item>,
      normalise: Item -> Option<Event>, limit: int, tokens: map<string, set<string>>)
    requires Served(selected, backend, tokens) && limit < 1
    ensures Merged(LoadsOf(selected, backend, normalise, limit, tokens), limit).events == []
  {
    hide Keyed;
    var loaded := LoadsOf(selected, backend, normalise, limit, tokens);
    forall i | 0 <= i < |loaded| && loaded[i].result.Fetched? ensures loaded[i].result.batch.events == [] {
      assert selected[i] in selected;
    }
    NothingKeyed(loaded);
  }

  lemma {:induction false} NothingKeyed(loaded: seq<Load>)
    requires forall i | 0 <= i < |loaded| && loaded[i].result.Fetched? :: loaded[i].result.batch.events == []
    ensures Keyed(loaded) == []
  {
    if loaded != [] {
      NothingKeyed(loaded[..|loaded| - 1]);
    }
  }

  // What a listing reports of every selected calendar.

  /** The read of a calendar fails if it takes too long, if a page token comes twice, or if a request
      is refused before an event was kept. */
  ghost predicate Fails<Item(!new)>(b: Binding, backend: Backend<Item>, normalise: Item -> Option<Event>, limit: int,
      tokens: map<string, set<string>>)
    requires HasServer(b, backend, tokens)
  {
    var reading := ReadOf(b, backend, normalise, limit, tokens);
    || backend.timedOut(b.id)
    || reading.end == TokenRepeated
    || (reading.end == Refused && Kept(reading.items, normalise) == [])
  }

  /** It stops short if it ends with events before the last page. */
  ghost predicate StopsShort<Item(!new)>(b: Binding, backend: Backend<Item>, normalise: Item -> Option<Event>,
      limit: int, tokens: map<string, set<string>>)
    requires HasServer(b, backend, tokens)
  {
    && limit >= 1 && !Fails(b, backend, normalise, limit, tokens)
    && ReadOf(b, backend, normalise, limit, tokens).end != LastPage
  }

  ghost function Failing<Item(!new)>(backend: Backend<Item>, normalise: Item -> Option<Event>, limit: int,
      tokens: map<string, set<string>>): Binding -> bool
  {
    (b: Binding) => HasServer(b, backend, tokens) && Fails(b, backend, normalise, limit, tokens)
  }

  ghost function Answering<Item(!new)>(backend: Backend<Item>, normalise: Item -> Option<Event>, limit: int,
      tokens: map<string, set<string>>): Binding -> bool
  {
    (b: Binding) => HasServer(b, backend, tokens) && !Fails(b, backend, normalise, limit, tokens)
  }

  ghost function StoppingShort<Item(!new)>(backend: Backend<Item>, normalise: Item -> Option<Event>, limit: int,
      tokens: map<string, set<string>>): Binding -> bool
  {
    (b: Binding) => HasServer(b, backend, tokens) && StopsShort(b, backend, normalise, limit, tokens)
  }

  /** What each calendar contributes: the first events of its pages, up to the limit; nothing if the
      read fails. */
  ghost function Contribution<Item(!new)>(backend: Backend<Item>, normalise: Item -> Option<Event>, limit: int,
      tokens: map<string, set<string>>): Binding -> seq<Event>
  {
    (b: Binding) =>
      if HasServer(b, backend, tokens) && !Fails(b, backend, normalise, limit, tokens) then
        Take(Kept(ReadOf(b, backend, normalise, limit, tokens).items, normalise), if limit < 1 then 0 else limit)
      else []
  }

  /** `r` holds the first `limit` records of `all`: by start, then by id. */
  ghost predicate AreFirst(r: seq<Record>, all: seq<Record>, limit: int) {
    && (forall i, j | 0 <= i < j < |r| ::
          r[i].event.start < r[j].event.start || (r[i].event.start == r[j].event.start && Below(r[i].id, r[j].id)))
    && |r| == (if |all| <= limit then |all| else if limit < 0 then 0 else limit)
    && exists rest: seq<Record> ::
         multiset(r) + multiset(rest) == multiset(all) && forall x, y | x in r && y in rest :: Before(x, y)
  }

  function CalendarId(b: Binding): string {
    b.id
  }

  /** The listing tells the calendars that were read from those that failed, and those of which
      something is missing; it is complete if there are no such calendars and no record too many;
      and it shows the first records of what the calendars contribute. */
  ghost predicate Reports<Item(!new)>(listing: Listing, selected: seq<Binding>, backend: Backend<Item>,
      normalise: Item -> Option<Event>, limit: int, tokens: map<string, set<string>>)
  {
    var all := Held(selected, Contribution(backend, normalise, limit, tokens));
    && Chosen(listing.calendars, selected, Answering(backend, normalise, limit, tokens), CalendarId)
    && Chosen(listing.unavailable, selected, Failing(backend, normalise, limit, tokens), CalendarId)
    && Chosen(listing.truncated, selected, StoppingShort(backend, normalise, limit, tokens), CalendarId)
    && (listing.complete <==> listing.unavailable == [] && listing.truncated == [] && |all| <= limit)
    && AreFirst(listing.events, all, limit)
  }

  /** What was loaded of a calendar says what became of its read. */
  lemma {:induction false} LoadTells<Item(!new)>(b: Binding, backend: Backend<Item>, normalise: Item -> Option<Event>,
      limit: int, tokens: map<string, set<string>>)
    requires HasServer(b, backend, tokens)
    ensures var l := LoadOf(b, backend, normalise, limit, tokens);
      && IsFailed(l) == Failing(backend, normalise, limit, tokens)(b)
      && IsFetched(l) == Answering(backend, normalise, limit, tokens)(b)
      && IsTruncated(l) == StoppingShort(backend, normalise, limit, tokens)(b)
      && (if IsFetched(l) then l.result.batch.events else []) == Contribution(backend, normalise, limit, tokens)(b)
  {
    hide Kept, FiniteTokens, ReadOn;
    if limit >= 1 {
      ReadEnds(backend.servers[b.id], normalise, limit, tokens[b.id], 0, None, {}, []);
    }
    NothingKept(normalise);
  }

  lemma {:induction false} KeyedIsContributed(selected: seq<Binding>, loaded: seq<Load>, window: Binding -> seq<Event>)
    requires |loaded| == |selected|
    requires forall i | 0 <= i < |loaded| ::
      && loaded[i].binding == selected[i]
      && (if IsFetched(loaded[i]) then loaded[i].result.batch.events else []) == window(selected[i])
    ensures Keyed(loaded) == Held(selected, window)
  {
    if loaded != [] {
      var n := |loaded| - 1;
      KeyedIsContributed(selected[..n], loaded[..n], window);
      assert loaded[n].binding == selected[n];
    }
  }

  lemma {:induction false} FrontBeforeRest(sorted: seq<Record>, n: nat, x: Record, y: Record)
    requires n <= |sorted| && InOrder(sorted, Before) && x in sorted[..n] && y in sorted[n..]
    ensures Before(x, y)
  {
    hide Before;
    var front, rest := sorted[..n], sorted[n..];
    var i :| 0 <= i < |front| && front[i] == x;
    var j :| 0 <= j < |rest| && rest[j] == y;
    assert Before(sorted[i], sorted[n + j]);
  }

  lemma {:induction false} FrontIsFirst(sorted: seq<Record>, records: seq<Record>, limit: int, n: nat)
    requires InOrder(sorted, Before) && multiset(sorted) == multiset(records) && |sorted| == |records|
    requires n == if |records| <= limit then |records| else if limit < 0 then 0 else limit
    ensures AreFirst(sorted[..n], records, limit)
  {
    var r, rest := sorted[..n], sorted[n..];
    Split(sorted, n);
    forall x, y | x in r && y in rest ensures Before(x, y) {
      FrontBeforeRest(sorted, n, x, y);
    }
    forall i, j | 0 <= i < j < n ensures Before(r[i], r[j]) {
      assert Before(sorted[i], sorted[j]);
    }
    hide InOrder, Below;
    assert multiset(r) + multiset(rest) == multiset(records);
  }

  lemma {:induction false} FirstOfArranged(records: seq<Record>, limit: int)
    requires limit < 0 ==> records == []
    ensures AreFirst(Slice(Arranged(records), limit), records, limit)
  {
    hide Arranged, AreFirst, Before;
    ArrangedIsSorted(records);
    var sorted := Arranged(records);
    var r := Slice(sorted, limit);
    assert r == sorted[..|r|];
    FrontIsFirst(sorted, records, limit, |r|);
  }

  lemma {:induction false} LoadsTell<Item(!new)>(selected: seq<Binding>, backend: Backend<Item>,
      normalise: Item -> Option<Event>, limit: int, tokens: map<string, set<string>>)
    requires Served(selected, backend, tokens)
    ensures var loaded := LoadsOf(selected, backend, normalise, limit, tokens);
      && Keyed(loaded) == Held(selected, Contribution(backend, normalise, limit, tokens))
      && Chosen(Ids(loaded, IsFetched), selected, Answering(backend, normalise, limit, tokens), CalendarId)
      && Chosen(Ids(loaded, IsFailed), selected, Failing(backend, normalise, limit, tokens), CalendarId)
      && Chosen(Ids(loaded, IsTruncated), selected, StoppingShort(backend, normalise, limit, tokens), CalendarId)
  {
    hide LoadOf, HasServer, Answering, Failing, StoppingShort, Contribution, Keyed, Held, Ids, Chosen;
    var loaded := LoadsOf(selected, backend, normalise, limit, tokens);
    forall i | 0 <= i < |selected|
      ensures IsFailed(loaded[i]) == Failing(backend, normalise, limit, tokens)(selected[i])
      ensures IsFetched(loaded[i]) == Answering(backend, normalise, limit, tokens)(selected[i])
      ensures IsTruncated(loaded[i]) == StoppingShort(backend, normalise, limit, tokens)(selected[i])
      ensures (if IsFetched(loaded[i]) then loaded[i].result.batch.events else [])
        == Contribution(backend, normalise, limit, tokens)(selected[i])
    {
      assert selected[i] in selected;
      LoadTells(selected[i], backend, normalise, limit, tokens);
    }
    KeyedIsContributed(selected, loaded, Contribution(backend, normalise, limit, tokens));
    IdsAlong(loaded, selected, IsFetched, Answering(backend, normalise, limit, tokens));
    IdsAlong(loaded, selected, IsFailed, Failing(backend, normalise, limit, tokens));
    IdsAlong(loaded, selected, IsTruncated, StoppingShort(backend, normalise, limit, tokens));
  }

  lemma {:induction false} IdsAlong(loaded: seq<Load>, selected: seq<Binding>, keep: Load -> bool,
      choose: Binding -> bool)
    requires |loaded| == |selected|
    requires forall i | 0 <= i < |loaded| :: loaded[i].binding == selected[i] && keep(loaded[i]) == choose(selected[i])
    ensures Chosen(Ids(loaded, keep), selected, choose, CalendarId)
  {
    hide Chosen, Ids;
    IdsChosen(loaded, keep);
    ChosenAlong(Ids(loaded, keep), loaded, selected, keep, choose, IdOf, CalendarId);
  }

  lemma {:induction false} NothingContributed<Item(!new)>(selected: seq<Binding>, backend: Backend<Item>,
      normalise: Item -> Option<Event>, limit: int, tokens: map<string, set<string>>)
    requires limit < 1
    ensures Held(selected, Contribution(backend, normalise, limit, tokens)) == []
  {
    if selected != [] {
      NothingContributed(selected[..|selected| - 1], backend, normalise, limit, tokens);
    }
  }

  lemma {:induction false} MergedReports<Item(!new)>(selected: seq<Binding>, backend: Backend<Item>,
      normalise: Item -> Option<Event>, limit: int, tokens: map<string, set<string>>)
    requires Served(selected, backend, tokens)
    ensures Reports(Merged(LoadsOf(selected, backend, normalise, limit, tokens), limit), selected, backend, normalise,
                    limit, tokens)
  {
    hide LoadsOf, Served, Answering, Failing, StoppingShort, Contribution, Keyed, Held, Ids, Chosen, AreFirst, Slice;
    LoadsTell(selected, backend, normalise, limit, tokens);
    if limit < 1 {
      NothingContributed(selected, backend, normalise, limit, tokens);
    }
    FirstOfArranged(Keyed(LoadsOf(selected, backend, normalise, limit, tokens)), limit);
  }

  /** No read succeeds exactly when all fail. */
  lemma {:induction false} NoneFetched<Item(!new)>(selected: seq<Binding>, backend: Backend<Item>,
      normalise: Item -> Option<Event>, limit: int, tokens: map<string, set<string>>)
    requires Served(selected, backend, tokens) && selected != []
    ensures var loaded := LoadsOf(selected, backend, normalise, limit, tokens);
      Ids(loaded, IsFetched) == [] && Ids(loaded, IsFailed) != [] <==>
        forall b | b in selected :: Fails(b, backend, normalise, limit, tokens)
  {
    hide LoadsOf, HasServer, StoppingShort, Keyed, Held, Contribution, Ids, Chosen, Fails;
    var loaded := LoadsOf(selected, backend, normalise, limit, tokens);
    LoadsTell(selected, backend, normalise, limit, tokens);
    NothingChosen(Ids(loaded, IsFetched), selected, Answering(backend, normalise, limit, tokens), CalendarId);
    NothingChosen(Ids(loaded, IsFailed), selected, Failing(backend, normalise, limit, tokens), CalendarId);
    assert selected[0] in selected;
    assert forall b | b in selected :: HasServer(b, backend, tokens);
    assert forall i | 0 <= i < |selected| :: selected[i] in selected;
  }

  // The windows of the calendars, for servers that cut them into pages.

  /** What each calendar holds: the events of the items of its window. */
  ghost function Windows<Item(!new)>(items: map<string, seq<Item>>, normalise: Item -> Option<Event>)
    : Binding -> seq<Event>
  {
    (b: Binding) => if b.id in items then Kept(items[b.id], normalise) else []
  }

  /** Every selected calendar has a fixed window that its server cuts into pages of the size asked
      for. */
  ghost predicate Cuts<Item(!new)>(bindings: seq<Binding>, backend: Backend<Item>,
      tokens: map<string, set<string>>, items: map<string, seq<Item>>, at: map<string, map<string, nat>>)
  {
    forall b | b in bindings :: CutsWindow(b, backend, tokens, items, at)
  }

  ghost predicate CutsWindow<Item(!new)>(b: Binding, backend: Backend<Item>,
      tokens: map<string, set<string>>, items: map<string, seq<Item>>, at: map<string, map<string, nat>>)
  {
    && b.id in backend.servers && b.id in tokens && b.id in items && b.id in at
    && Serves(backend.servers[b.id], items[b.id], at[b.id]) && RespectsSize(backend.servers[b.id], tokens[b.id])
  }

  /** No request fails, none takes too long, and the window comes in order of start. */
  ghost predicate Reliable<Item(!new)>(b: Binding, backend: Backend<Item>, tokens: map<string, set<string>>,
      window: Binding -> seq<Event>)
  {
    && b.id in backend.servers && b.id in tokens
    && NeverFails(backend.servers[b.id], tokens[b.id]) && Advances(backend.servers[b.id], tokens[b.id])
    && !backend.timedOut(b.id) && StartsAscend(window(b))
  }

  /** What was loaded from one calendar, seen from its window. */
  ghost predicate IsLoad<Item(!new)>(l: Load, binding: Binding, backend: Backend<Item>,
      tokens: map<string, set<string>>, window: Binding -> seq<Event>, limit: int)
  {
    && l.binding == binding
    && (limit >= 1 ==> Honest(l, window))
    && (limit >= 1 && Reliable(binding, backend, tokens, window) ==>
          && l.result.Fetched? && Bounded(l, window, limit) && StartsAscend(window(binding))
          && (|window(binding)| < limit ==> l.result.batch.complete))
  }

  ghost predicate AreLoads<Item(!new)>(loaded: seq<Load>, selected: seq<Binding>, backend: Backend<Item>,
      tokens: map<string, set<string>>, window: Binding -> seq<Event>, limit: int)
  {
    && |loaded| == |selected|
    && forall i | 0 <= i < |loaded| :: IsLoad(loaded[i], selected[i], backend, tokens, window, limit)
  }

  lemma {:induction false} LoadOfWindow<Item(!new)>(b: Binding, backend: Backend<Item>,
      normalise: Item -> Option<Event>,
      limit: int, tokens: map<string, set<string>>, items: map<string, seq<Item>>, at: map<string, map<string, nat>>)
    requires HasServer(b, backend, tokens) && CutsWindow(b, backend, tokens, items, at)
    ensures IsLoad(LoadOf(b, backend, normalise, limit, tokens), b, backend, tokens, Windows(items, normalise), limit)
  {
    hide Read, Answer, Kept, FiniteTokens, Serves, StartsAscend;
    WindowAnswer(backend.servers[b.id], normalise, limit, items[b.id], at[b.id], tokens[b.id]);
  }

  lemma {:induction false} LoadsOfWindows<Item(!new)>(selected: seq<Binding>, backend: Backend<Item>,
      normalise: Item -> Option<Event>, limit: int, tokens: map<string, set<string>>,
      items: map<string, seq<Item>>, at: map<string, map<string, nat>>)
    requires Served(selected, backend, tokens) && Cuts(selected, backend, tokens, items, at)
    ensures AreLoads(LoadsOf(selected, backend, normalise, limit, tokens), selected, backend, tokens,
                     Windows(items, normalise), limit)
  {
    hide LoadOf, IsLoad, HasServer, CutsWindow, Windows;
    forall i | 0 <= i < |selected|
      ensures IsLoad(LoadsOf(selected, backend, normalise, limit, tokens)[i], selected[i], backend, tokens,
                     Windows(items, normalise), limit)
    {
      assert selected[i] in selected;
      LoadOfWindow(selected[i], backend, normalise, limit, tokens, items, at);
    }
  }

  lemma {:induction false} MergedIsEarliest<Item(!new)>(selected: seq<Binding>, loaded: seq<Load>,
      backend: Backend<Item>, tokens: map<string, set<string>>, window: Binding -> seq<Event>, limit: nat)
    requires AreLoads(loaded, selected, backend, tokens, window, limit) && limit >= 1
    requires forall b | b in selected :: Reliable(b, backend, tokens, window)
    ensures IsEarliest(Merged(loaded, limit).events, Held(selected, window), limit)
  {
    hide Reliable, Bounded, StartsAscend, Honest, Slice, Arranged, Keyed, IsEarliest;
    forall i | 0 <= i < |loaded|
      ensures loaded[i].binding == selected[i] && loaded[i].result.Fetched?
      ensures Bounded(loaded[i], window, limit) && StartsAscend(window(loaded[i].binding))
    {
      assert selected[i] in selected && IsLoad(loaded[i], selected[i], backend, tokens, window, limit);
    }
    WholeIsHeld(selected, loaded, window);
    EarliestEvents(loaded, window, limit);
  }

  lemma {:induction false} WindowInHeld(selected: seq<Binding>, window: Binding -> seq<Event>, i: nat)
    requires i < |selected|
    ensures |window(selected[i])| <= |Held(selected, window)|
  {
    if i < |selected| - 1 {
      WindowInHeld(selected[..|selected| - 1], window, i);
    }
  }

  lemma {:induction false} NoneKept(loaded: seq<Load>, keep: Load -> bool)
    requires forall i | 0 <= i < |loaded| :: !keep(loaded[i])
    ensures Ids(loaded, keep) == []
  {
    if loaded != [] {
      NoneKept(loaded[..|loaded| - 1], keep);
    }
  }

  lemma {:induction false} AllFetched(loaded: seq<Load>)
    requires loaded != [] && loaded[0].result.Fetched?
    ensures Ids(loaded, IsFetched) != []
  {
    if |loaded| > 1 {
      AllFetched(loaded[..|loaded| - 1]);
    }
  }

  /** If every read succeeds, the service answers; with fewer events than the limit it also says
      that the listing is complete. */
  lemma {:induction false} MergedIsComplete<Item(!new)>(selected: seq<Binding>, loaded: seq<Load>,
      backend: Backend<Item>, tokens: map<string, set<string>>, window: Binding -> seq<Event>, limit: nat)
    requires AreLoads(loaded, selected, backend, tokens, window, limit) && limit >= 1 && selected != []
    requires forall b | b in selected :: Reliable(b, backend, tokens, window)
    ensures Ids(loaded, IsFetched) != [] && Ids(loaded, IsFailed) == []
    ensures |Held(selected, window)| < limit ==> Ids(loaded, IsTruncated) == [] && |Keyed(loaded)| <= limit
  {
    hide Reliable, Bounded, StartsAscend, Honest, Keyed, Ids, Held, Whole, Tails;
    forall i | 0 <= i < |loaded|
      ensures loaded[i].binding == selected[i] && loaded[i].result.Fetched? && Bounded(loaded[i], window, limit)
      ensures StartsAscend(window(loaded[i].binding))
      ensures |Held(selected, window)| < limit ==> !IsTruncated(loaded[i])
    {
      assert selected[i] in selected && IsLoad(loaded[i], selected[i], backend, tokens, window, limit);
      WindowInHeld(selected, window, i);
    }
    AllFetched(loaded);
    NoneKept(loaded, IsFailed);
    if |Held(selected, window)| < limit {
      NoneKept(loaded, IsTruncated);
      WholeIsHeld(selected, loaded, window);
      WholeIsKeyedAndTails(loaded, window, limit);
      assert |multiset(Whole(loaded, window))| == |Keyed(loaded)| + |Tails(loaded, window, limit)|;
    }
  }

  // Records that cannot be compared.

  lemma ClashingMembers(records: seq<Record>)
    ensures Clashing(records) <==> exists x, y :: x in records && y in records && Clash(x, y)
  {
    if Clashing(records) {
      var i, j :| 0 <= i < j < |records| && Clash(records[i], records[j]);
      assert records[i] in records && records[j] in records;
    }
    if exists x, y :: x in records && y in records && Clash(x, y) {
      var x, y :| x in records && y in records && Clash(x, y);
      var i, j :| 0 <= i < |records| && 0 <= j < |records| && records[i] == x && records[j] == y;
      assert Clash(records[if i < j then i else j], records[if i < j then j else i]);
    }
  }

  /** If nothing in the windows clashes, nothing that was read does. */
  lemma {:induction false} MergedHasNoClash<Item(!new)>(selected: seq<Binding>, loaded: seq<Load>,
      backend: Backend<Item>, tokens: map<string, set<string>>, window: Binding -> seq<Event>, limit: nat)
    requires AreLoads(loaded, selected, backend, tokens, window, limit) && limit >= 1
    requires forall b | b in selected :: Reliable(b, backend, tokens, window)
    requires !Clashing(Held(selected, window))
    ensures !Clashing(Keyed(loaded))
  {
    hide Reliable, Bounded, StartsAscend, Honest, Keyed, Held, Whole, Tails, Clashing, Clash;
    forall i | 0 <= i < |loaded|
      ensures loaded[i].binding == selected[i] && loaded[i].result.Fetched?
      ensures Bounded(loaded[i], window, limit) && StartsAscend(window(loaded[i].binding))
    {
      assert selected[i] in selected && IsLoad(loaded[i], selected[i], backend, tokens, window, limit);
    }
    WholeIsHeld(selected, loaded, window);
    WholeIsKeyedAndTails(loaded, window, limit);
    var keyed, held := Keyed(loaded), Held(selected, window);
    forall x | x in keyed ensures x in held {
      assert x in multiset(keyed);
      assert x in multiset(held);
    }
    ClashingMembers(keyed);
    ClashingMembers(held);
  }

  const DEFAULT_EVENT_LIMIT := 25

  function EventLimit(limit: Option<int>): int {
    if limit.None? then DEFAULT_EVENT_LIMIT else limit.value
  }

  /** The listing shows exactly what the windows hold, and when every read succeeds the earliest
      events of all of them. */
  ghost predicate ShowsWindows<Item(!new)>(listing: Listing, selected: seq<Binding>, backend: Backend<Item>,
      tokens: map<string, set<string>>, window: Binding -> seq<Event>, limit: nat)
  {
    && ShowsExactly(listing, selected, window)
    && (listing.complete ==> multiset(listing.events) == multiset(Held(selected, window)))
    && ((forall b | b in selected :: Reliable(b, backend, tokens, window)) ==>
          && IsEarliest(listing.events, Held(selected, window), limit)
          && (|Held(selected, window)| < limit ==> listing.complete))
  }

  /** The listing of the calendars the caller may read, whatever their servers answer: which errors
      are raised is decided by what was loaded, and a listing shows the pages that were read. Where
      the servers cut fixed windows into pages it shows those, and reliable servers whose records do
      not clash always get a listing. */
  method ListEvents<Item(!new)>(bindings: seq<Binding>, backend: Backend<Item>, normalise: Item -> Option<Event>,
                                caller: Option<string>, calendar: Option<string>, person: Option<string>,
                                limit: Option<int>, ghost tokens: map<string, set<string>>,
                                ghost items: map<string, seq<Item>>, ghost at: map<string, map<string, nat>>)
    returns (r: Result<Listing, CalendarError>)
    requires Served(bindings, backend, tokens)
    ensures r == Err(NotAuthorized) <==> Authorized(bindings, caller, calendar, person).Err?
    ensures var a, most := Authorized(bindings, caller, calendar, person), if limit.Some? then limit.value else 25;
      a.Ok? ==>
        && Served(a.value, backend, tokens)
        && (r == Err(ServiceUnavailable) <==> forall b | b in a.value :: Fails(b, backend, normalise, most, tokens))
        && (r == Err(IncomparableRecords) <==>
              && r != Err(ServiceUnavailable)
              && Clashing(Held(a.value, Contribution(backend, normalise, most, tokens))))
        && (r.Ok? ==> Reports(r.value, a.value, backend, normalise, most, tokens))
    ensures r.Ok? ==>
      var selected := Authorized(bindings, caller, calendar, person).value;
      Served(selected, backend, tokens)
      && (if EventLimit(limit) < 1 then r.value.events == []
          else ShowsPages(r.value, selected, backend, normalise, EventLimit(limit), tokens))
    ensures Cuts(bindings, backend, tokens, items, at) && EventLimit(limit) >= 1 ==>
      var a, window := Authorized(bindings, caller, calendar, person), Windows(items, normalise);
      && (r.Ok? ==> ShowsWindows(r.value, a.value, backend, tokens, window, EventLimit(limit)))
      && (a.Ok? && (forall b | b in a.value :: Reliable(b, backend, tokens, window)) && !Clashing(Held(a.value, window))
          ==> r.Ok?)
  {
    hide ShowsPages, ShowsWindows, Reliable, Held, Windows, AreLoads, Keyed, Arranged, Clashing, Ids;
    hide HasServer, CutsWindow, LoadsOf, Slice, Fails, Contribution, Reports, Answering, Failing, StoppingShort, Chosen;
    var authorized := Authorized(bindings, caller, calendar, person);
    if authorized.Err? {
      return Err(authorized.error);
    }
    var selected := authorized.value;
    var loaded := LoadAll(selected, backend, normalise, EventLimit(limit), tokens);
    r := Merge(loaded, EventLimit(limit));
    LoadsTell(selected, backend, normalise, EventLimit(limit), tokens);
    NoneFetched(selected, backend, normalise, EventLimit(limit), tokens);
    MergedReports(selected, backend, normalise, EventLimit(limit), tokens);
    if EventLimit(limit) >= 1 {
      MergedShowsPages(selected, backend, normalise, EventLimit(limit), tokens);
    } else {
      NothingMerged(selected, backend, normalise, EventLimit(limit), tokens);
    }
    if Cuts(bindings, backend, tokens, items, at) && EventLimit(limit) >= 1 {
      LoadsOfWindows(selected, backend, normalise, EventLimit(limit), tokens, items, at);
      MergedWindows(selected, loaded, backend, tokens, Windows(items, normalise), EventLimit(limit), r);
    }
  }

  /** A complete listing holds the windows, each record as often as they do. */
  lemma {:induction false} CompleteIsWhole(selected: seq<Binding>, loaded: seq<Load>, window: Binding -> seq<Event>,
      limit: int)
    requires |loaded| == |selected| && forall i | 0 <= i < |loaded| :: loaded[i].binding == selected[i]
    requires forall i | 0 <= i < |loaded| :: Honest(loaded[i], window)
    ensures Merged(loaded, limit).complete ==>
      multiset(Merged(loaded, limit).events) == multiset(Held(selected, window))
  {
    hide Keyed, Held, Ids, Records;
    if Merged(loaded, limit).complete {
      forall i | 0 <= i < |loaded|
        ensures loaded[i].result.Fetched? && loaded[i].result.batch.events == window(selected[i])
      {
        NoIds(loaded, IsFailed, i);
        NoIds(loaded, IsTruncated, i);
        assert Honest(loaded[i], window);
      }
      KeyedIsContributed(selected, loaded, window);
      ArrangedIsSorted(Keyed(loaded));
    }
  }

  lemma {:induction false} MergedWindows<Item(!new)>(selected: seq<Binding>, loaded: seq<Load>, backend: Backend<Item>,
      tokens: map<string, set<string>>, window: Binding -> seq<Event>, limit: nat, r: Result<Listing, CalendarError>)
    requires AreLoads(loaded, selected, backend, tokens, window, limit) && limit >= 1 && selected != []
    requires r == Err(ServiceUnavailable) <==> Ids(loaded, IsFetched) == [] && Ids(loaded, IsFailed) != []
    requires r == Err(IncomparableRecords) <==> r != Err(ServiceUnavailable) && Clashing(Keyed(loaded))
    requires r != Err(NotAuthorized)
    requires r.Ok? ==> r.value == Merged(loaded, limit)
    ensures r.Ok? ==> ShowsWindows(r.value, selected, backend, tokens, window, limit)
    ensures (forall b | b in selected :: Reliable(b, backend, tokens, window)) ==>
      !Clashing(Held(selected, window)) ==> r.Ok?
  {
    hide Reliable, Bounded, StartsAscend, Honest, Slice, Arranged, Keyed, IsEarliest, Held, Clashing, Ids, ShowsExactly;
    if r.Ok? {
      forall i | 0 <= i < |loaded| ensures loaded[i].binding == selected[i] && Honest(loaded[i], window) {
        assert IsLoad(loaded[i], selected[i], backend, tokens, window, limit);
      }
      MergedShowsExactly(selected, loaded, window, limit);
      CompleteIsWhole(selected, loaded, window, limit);
    }
    if r.Err? {
      assert r == Err(r.error);
      assert r.error.NotAuthorized? || r.error.ServiceUnavailable? || r.error.IncomparableRecords?;
    }
    if forall b | b in selected :: Reliable(b, backend, tokens, window) {
      MergedIsEarliest(selected, loaded, backend, tokens, window, limit);
      MergedIsComplete(selected, loaded, backend, tokens, window, limit);
      if !Clashing(Held(selected, window)) {
        MergedHasNoClash(selected, loaded, backend, tokens, window, limit);
      }
    }
  }

  /** Every conflict is one. */
  ghost predicate RightlyBusy(a: Availability, selected: seq<Binding>, window: Binding -> seq<Event>) {
    forall x | x in a.conflicts :: HeldBy(selected, window, x) && Occupies(x)
  }

  /** The answer is right about what the calendars hold: `available` is never claimed while one of
      them holds a busy event that is not cancelled, and every conflict is one. The conflicts of a
      checked answer are all such events, each as often as it is held. */
  ghost predicate IsExact(a: Availability, selected: seq<Binding>, window: Binding -> seq<Event>) {
    && (a.checked ==> (a.available <==> forall x | HeldBy(selected, window, x) :: !Occupies(x)))
    && (a.checked ==> forall x :: x in a.conflicts <==> HeldBy(selected, window, x) && Occupies(x))
    && (a.checked ==> forall x | Occupies(x) :: multiset(a.conflicts)[x] == multiset(Held(selected, window))[x])
    && RightlyBusy(a, selected, window)
  }

  /** What an answer takes from a listing: the conflicts are all busy events shown that are not
      cancelled, in order. */
  ghost predicate TellsOf(a: Availability, listing: Listing) {
    && Chosen(a.conflicts, listing.events, (x: Record) => x.event.busy && !x.event.cancelled, Same)
    && a.calendars == listing.calendars && a.unavailable == listing.unavailable && a.truncated == listing.truncated
    && (a.checked <==> listing.complete)
    && (a.available <==> a.checked && a.conflicts == [])
  }

  lemma {:induction false} AvailabilityTells(listing: Listing)
    ensures TellsOf(AvailabilityOf(listing), listing)
  {
    hide Conflicts;
    ConflictsChosen(listing.events);
    ChosenAlong(Conflicts(listing.events), listing.events, listing.events, Occupies,
                (x: Record) => x.event.busy && !x.event.cancelled, Same, Same);
    hide Chosen;
  }

  lemma {:induction false} AvailabilityIsExact(listing: Listing, selected: seq<Binding>, window: Binding -> seq<Event>)
    ensures ShowsExactly(listing, selected, window) ==>
      (listing.complete ==> multiset(listing.events) == multiset(Held(selected, window))) ==>
      IsExact(AvailabilityOf(listing), selected, window)
    ensures (forall x | x in listing.events :: HeldBy(selected, window, x)) ==>
      RightlyBusy(AvailabilityOf(listing), selected, window)
  {
    hide HeldBy, Occupies, Held;
    var conflicts := Conflicts(listing.events);
    if conflicts != [] {
      assert conflicts[0] in conflicts;
    }
    ConflictsChosen(listing.events);
    forall x | Occupies(x) ensures multiset(conflicts)[x] == multiset(listing.events)[x] {
      ChosenCount(conflicts, listing.events, Occupies, x);
    }
  }

  /** A listing of everything that was read shows it exactly. */
  lemma {:induction false} ShowsWhatFits<Item(!new)>(listing: Listing, selected: seq<Binding>, backend: Backend<Item>,
      normalise: Item -> Option<Event>, limit: int, tokens: map<string, set<string>>)
    requires Served(selected, backend, tokens) && limit >= 1
    requires ShowsPages(listing, selected, backend, normalise, limit, tokens)
    requires Fits(selected, Pages(backend, normalise, limit, tokens), limit)
    ensures ShowsExactly(listing, selected, Pages(backend, normalise, limit, tokens))
    ensures listing.complete ==>
      multiset(listing.events) == multiset(Held(selected, Pages(backend, normalise, limit, tokens)))
  {
    hide Pages, ReadOf, Held, HeldBy, Fits;
    var pages := Pages(backend, normalise, limit, tokens);
    forall x: Record | listing.complete && HeldBy(selected, pages, x) ensures x in listing.events {
      HeldMembers(selected, pages, x);
      assert x in multiset(Held(selected, pages));
      assert x in multiset(listing.events);
    }
  }

  /** Availability of the calendars the caller may read, whatever their servers answer: it is taken
      from a listing of up to a hundred events. `available` is claimed only after every selected
      calendar was read to its last page, and every conflict was read. If the events of each calendar
      fit in the limit, as they do with pages no longer than asked for, a checked answer is
      `available` exactly when no page holds a busy event that is not cancelled, and otherwise lists
      all of them, as often as they were read. Where the servers cut fixed windows into pages the same
      is true of the windows, and reliable servers with few events are always checked. */
  method CheckAvailability<Item(!new)>(bindings: seq<Binding>, backend: Backend<Item>, normalise: Item -> Option<Event>,
                                       caller: Option<string>, calendar: Option<string>, person: Option<string>,
                                       ghost tokens: map<string, set<string>>,
                                       ghost items: map<string, seq<Item>>, ghost at: map<string, map<string, nat>>)
    returns (r: Result<Availability, CalendarError>, ghost shown: Listing)
    requires Served(bindings, backend, tokens)
    ensures r == Err(NotAuthorized) <==> Authorized(bindings, caller, calendar, person).Err?
    ensures var a := Authorized(bindings, caller, calendar, person);
      a.Ok? ==>
        && Served(a.value, backend, tokens)
        && (r == Err(ServiceUnavailable) <==> forall b | b in a.value :: Fails(b, backend, normalise, 100, tokens))
        && (r == Err(IncomparableRecords) <==>
              && r != Err(ServiceUnavailable)
              && Clashing(Held(a.value, Contribution(backend, normalise, 100, tokens))))
        && (r.Ok? ==> Reports(shown, a.value, backend, normalise, 100, tokens) && TellsOf(r.value, shown))
    ensures r.Ok? ==> InOrder(r.value.conflicts, Before)
    ensures r.Ok? ==>
      var selected := Authorized(bindings, caller, calendar, person).value;
      var pages := Pages(backend, normalise, MAX_EVENT_LIMIT, tokens);
      && Served(selected, backend, tokens)
      && (r.value.checked ==>
            forall b | b in selected :: ReadOf(b, backend, normalise, MAX_EVENT_LIMIT, tokens).end.LastPage?)
      && RightlyBusy(r.value, selected, pages)
      && (Fits(selected, pages, MAX_EVENT_LIMIT) ==> IsExact(r.value, selected, pages))
      && (Sized(selected, backend, tokens) ==> Fits(selected, pages, MAX_EVENT_LIMIT))
    ensures r.Ok? && Cuts(bindings, backend, tokens, items, at) ==>
      var selected, window := Authorized(bindings, caller, calendar, person).value, Windows(items, normalise);
      && IsExact(r.value, selected, window)
      && ((forall b | b in selected :: Reliable(b, backend, tokens, window)) ==>
            |Held(selected, window)| < MAX_EVENT_LIMIT ==> r.value.checked)
  {
    hide Windows, Pages, HeldBy, IsEarliest, Reliable, HasServer, CutsWindow, Authorized, Held, Occupies, Reports;
    hide LoadsOf, ReadOf, IsExact, RightlyBusy, ShowsExactly, Keyed, Clashing, Ids, Fits, Sized, Fails, Contribution;
    hide TellsOf, InOrder, Before;
    var listing := ListEvents(
      bindings, backend, normalise, caller, calendar, person, Some(MAX_EVENT_LIMIT), tokens, items, at);
    if listing.Err? {
      return Err(listing.error), Listing([], [], false, [], []);
    }
    shown := listing.value;
    ghost var selected := Authorized(bindings, caller, calendar, person).value;
    ghost var pages := Pages(backend, normalise, MAX_EVENT_LIMIT, tokens);
    AvailabilityTells(shown);
    ConflictsInOrder(shown, selected, backend, normalise, MAX_EVENT_LIMIT, tokens);
    AvailabilityIsExact(shown, selected, pages);
    AvailabilityIsExact(shown, selected, Windows(items, normalise));
    if Sized(selected, backend, tokens) {
      SizedFits(selected, backend, normalise, MAX_EVENT_LIMIT, tokens);
    }
    if Fits(selected, pages, MAX_EVENT_LIMIT) {
      ShowsWhatFits(shown, selected, backend, normalise, MAX_EVENT_LIMIT, tokens);
    }
    r := Ok(AvailabilityOf(listing.value));
  }

  lemma {:induction false} ConflictsInOrder<Item(!new)>(listing: Listing, selected: seq<Binding>,
      backend: Backend<Item>, normalise: Item -> Option<Event>, limit: int, tokens: map<string, set<string>>)
    requires Reports(listing, selected, backend, normalise, limit, tokens)
    ensures InOrder(AvailabilityOf(listing).conflicts, Before)
  {
    hide Chosen, Held, Contribution, Answering, Failing, StoppingShort, Below;
    ConflictsChosen(listing.events);
    ChosenInOrder(Conflicts(listing.events), listing.events, Occupies, Before);
  }

  // ---- Inputs that show the limits ----

  function OneCalendar<Item>(b: Binding, server: Server<Item>): Backend<Item> {
    Backend(map[b.id := server], (id: string) => false)
  }

  /** An event as the provider sends it. */
  function AsIs(e: Event): Option<Event> { Some(e) }

  /** There are calendars that hold events behind servers that are reliable. */
  lemma {:induction false} ReliableCalendars(b: Binding, x: Event, y: Event)
    requires x.start <= y.start
    ensures var backend, tokens := OneCalendar(b, TwoPages(x, y)), map[b.id := {"next"}];
      var items, at := map[b.id := [x, y]], map[b.id := map["next" := 1]];
      && Served([b], backend, tokens) && Cuts([b], backend, tokens, items, at)
      && Reliable(b, backend, tokens, Windows(items, AsIs))
      && Held([b], Windows(items, AsIs)) == [RecordOf(b, x), RecordOf(b, y)]
  {
    hide Serves, RespectsSize, NeverFails, Advances, FiniteTokens, TwoPages;
    TwoPagesServe(x, y);
    ServesFinitely(TwoPages(x, y), [x, y], map["next" := 1]);
    assert map["next" := 1].Keys == {"next"};
    KeptAsIs([x, y]);
    assert Windows(map[b.id := [x, y]], AsIs)(b) == [x, y];
    assert Records(b, [x, y]) == [RecordOf(b, x)] + Records(b, [y]);
  }

  /** An event that changes between two pages stops the sort. */
  lemma {:induction false} ChangedEventClashes(b: Binding, x: Event, y: Event, limit: int)
    requires limit >= 2 && x.key == y.key && x.start == y.start && x != y
    ensures var backend, tokens := OneCalendar(b, TwoPages(x, y)), map[b.id := {"next"}];
      && Served([b], backend, tokens)
      && Ids(LoadsOf([b], backend, AsIs, limit, tokens), IsFetched) == [b.id]
      && Clashing(Keyed(LoadsOf([b], backend, AsIs, limit, tokens)))
  {
    hide FiniteTokens, TwoPages, Read;
    ReadsTwoPages(x, y, AsIs, limit);
    var backend, tokens := OneCalendar(b, TwoPages(x, y)), map[b.id := {"next"}];
    KeptAsIs([x, y]);
    var loaded := LoadsOf([b], backend, AsIs, limit, tokens);
    assert loaded == [Load(b, Fetched(Batch([x, y], true)))];
    assert Records(b, [x, y]) == [RecordOf(b, x)] + Records(b, [y]);
    assert Clash(Keyed(loaded)[0], Keyed(loaded)[1]);
  }

  lemma {:induction false} KeptAsIs(events: seq<Event>)
    ensures Kept(events, AsIs) == events
  {
    if events != [] {
      KeptAsIs(events[..|events| - 1]);
    }
  }

  lemma {:induction false} NothingConflicts(events: seq<Record>)
    requires forall x | x in events :: !Occupies(x)
    ensures Conflicts(events) == []
  {
    assert Conflicts(events) != [] ==> Conflicts(events)[0] in Conflicts(events);
  }

  /** One calendar, read whole and without a busy event, is free. */
  lemma {:induction false} FreeCalendar(b: Binding, free: seq<Event>, limit: int)
    requires |free| <= limit && forall x | x in Records(b, free) :: !Occupies(x)
    ensures AvailabilityOf(Merged([Load(b, Fetched(Batch(free, true)))], limit)).available
  {
    hide Conflicts, Records, Arranged, Occupies;
    var loaded, records := [Load(b, Fetched(Batch(free, true)))], Records(b, free);
    assert Keyed(loaded) == records;
    NoneKept(loaded, IsFailed);
    NoneKept(loaded, IsTruncated);
    ArrangedIsSorted(records);
    var shown := Merged(loaded, limit).events;
    forall x | x in shown ensures !Occupies(x) {
      assert x in multiset(records);
    }
    NothingConflicts(shown);
  }

  /** What is loaded from a page that is too long. */
  lemma {:induction false} LoadsOnePage(b: Binding, events: seq<Event>, limit: nat)
    requires limit >= 1
    ensures var backend, tokens: map<string, set<string>> := OneCalendar(b, OnePage(events)), map[b.id := {}];
      && Served([b], backend, tokens)
      && LoadsOf([b], backend, AsIs, limit, tokens) == [Load(b, Fetched(Batch(Take(events, limit), true)))]
      && Pages(backend, AsIs, limit, tokens)(b) == events
  {
    hide FiniteTokens, OnePage, Read, Kept;
    OverlongPage(events, AsIs, limit);
    KeptAsIs(events);
  }

  /** A busy event beyond the limit, on a page longer than was asked for, is not seen: the answer
      is `available`. */
  lemma {:induction false} HiddenConflict(b: Binding, free: seq<Event>, busy: Event)
    requires |free| == MAX_EVENT_LIMIT && forall x | x in Records(b, free) :: !Occupies(x)
    requires Occupies(RecordOf(b, busy))
    ensures var backend, tokens := OneCalendar(b, OnePage(free + [busy])), map[b.id := {}];
      && Served([b], backend, tokens)
      && var loaded := LoadsOf([b], backend, AsIs, MAX_EVENT_LIMIT, tokens);
      && AvailabilityOf(Merged(loaded, MAX_EVENT_LIMIT)).available
      && HeldBy([b], Pages(backend, AsIs, MAX_EVENT_LIMIT, tokens), RecordOf(b, busy))
  {
    hide OnePage, Pages, LoadsOf, Occupies, Merged, AvailabilityOf, Served;
    var events := free + [busy];
    LoadsOnePage(b, events, MAX_EVENT_LIMIT);
    assert Take(events, MAX_EVENT_LIMIT) == free;
    FreeCalendar(b, free, MAX_EVENT_LIMIT);
    LastIsHeld(b, events);
    assert b in [b];
  }

  lemma {:induction false} LastIsHeld(b: Binding, events: seq<Event>)
    requires events != []
    ensures RecordOf(b, events[|events| - 1]) in Records(b, events)
  {
    assert Records(b, events)[|events| - 1] == RecordOf(b, events[|events| - 1]);
  }
}
