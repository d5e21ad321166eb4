/** Reading one calendar page by page under an event limit. */
module CalendarPages {
  import opened Text
  import opened Selection

  const MAX_EVENT_LIMIT := 100

  /** What one request comes back with. A page without a list of items carries none; an
      empty or missing token says that it is the last. */
  datatype Reply<Item> =
    | DeadlineExceeded
    | Unavailable
    | Page(items: Option<seq<Item>>, next: Option<string>)

  datatype Batch<Event> = Batch(events: seq<Event>, complete: bool)

  datatype CalendarUnavailable = CalendarUnavailable

  /** A server, by the number of the request, the page size asked for and the page token. */
  type Server<!Item> = (nat, nat, Option<string>) -> Reply<Item>

  function PageSize(room: int): (size: nat)
    ensures 1 <= size <= MAX_EVENT_LIMIT && (room >= 1 ==> size <= room)
    ensures size == MAX_EVENT_LIMIT || room <= size
  {
    var atLeast := if room < 1 then 1 else room;
    if atLeast > MAX_EVENT_LIMIT then MAX_EVENT_LIMIT else atLeast
  }

  function Items<Item>(reply: Reply<Item>): seq<Item>
    requires reply.Page?
  {
    if reply.items.Some? then reply.items.value else []
  }

  predicate IsLast<Item>(reply: Reply<Item>)
    requires reply.Page?
  {
    reply.next.None? || reply.next.value == ""
  }

  predicate KnownIn(tokens: set<string>, token: Option<string>) {
    token.Some? ==> token.value in tokens
  }

  /** A request that the loop can make of a server that hands out these tokens. */
  predicate Asks(tokens: set<string>, size: nat, token: Option<string>) {
    1 <= size <= MAX_EVENT_LIMIT && KnownIn(tokens, token)
  }

  /** A server that hands out finitely many page tokens. Nothing else is asked of its pages: they
      may overlap, repeat a token or change between requests. */
  ghost predicate FiniteTokens<Item(!new)>(server: Server<Item>, tokens: set<string>) {
    forall n, size, token |
      Asks(tokens, size, token) && server(n, size, token).Page? && !IsLast(server(n, size, token)) ::
      server(n, size, token).next.value in tokens
  }

  /** Where in the window the page of a token starts. */
  function Offset(at: map<string, nat>, token: Option<string>): nat
    requires token.Some? ==> token.value in at
  {
    if token.None? then 0 else at[token.value]
  }

  predicate Known(at: map<string, nat>, token: Option<string>) {
    KnownIn(at.Keys, token)
  }

  /** A page is a slice of the window: the last one ends it, any other names the token of
      the place where it stops. */
  predicate IsSlice<Item(==)>(reply: Reply<Item>, window: seq<Item>, at: map<string, nat>, token: Option<string>)
    requires Known(at, token) && reply.Page?
  {
    var from := Offset(at, token);
    var to := from + |Items(reply)|;
    && to <= |window| && Items(reply) == window[from..to]
    && if IsLast(reply) then to == |window|
       else reply.next.value in at && at[reply.next.value] == to
  }

  /** The server cuts one fixed window into pages and knows finitely many tokens. Requests may
      fail at any time, and pages may be empty. */
  ghost predicate Serves<Item(!new)>(server: Server<Item>, window: seq<Item>, at: map<string, nat>) {
    forall n, size, token | Asks(at.Keys, size, token) && server(n, size, token).Page? ::
      IsSlice(server(n, size, token), window, at, token)
  }

  /** No page is longer than was asked for. */
  ghost predicate RespectsSize<Item(!new)>(server: Server<Item>, tokens: set<string>) {
    forall n, size, token | Asks(tokens, size, token) && server(n, size, token).Page? ::
      |Items(server(n, size, token))| <= size
  }

  ghost predicate NeverFails<Item(!new)>(server: Server<Item>, tokens: set<string>) {
    forall n, size, token | Asks(tokens, size, token) :: server(n, size, token).Page?
  }

  /** A page that is not the last holds something. */
  ghost predicate Advances<Item(!new)>(server: Server<Item>, tokens: set<string>) {
    forall n, size, token |
      Asks(tokens, size, token) && server(n, size, token).Page? && Items(server(n, size, token)) == [] ::
      IsLast(server(n, size, token))
  }

  /** The events of the items that can be normalised, in order. */
  function Kept<Item, Event>(items: seq<Item>, normalise: Item -> Option<Event>): (events: seq<Event>)
    ensures |events| <= |items|
  {
    if items == [] then []
    else
      var before := Kept(items[..|items| - 1], normalise);
      var event := normalise(items[|items| - 1]);
      if event.Some? then before + [event.value] else before
  }

  function Found<Event>(events: seq<Event>): seq<Option<Event>> {
    seq(|events|, i requires 0 <= i < |events| => Some(events[i]))
  }

  lemma FoundSnoc<Event>(events: seq<Event>, e: Event)
    ensures Found(events + [e]) == Found(events) + [Some(e)]
  {
  }

  lemma {:induction false} KeptLast<Item, Event>(items: seq<Item>, x: Item, normalise: Item -> Option<Event>)
    ensures Kept(items + [x], normalise) ==
      if normalise(x).Some? then Kept(items, normalise) + [normalise(x).value] else Kept(items, normalise)
  {
    assert (items + [x])[..|items|] == items;
  }

  /** Every item that can be normalised gives its event, in order. */
  lemma {:induction false} KeptExactly<Item, Event>(items: seq<Item>, normalise: Item -> Option<Event>)
    ensures Chosen(Found(Kept(items, normalise)), items, (x: Item) => normalise(x).Some?, normalise)
  {
    var keep := (x: Item) => normalise(x).Some?;
    if items == [] {
      ChosenFromNone(keep, normalise);
    } else {
      var most, last := items[..|items| - 1], items[|items| - 1];
      assert items == most + [last];
      KeptExactly(most, normalise);
      KeptLast(most, last, normalise);
      hide Kept;
      ChosenSnoc(Found(Kept(most, normalise)), most, last, keep, normalise);
      hide Chosen;
      if keep(last) {
        FoundSnoc(Kept(most, normalise), normalise(last).value);
      }
    }
  }

  lemma {:induction false} KeptGrows<Item, Event>(items: seq<Item>, normalise: Item -> Option<Event>, i: nat)
    requires i <= |items|
    ensures Kept(items[..i], normalise) <= Kept(items, normalise)
    ensures |Kept(items, normalise)| <= |Kept(items[..i], normalise)| + |items| - i
  {
    if i < |items| {
      var most := items[..|items| - 1];
      assert most[..i] == items[..i];
      KeptGrows(most, normalise, i);
    } else {
      assert items[..i] == items;
    }
  }

  lemma KeptStep<Item, Event>(items: seq<Item>, normalise: Item -> Option<Event>, i: nat)
    requires i < |items|
    ensures Kept(items[..i + 1], normalise) ==
      if normalise(items[i]).Some? then Kept(items[..i], normalise) + [normalise(items[i]).value]
      else Kept(items[..i], normalise)
  {
    assert items[..i + 1][..i] == items[..i];
  }

  /** The first `limit` events, or all if there are no more. */
  function Take<Event>(events: seq<Event>, limit: nat): (taken: seq<Event>)
    ensures taken <= events && |taken| == if |events| <= limit then |events| else limit
  {
    if |events| <= limit then events else events[..limit]
  }

  lemma {:induction false} Filled<Item, Event>(items: seq<Item>, normalise: Item -> Option<Event>, i: nat, limit: nat)
    requires i <= |items| && |Kept(items[..i], normalise)| == limit
    ensures Kept(items[..i], normalise) == Take(Kept(items, normalise), limit)
  {
    KeptGrows(items, normalise, i);
  }

  /** The loop over the items of one page, the last of those read so far: stop as soon as the
      limit is reached. */
  method Append<Item, Event>(items: seq<Item>, normalise: Item -> Option<Event>, limit: nat, events: seq<Event>,
                             ghost read: seq<Item>, ghost from: nat)
    returns (r: seq<Event>)
    requires |events| < limit
    requires from <= |read| && items == read[from..] && events == Kept(read[..from], normalise)
    ensures r == Take(Kept(read, normalise), limit)
    ensures |items| <= limit - |events| ==> r == Kept(read, normalise)
  {
    hide Kept, Take;
    r := events;
    KeptGrows(read, normalise, from);
    for i := 0 to |items|
      invariant |r| < limit
      invariant r == Kept(read[..from + i], normalise)
    {
      var event := normalise(items[i]);
      assert items[i] == read[from + i];
      KeptStep(read, normalise, from + i);
      if event.Some? {
        r := r + [event.value];
        if |r| >= limit {
          Filled(read, normalise, from + i + 1, limit);
          TakeAll(Kept(read, normalise), limit);
          return;
        }
      }
    }
    assert read[..from + |items|] == read;
    TakeAll(r, limit);
  }

  lemma TakeAll<Event>(events: seq<Event>, limit: nat)
    ensures |events| <= limit ==> Take(events, limit) == events
  {
  }

  // ---- Reading page by page ----

  /** Why a reading ends. */
  datatype End = NotStarted | LastPage | LimitReached | DeadlineMissed | Refused | TokenRepeated

  /** The items of all pages received, one page after the other. */
  datatype Reading<Item> = Reading(items: seq<Item>, end: End)

  lemma Shrinks(all: set<string>, seen: set<string>, t: string)
    requires t in all && t !in seen
    ensures |all - (seen + {t})| < |all - seen|
  {
    assert all - seen == (all - (seen + {t})) + {t};
  }

  lemma NextIsKnown<Item(!new)>(server: Server<Item>, tokens: set<string>, n: nat, size: nat, token: Option<string>)
    requires FiniteTokens(server, tokens) && Asks(tokens, size, token)
    requires server(n, size, token).Page? && !IsLast(server(n, size, token))
    ensures server(n, size, token).next.value in tokens
  {
  }

  /** What is read from request `n` on, after `items` were read and the tokens in `seen` were met. */
  ghost function ReadOn<Item(!new), Event>(server: Server<Item>, normalise: Item -> Option<Event>, limit: nat,
      tokens: set<string>, n: nat, token: Option<string>, seen: set<string>, items: seq<Item>): Reading<Item>
    requires FiniteTokens(server, tokens) && KnownIn(tokens, token) && seen <= tokens
    decreases |tokens - seen|
  {
    var size := PageSize(limit - |Kept(items, normalise)|);
    var reply := server(n, size, token);
    match reply
    case DeadlineExceeded => Reading(items, DeadlineMissed)
    case Unavailable => Reading(items, Refused)
    case Page(_, _) =>
      var read := items + Items(reply);
      if IsLast(reply) then Reading(read, LastPage)
      else
        var next := reply.next.value;
        NextIsKnown(server, tokens, n, size, token);
        if next in seen then Reading(read, TokenRepeated)
        else if |Kept(read, normalise)| >= limit then Reading(read, LimitReached)
        else
          Shrinks(tokens, seen, next);
          ReadOn(server, normalise, limit, tokens, n + 1, Some(next), seen + {next}, read)
  }

  ghost function Read<Item(!new), Event>(server: Server<Item>, normalise: Item -> Option<Event>, limit: int,
      tokens: set<string>): Reading<Item>
    requires FiniteTokens(server, tokens)
  {
    if limit < 1 then Reading([], NotStarted) else ReadOn(server, normalise, limit, tokens, 0, None, {}, [])
  }

  /** What a reading is answered with: the kept events up to the limit. A refusal is an error only
      as long as no event was kept, a repeated token always. */
  function Answer<Item, Event>(reading: Reading<Item>, normalise: Item -> Option<Event>, limit: int)
    : Result<Batch<Event>, CalendarUnavailable>
  {
    var events := Take(Kept(reading.items, normalise), if limit < 1 then 0 else limit);
    match reading.end
    case NotStarted | LastPage => Ok(Batch(events, true))
    case LimitReached | DeadlineMissed => Ok(Batch(events, false))
    case Refused => if events == [] then Err(CalendarUnavailable) else Ok(Batch(events, false))
    case TokenRepeated => Err(CalendarUnavailable)
  }

  lemma {:induction false} FailureMeans<Item(!new)>(server: Server<Item>, tokens: set<string>, n: nat, size: nat,
      token: Option<string>)
    requires Asks(tokens, size, token) && !server(n, size, token).Page?
    ensures !NeverFails(server, tokens)
  {
  }

  lemma {:induction false} AnswersFailure<Item(!new), Event>(server: Server<Item>, normalise: Item -> Option<Event>,
      limit: nat, tokens: set<string>, n: nat, token: Option<string>, seen: set<string>, items: seq<Item>)
    requires FiniteTokens(server, tokens) && KnownIn(tokens, token) && seen <= tokens
    requires limit >= 1 && |Kept(items, normalise)| < limit
    ensures var reply := server(n, PageSize(limit - |Kept(items, normalise)|), token);
      var answer := Answer(ReadOn(server, normalise, limit, tokens, n, token, seen, items), normalise, limit);
      !reply.Page? ==>
        (answer == if reply.Unavailable? && Kept(items, normalise) == [] then Err(CalendarUnavailable)
                   else Ok(Batch(Kept(items, normalise), false)))
  {
    hide Kept, FiniteTokens;
    TakeAll(Kept(items, normalise), limit);
  }

  /** How the reading goes on after a page. */
  lemma {:induction false} ReadsPage<Item(!new), Event>(server: Server<Item>, normalise: Item -> Option<Event>,
      limit: nat, tokens: set<string>, n: nat, token: Option<string>, seen: set<string>, items: seq<Item>)
    requires FiniteTokens(server, tokens) && KnownIn(tokens, token) && seen <= tokens
    requires server(n, PageSize(limit - |Kept(items, normalise)|), token).Page?
    ensures var reply := server(n, PageSize(limit - |Kept(items, normalise)|), token);
      var read := items + Items(reply);
      var reading := ReadOn(server, normalise, limit, tokens, n, token, seen, items);
      if IsLast(reply) then reading == Reading(read, LastPage)
      else
        && reply.next.value in tokens
        && if reply.next.value in seen then reading == Reading(read, TokenRepeated)
           else if |Kept(read, normalise)| >= limit then reading == Reading(read, LimitReached)
           else
             && |tokens - (seen + {reply.next.value})| < |tokens - seen|
             && reading == ReadOn(server, normalise, limit, tokens, n + 1, reply.next, seen + {reply.next.value}, read)
  {
    hide Kept, FiniteTokens;
    var size := PageSize(limit - |Kept(items, normalise)|);
    var reply := server(n, size, token);
    if !IsLast(reply) {
      NextIsKnown(server, tokens, n, size, token);
      if reply.next.value !in seen {
        Shrinks(tokens, seen, reply.next.value);
      }
    }
  }

  lemma {:induction false} AnswersPage<Item(!new), Event>(server: Server<Item>, normalise: Item -> Option<Event>,
      limit: nat, tokens: set<string>, n: nat, token: Option<string>, seen: set<string>, items: seq<Item>)
    requires FiniteTokens(server, tokens) && KnownIn(tokens, token) && seen <= tokens && limit >= 1
    requires server(n, PageSize(limit - |Kept(items, normalise)|), token).Page?
    ensures var reply := server(n, PageSize(limit - |Kept(items, normalise)|), token);
      var read := items + Items(reply);
      var events := Take(Kept(read, normalise), limit);
      var reading := ReadOn(server, normalise, limit, tokens, n, token, seen, items);
      var answer := Answer(reading, normalise, limit);
      if IsLast(reply) then answer == Ok(Batch(events, true))
      else
        && reply.next.value in tokens
        && if reply.next.value in seen then answer == Err(CalendarUnavailable)
           else if |events| >= limit then answer == Ok(Batch(events, false))
           else
             && events == Kept(read, normalise)
             && |tokens - (seen + {reply.next.value})| < |tokens - seen|
             && reading == ReadOn(server, normalise, limit, tokens, n + 1, reply.next, seen + {reply.next.value}, read)
  {
    hide Kept, FiniteTokens, ReadOn;
    ReadsPage(server, normalise, limit, tokens, n, token, seen, items);
  }

  /** The page loop, for any server with finitely many tokens. It ends, for every request but the
      first takes a token that was not met before, and it answers what the reading deserves. */
  method ListEvents<Item(!new), Event>(server: Server<Item>, normalise: Item -> Option<Event>, limit: int,
                                       ghost tokens: set<string>)
    returns (r: Result<Batch<Event>, CalendarUnavailable>)
    requires FiniteTokens(server, tokens)
    ensures r == Answer(Read(server, normalise, limit, tokens), normalise, limit)
  {
    hide Kept, FiniteTokens, ReadOn, Answer;
    var events: seq<Event> := [];
    var token: Option<string> := None;
    var seen: set<string> := {};
    var requests := 0;
    ghost var read: seq<Item> := [];
    NothingKept(normalise);
    NothingAnswered(normalise, limit);
    while |events| < limit
      invariant limit < 1 ==> events == []
      invariant limit >= 1 ==> |events| < limit
      invariant KnownIn(tokens, token) && seen <= tokens && events == Kept(read, normalise)
      invariant limit >= 1 ==>
        Read(server, normalise, limit, tokens) == ReadOn(server, normalise, limit, tokens, requests, token, seen, read)
      decreases |tokens - seen|
    {
      var reply := server(requests, PageSize(limit - |events|), token);
      AnswersFailure(server, normalise, limit, tokens, requests, token, seen, read);
      if reply.DeadlineExceeded? {
        return Ok(Batch(events, false));
      }
      if reply.Unavailable? {
        if events != [] {
          return Ok(Batch(events, false));
        }
        return Err(CalendarUnavailable);
      }
      AnswersPage(server, normalise, limit, tokens, requests, token, seen, read);
      ghost var before := |read|;
      assert (read + Items(reply))[..before] == read;
      read := read + Items(reply);
      events := Append(Items(reply), normalise, limit, events, read, before);
      if IsLast(reply) {
        return Ok(Batch(events, true));
      }
      var next := reply.next.value;
      if next in seen {
        return Err(CalendarUnavailable);
      }
      if |events| >= limit {
        return Ok(Batch(events, false));
      }
      seen := seen + {next};
      token := Some(next);
      requests := requests + 1;
    }
    return Ok(Batch(events, true));
  }

  lemma {:induction false} NothingAnswered<Item, Event>(normalise: Item -> Option<Event>, limit: int)
    ensures limit < 1 ==> Answer(Reading([], NotStarted), normalise, limit) == Ok(Batch([], true))
  {
  }

  lemma {:induction false} NothingKept<Item, Event>(normalise: Item -> Option<Event>)
    ensures Kept([], normalise) == []
  {
  }

  // ---- The requests of a reading ----

  function ItemsOf<Item>(replies: seq<Reply<Item>>): seq<Item>
    requires forall i | 0 <= i < |replies| :: replies[i].Page?
  {
    if replies == [] then [] else ItemsOf(replies[..|replies| - 1]) + Items(replies[|replies| - 1])
  }

  /** The token of a request: that of the page before it, none for the first. */
  function TokenOf<Item>(replies: seq<Reply<Item>>, i: nat): Option<string>
    requires i <= |replies| && forall j | 0 <= j < |replies| :: replies[j].Page?
  {
    if i == 0 then None else replies[i - 1].next
  }

  ghost predicate AreNext<Item>(pages: seq<Reply<Item>>) {
    forall i | 0 <= i < |pages| :: pages[i].Page? && !IsLast(pages[i])
  }

  /** Request `i`, with the token of the page before it and for as many events as are missing, is
      answered by page `i`, and the limit is not reached. */
  ghost predicate Follows<Item(!new), Event>(server: Server<Item>, normalise: Item -> Option<Event>, limit: nat,
      pages: seq<Reply<Item>>, i: nat)
    requires AreNext(pages) && i < |pages|
  {
    && pages[i] == server(i, PageSize(limit - |Kept(ItemsOf(pages[..i]), normalise)|), TokenOf(pages, i))
    && |Kept(ItemsOf(pages[..i + 1]), normalise)| < limit
  }

  /** Pages after each of which the reading goes on: none is the last, and no two name the same
      token. */
  ghost predicate GoesOn<Item(!new), Event>(server: Server<Item>, normalise: Item -> Option<Event>, limit: nat,
      pages: seq<Reply<Item>>)
  {
    && AreNext(pages)
    && (forall i, j | 0 <= i < j < |pages| :: pages[i].next != pages[j].next)
    && (forall i: nat | i < |pages| :: Follows(server, normalise, limit, pages, i))
  }

  /** How a reading ends after such pages, and what it has read. */
  ghost predicate EndsWith<Item(!new), Event>(server: Server<Item>, normalise: Item -> Option<Event>, limit: nat,
      pages: seq<Reply<Item>>, reading: Reading<Item>)
    requires GoesOn(server, normalise, limit, pages)
  {
    var before := ItemsOf(pages);
    match server(|pages|, PageSize(limit - |Kept(before, normalise)|), TokenOf(pages, |pages|))
    case DeadlineExceeded => reading == Reading(before, DeadlineMissed)
    case Unavailable => reading == Reading(before, Refused)
    case Page(items, next) =>
      && reading.items == before + (if items.Some? then items.value else [])
      && (reading.end == LastPage <==> next == None || next == Some(""))
      && (reading.end == TokenRepeated <==>
            next.Some? && next.value != "" && exists i | 0 <= i < |pages| :: pages[i].next == next)
      && (reading.end == LimitReached <==>
            && next.Some? && next.value != "" && |Kept(reading.items, normalise)| >= limit
            && forall i | 0 <= i < |pages| :: pages[i].next != next)
      && (reading.end == LastPage || reading.end == TokenRepeated || reading.end == LimitReached)
  }

  /** The tokens met are those that the pages name. */
  ghost predicate Met<Item>(seen: set<string>, pages: seq<Reply<Item>>)
    requires AreNext(pages)
  {
    && (forall i | 0 <= i < |pages| :: pages[i].next.value in seen)
    && (forall t | t in seen :: exists i :: 0 <= i < |pages| && pages[i].next == Some(t))
  }

  lemma {:induction false} MetStep<Item>(seen: set<string>, pages: seq<Reply<Item>>, reply: Reply<Item>)
    requires AreNext(pages) && Met(seen, pages) && reply.Page? && !IsLast(reply) && reply.next.value !in seen
    ensures AreNext(pages + [reply]) && Met(seen + {reply.next.value}, pages + [reply])
    ensures forall i | 0 <= i < |pages| :: pages[i].next != reply.next
  {
    var more := pages + [reply];
    assert more[|pages|].next == Some(reply.next.value);
    forall t | t in seen + {reply.next.value} ensures exists i :: 0 <= i < |more| && more[i].next == Some(t) {
      if i :| 0 <= i < |pages| && pages[i].next == Some(t) {
        assert more[i].next == Some(t);
      }
    }
  }

  lemma {:induction false} ItemsStep<Item>(pages: seq<Reply<Item>>, reply: Reply<Item>)
    requires AreNext(pages) && reply.Page? && !IsLast(reply)
    ensures AreNext(pages + [reply]) && ItemsOf(pages + [reply]) == ItemsOf(pages) + Items(reply)
  {
    assert (pages + [reply])[..|pages|] == pages;
  }

  lemma {:induction false} FollowsStill<Item(!new), Event>(server: Server<Item>, normalise: Item -> Option<Event>,
      limit: nat, pages: seq<Reply<Item>>, reply: Reply<Item>, i: nat)
    requires AreNext(pages) && i < |pages| && Follows(server, normalise, limit, pages, i)
    requires AreNext(pages + [reply])
    ensures Follows(server, normalise, limit, pages + [reply], i)
  {
    hide Kept, PageSize, Items, IsLast;
    var more := pages + [reply];
    assert more[..i + 1] == pages[..i + 1] && more[..i] == pages[..i];
  }

  lemma {:induction false} GoesOnStep<Item(!new), Event>(server: Server<Item>, normalise: Item -> Option<Event>,
      limit: nat, pages: seq<Reply<Item>>, seen: set<string>, reply: Reply<Item>)
    requires GoesOn(server, normalise, limit, pages) && Met(seen, pages)
    requires reply == server(|pages|, PageSize(limit - |Kept(ItemsOf(pages), normalise)|), TokenOf(pages, |pages|))
    requires reply.Page? && !IsLast(reply) && reply.next.value !in seen
    requires |Kept(ItemsOf(pages) + Items(reply), normalise)| < limit
    ensures GoesOn(server, normalise, limit, pages + [reply]) && Met(seen + {reply.next.value}, pages + [reply])
    ensures ItemsOf(pages + [reply]) == ItemsOf(pages) + Items(reply)
  {
    hide Kept, PageSize, Items, IsLast;
    MetStep(seen, pages, reply);
    ItemsStep(pages, reply);
    var more := pages + [reply];
    assert more[..|pages|] == pages && more[..|pages| + 1] == more;
    hide Met, ItemsOf;
    forall i: nat | i < |more| ensures Follows(server, normalise, limit, more, i) {
      if i < |pages| {
        FollowsStill(server, normalise, limit, pages, reply, i);
      }
    }
  }

  predicate Continues<Item, Event>(reply: Reply<Item>, seen: set<string>, items: seq<Item>,
      normalise: Item -> Option<Event>, limit: nat)
  {
    && reply.Page? && !IsLast(reply) && reply.next.value !in seen
    && |Kept(items + Items(reply), normalise)| < limit
  }

  lemma {:induction false} EndsHere<Item(!new), Event>(server: Server<Item>, normalise: Item -> Option<Event>,
      limit: nat, tokens: set<string>, seen: set<string>, pages: seq<Reply<Item>>)
    requires FiniteTokens(server, tokens) && seen <= tokens && GoesOn(server, normalise, limit, pages)
    requires Met(seen, pages) && KnownIn(tokens, TokenOf(pages, |pages|))
    requires !Continues(
      server(|pages|, PageSize(limit - |Kept(ItemsOf(pages), normalise)|), TokenOf(pages, |pages|)), seen,
      ItemsOf(pages), normalise, limit)
    ensures EndsWith(server, normalise, limit, pages,
                     ReadOn(server, normalise, limit, tokens, |pages|, TokenOf(pages, |pages|), seen, ItemsOf(pages)))
  {
    hide Kept, FiniteTokens, PageSize, Follows, ItemsOf;
  }

  lemma {:induction false} ReadingEnds<Item(!new), Event>(server: Server<Item>, normalise: Item -> Option<Event>,
      limit: nat, tokens: set<string>, seen: set<string>, pages: seq<Reply<Item>>)
    returns (all: seq<Reply<Item>>)
    requires FiniteTokens(server, tokens) && seen <= tokens && GoesOn(server, normalise, limit, pages)
    requires Met(seen, pages) && KnownIn(tokens, TokenOf(pages, |pages|))
    ensures GoesOn(server, normalise, limit, all)
    ensures EndsWith(server, normalise, limit, all,
                     ReadOn(server, normalise, limit, tokens, |pages|, TokenOf(pages, |pages|), seen, ItemsOf(pages)))
    decreases |tokens - seen|
  {
    hide Kept, FiniteTokens, PageSize, Follows, EndsWith, ReadOn, Met;
    var size, token := PageSize(limit - |Kept(ItemsOf(pages), normalise)|), TokenOf(pages, |pages|);
    var reply := server(|pages|, size, token);
    all := pages;
    if Continues(reply, seen, ItemsOf(pages), normalise, limit) {
      PageSizeInRange(limit - |Kept(ItemsOf(pages), normalise)|);
      ReadsPage(server, normalise, limit, tokens, |pages|, token, seen, ItemsOf(pages));
      GoesOnStep(server, normalise, limit, pages, seen, reply);
      all := ReadingEnds(server, normalise, limit, tokens, seen + {reply.next.value}, pages + [reply]);
    } else {
      EndsHere(server, normalise, limit, tokens, seen, pages);
    }
  }

  lemma PageSizeInRange(room: int)
    ensures 1 <= PageSize(room) <= MAX_EVENT_LIMIT
  {
  }

  /** A reading is a run of requests, each with the token of the page before, up to the first page
      that is the last, names a token again or fills the limit, or the first request that fails. */
  lemma {:induction false} ReadIsRun<Item(!new), Event>(server: Server<Item>, normalise: Item -> Option<Event>,
      limit: nat, tokens: set<string>)
    requires FiniteTokens(server, tokens) && limit >= 1
    ensures exists pages ::
      && GoesOn(server, normalise, limit, pages)
      && EndsWith(server, normalise, limit, pages, Read(server, normalise, limit, tokens))
  {
    hide FiniteTokens, ReadOn, Kept;
    var none: seq<Reply<Item>> := [];
    assert GoesOn(server, normalise, limit, none) && Met({}, none);
    var pages := ReadingEnds(server, normalise, limit, tokens, {}, none);
    assert EndsWith(server, normalise, limit, pages, Read(server, normalise, limit, tokens));
  }

  // ---- What an answer means, for any server ----

  lemma {:induction false} PageFits<Item, Event>(items: seq<Item>, page: seq<Item>, normalise: Item -> Option<Event>)
    ensures |Kept(items + page, normalise)| <= |Kept(items, normalise)| + |page|
  {
    KeptGrows(items + page, normalise, |items|);
    assert (items + page)[..|items|] == items;
  }

  /** With pages no longer than asked for, no more events are kept than the limit allows. */
  lemma {:induction false} ReadFits<Item(!new), Event>(server: Server<Item>, normalise: Item -> Option<Event>,
      limit: nat, tokens: set<string>, n: nat, token: Option<string>, seen: set<string>, items: seq<Item>)
    requires FiniteTokens(server, tokens) && KnownIn(tokens, token) && seen <= tokens
    requires RespectsSize(server, tokens) && |Kept(items, normalise)| < limit
    ensures |Kept(ReadOn(server, normalise, limit, tokens, n, token, seen, items).items, normalise)| <= limit
    decreases |tokens - seen|
  {
    hide Kept, FiniteTokens;
    var size := PageSize(limit - |Kept(items, normalise)|);
    var reply := server(n, size, token);
    if reply.Page? {
      assert |Items(reply)| <= size;
      PageFits(items, Items(reply), normalise);
      var read := items + Items(reply);
      if !IsLast(reply) && reply.next.value !in seen && |Kept(read, normalise)| < limit {
        NextIsKnown(server, tokens, n, size, token);
        Shrinks(tokens, seen, reply.next.value);
        ReadFits(server, normalise, limit, tokens, n + 1, reply.next, seen + {reply.next.value}, read);
      }
    }
  }

  /** A reading that ended at the limit kept that many events; only a failed request or a repeated
      token ends it early. */
  lemma {:induction false} ReadEnds<Item(!new), Event>(server: Server<Item>, normalise: Item -> Option<Event>,
      limit: nat, tokens: set<string>, n: nat, token: Option<string>, seen: set<string>, items: seq<Item>)
    requires FiniteTokens(server, tokens) && KnownIn(tokens, token) && seen <= tokens
    ensures var reading := ReadOn(server, normalise, limit, tokens, n, token, seen, items);
      && !reading.end.NotStarted?
      && (reading.end.LimitReached? ==> |Kept(reading.items, normalise)| >= limit)
      && (reading.end.DeadlineMissed? || reading.end.Refused? ==> !NeverFails(server, tokens))
    decreases |tokens - seen|
  {
    hide Kept, FiniteTokens, NeverFails;
    var size := PageSize(limit - |Kept(items, normalise)|);
    var reply := server(n, size, token);
    if !reply.Page? {
      FailureMeans(server, tokens, n, size, token);
    } else {
      var read := items + Items(reply);
      if !IsLast(reply) && reply.next.value !in seen && |Kept(read, normalise)| < limit {
        NextIsKnown(server, tokens, n, size, token);
        Shrinks(tokens, seen, reply.next.value);
        ReadEnds(server, normalise, limit, tokens, n + 1, reply.next, seen + {reply.next.value}, read);
      }
    }
  }

  /** What an answer says of the pages received. `complete` is reported exactly when the last page
      was reached (or nothing was asked for). An answer holds every normalised event of every page
      exactly when these fit in the limit, as they do with pages no longer than asked for. An
      incomplete answer is short of the limit only after a failed request. */
  lemma {:induction false} AnswerMeans<Item(!new), Event>(server: Server<Item>, normalise: Item -> Option<Event>,
      limit: int, tokens: set<string>)
    requires FiniteTokens(server, tokens)
    ensures var reading := Read(server, normalise, limit, tokens);
      var r := Answer(reading, normalise, limit);
      && (r.Ok? ==> r.value.events <= Kept(reading.items, normalise))
      && (r.Ok? ==>
            (r.value.events == Kept(reading.items, normalise) <==>
              limit < 1 || |Kept(reading.items, normalise)| <= limit))
      && (r.Ok? ==> (r.value.complete <==> limit < 1 || reading.end.LastPage?))
      && (r.Ok? && limit >= 1 ==> |r.value.events| <= limit)
      && (limit >= 1 && RespectsSize(server, tokens) ==> |Kept(reading.items, normalise)| <= limit)
      && (r.Ok? && limit >= 1 && !r.value.complete && NeverFails(server, tokens) ==> |r.value.events| == limit)
      && (r.Err? <==> reading.end.TokenRepeated? || (reading.end.Refused? && Kept(reading.items, normalise) == []))
      && (reading.end.Refused? ==> !NeverFails(server, tokens))
  {
    hide Kept, FiniteTokens, NeverFails, RespectsSize, ReadOn;
    NothingKept(normalise);
    if limit >= 1 {
      ReadEnds(server, normalise, limit, tokens, 0, None, {}, []);
      if RespectsSize(server, tokens) {
        ReadFits(server, normalise, limit, tokens, 0, None, {}, []);
      }
    }
  }

  // ---- Servers that cut one window into pages ----

  /** What a reading of a window has to answer. Every answer holds the first events of the window,
      at most `limit` of them. `complete` means as many as the limit allows, and so all of them if
      no page was too long; but a limit below one reads nothing. */
  ghost predicate Faithful<Item(!new), Event>(server: Server<Item>, tokens: set<string>, all: seq<Event>, limit: int,
      batch: Batch<Event>)
  {
    && batch.events <= all
    && if limit < 1 then batch == Batch([], true)
       else
         && |batch.events| <= limit
         && (batch.complete ==> batch.events == Take(all, limit))
         && (batch.complete && RespectsSize(server, tokens) ==> batch.events == all)
         && (!batch.complete && NeverFails(server, tokens) ==> |batch.events| == limit)
  }

  /** `complete` tells the truth exactly when the window has no more events than the limit. A
      limit below one breaks this for every window that is not empty. */
  lemma CompleteExactly<Item(!new), Event>(server: Server<Item>, tokens: set<string>, all: seq<Event>, limit: int,
      batch: Batch<Event>)
    requires Faithful(server, tokens, all, limit, batch) && batch.complete
    ensures batch.events == all <==> all == [] || |all| <= limit
  {
  }

  /** Such a server has finitely many tokens. */
  lemma {:induction false} ServesFinitely<Item(!new)>(server: Server<Item>, window: seq<Item>, at: map<string, nat>)
    requires Serves(server, window, at)
    ensures FiniteTokens(server, at.Keys)
  {
    forall n, size, token |
      Asks(at.Keys, size, token) && server(n, size, token).Page? && !IsLast(server(n, size, token))
      ensures server(n, size, token).next.value in at.Keys
    {
      assert Known(at, token) && IsSlice(server(n, size, token), window, at, token);
    }
  }

  lemma {:induction false} PageIsSlice<Item(!new)>(server: Server<Item>, window: seq<Item>, at: map<string, nat>,
      n: nat, size: nat, token: Option<string>)
    requires Serves(server, window, at) && Asks(at.Keys, size, token) && server(n, size, token).Page?
    ensures IsSlice(server(n, size, token), window, at, token)
  {
  }

  /** One page moves a reading from one place of the window to the next. */
  lemma {:induction false} SliceStep<Item>(reply: Reply<Item>, window: seq<Item>, at: map<string, nat>,
      token: Option<string>, items: seq<Item>)
    requires Known(at, token) && reply.Page? && IsSlice(reply, window, at, token)
    requires items == window[..Offset(at, token)]
    ensures items + Items(reply) <= window
    ensures if IsLast(reply) then items + Items(reply) == window
      else
        && reply.next.value in at && at[reply.next.value] <= |window|
        && items + Items(reply) == window[..at[reply.next.value]]
  {
    var to := Offset(at, token) + |Items(reply)|;
    assert items + Items(reply) == window[..to];
    assert window[..|window|] == window;
  }

  /** A reading goes through the window from the front; at the last page it has all of it. */
  lemma {:induction false} ReadsWindow<Item(!new), Event>(server: Server<Item>, normalise: Item -> Option<Event>,
      limit: nat, window: seq<Item>, at: map<string, nat>, tokens: set<string>,
      n: nat, token: Option<string>, seen: set<string>, items: seq<Item>)
    requires Serves(server, window, at) && FiniteTokens(server, tokens) && KnownIn(tokens, token) && seen <= tokens
    requires Known(at, token) && Offset(at, token) <= |window| && items == window[..Offset(at, token)]
    ensures var reading := ReadOn(server, normalise, limit, tokens, n, token, seen, items);
      reading.items <= window && (reading.end.LastPage? ==> reading.items == window)
    decreases |tokens - seen|
  {
    hide Kept, FiniteTokens, Serves, IsSlice;
    var size := PageSize(limit - |Kept(items, normalise)|);
    var reply := server(n, size, token);
    if reply.Page? {
      PageIsSlice(server, window, at, n, size, token);
      SliceStep(reply, window, at, token, items);
      var read := items + Items(reply);
      if !IsLast(reply) && reply.next.value !in seen && |Kept(read, normalise)| < limit {
        NextIsKnown(server, tokens, n, size, token);
        Shrinks(tokens, seen, reply.next.value);
        ReadsWindow(server, normalise, limit, window, at, tokens, n + 1, reply.next, seen + {reply.next.value}, read);
      }
    }
  }

  /** When every page but the last holds something, no token comes twice. */
  lemma {:induction false} NoTokenTwice<Item(!new), Event>(server: Server<Item>, normalise: Item -> Option<Event>,
      limit: nat, window: seq<Item>, at: map<string, nat>, tokens: set<string>,
      n: nat, token: Option<string>, seen: set<string>, items: seq<Item>)
    requires Serves(server, window, at) && Advances(server, tokens) && FiniteTokens(server, tokens)
    requires KnownIn(tokens, token) && seen <= tokens && Known(at, token)
    requires forall t | t in seen :: t in at && at[t] <= Offset(at, token)
    ensures !ReadOn(server, normalise, limit, tokens, n, token, seen, items).end.TokenRepeated?
    decreases |tokens - seen|
  {
    hide Kept, FiniteTokens, Serves, Advances;
    var size := PageSize(limit - |Kept(items, normalise)|);
    var reply := server(n, size, token);
    if reply.Page? && !IsLast(reply) {
      PageIsSlice(server, window, at, n, size, token);
      NotEmpty(server, tokens, n, size, token);
      var read := items + Items(reply);
      if reply.next.value !in seen && |Kept(read, normalise)| < limit {
        NextIsKnown(server, tokens, n, size, token);
        Shrinks(tokens, seen, reply.next.value);
        NoTokenTwice(server, normalise, limit, window, at, tokens, n + 1, reply.next, seen + {reply.next.value}, read);
      }
    }
  }

  lemma {:induction false} NotEmpty<Item(!new)>(server: Server<Item>, tokens: set<string>, n: nat, size: nat,
      token: Option<string>)
    requires Advances(server, tokens) && Asks(tokens, size, token)
    requires server(n, size, token).Page? && !IsLast(server(n, size, token))
    ensures Items(server(n, size, token)) != []
  {
  }

  /** What an answer says of the window, and that there is one unless something goes wrong. */
  lemma {:induction false} WindowAnswer<Item(!new), Event>(server: Server<Item>, normalise: Item -> Option<Event>,
      limit: int, window: seq<Item>, at: map<string, nat>, tokens: set<string>)
    requires Serves(server, window, at) && FiniteTokens(server, tokens)
    ensures var r := Answer(Read(server, normalise, limit, tokens), normalise, limit);
      && (r.Ok? ==> Faithful(server, tokens, Kept(window, normalise), limit, r.value))
      && (NeverFails(server, tokens) && Advances(server, tokens) ==> r.Ok?)
  {
    hide Kept, FiniteTokens, Serves, NeverFails, Advances, RespectsSize, ReadOn;
    AnswerMeans(server, normalise, limit, tokens);
    NothingKept(normalise);
    if limit >= 1 {
      ReadsWindow(server, normalise, limit, window, at, tokens, 0, None, {}, []);
      if Advances(server, tokens) {
        NoTokenTwice(server, normalise, limit, window, at, tokens, 0, None, {}, []);
      }
      var items := Read(server, normalise, limit, tokens).items;
      assert items == window[..|items|];
      KeptGrows(window, normalise, |items|);
    }
  }

  // ---- Two servers ----

  /** Two items on two pages, whatever the size asked for. */
  function TwoPages<Item>(x: Item, y: Item): Server<Item> {
    (n: nat, size: nat, token: Option<string>) =>
      if token.None? then Page(Some([x]), Some("next")) else Page(Some([y]), None)
  }

  /** It serves its window as a server should. */
  lemma {:induction false} TwoPagesServe<Item(!new)>(x: Item, y: Item)
    ensures var server, at := TwoPages(x, y), map["next" := 1];
      && Serves(server, [x, y], at) && RespectsSize(server, at.Keys)
      && NeverFails(server, at.Keys) && Advances(server, at.Keys)
  {
    assert [x, y][0..1] == [x] && [x, y][1..2] == [y];
  }

  lemma {:induction false} ReadsTwoPages<Item(!new), Event>(x: Item, y: Item, normalise: Item -> Option<Event>,
      limit: int)
    requires limit >= 2
    ensures FiniteTokens(TwoPages(x, y), {"next"})
    ensures Read(TwoPages(x, y), normalise, limit, {"next"}) == Reading([x, y], LastPage)
  {
    hide Kept;
    var server, tokens := TwoPages(x, y), {"next"};
    NothingKept(normalise);
    Shrinks(tokens, {}, "next");
    assert [] + [x] == [x] && [x] + [y] == [x, y];
    assert ReadOn(server, normalise, limit, tokens, 1, Some("next"), {} + {"next"}, [x]) == Reading([x, y], LastPage);
  }

  /** Everything on one page, however long. */
  function OnePage<Item>(items: seq<Item>): Server<Item> {
    (n: nat, size: nat, token: Option<string>) => Page(Some(items), None)
  }

  /** Events beyond the limit on a page that is too long are cut off, and the answer is called
      complete all the same. */
  lemma {:induction false} OverlongPage<Item(!new), Event>(items: seq<Item>, normalise: Item -> Option<Event>,
      limit: int)
    requires limit >= 1
    ensures FiniteTokens(OnePage(items), {})
    ensures var reading := Read(OnePage(items), normalise, limit, {});
      && reading == Reading(items, LastPage)
      && Answer(reading, normalise, limit) == Ok(Batch(Take(Kept(items, normalise), limit), true))
  {
    assert [] + items == items;
  }
}
