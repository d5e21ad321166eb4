# Home Cortex: verified model

Home Cortex answers questions about a household, acts through physical bodies, and streams text to
people. This project models the parts of it where a small mistake would go unnoticed, and proves
what those parts are for. Every file is one component; `dafny verify dfyconfig.toml` checks all of
them.

- **Compact transport** (`SemanticSchema`, `SemanticTransport`, `SemanticTransportProofs`,
  `FieldAliases`, `Json`). Objects travel as positional arrays with one aliased tail object.
  Encoding a valid value fails exactly where a union has no branch for a part of it; whatever
  satisfies the derived wire schema decodes to a valid value, and the round trip is the identity
  exactly when encoder and decoder agree on every union branch, which separated branches guarantee.
- **Filter unions** (`SemanticFilters`). The branches that the program generates for the filters of
  its plans are separated, but for one pair: comparing a property with the anchor and with a text.
- **Capability tables** (`Capabilities`). Packing is lossless for every value, marker keys included,
  and never longer without them.
- **Text display** (`DisplayText`). IDs are replaced by names in one pass or while the text
  streams in; every way of cutting the text into chunks shows the same.
- **Exclusive time** (`ExclusiveTime`). The cursor sweep measures a union of intervals, and in a
  nested trace the exclusive times add up to the time covered, exactly when events with equal spans
  are filled from inside; in any trace it is said exactly when a tick is booked twice.
- **Sessions** (`EmbodimentSessions`). Catalog, connection table and presence store follow one step
  function; the rest is about every sequence of calls.
- **Assignments** (`EmbodimentAssignments`). Writers read first and commit later, in any
  interleaving; the transactions alone keep the tables safe.
- **Calendars** (`CalendarPages`, `Calendar`). A page loop under a limit, the merge of several
  calendars, and what a listing says about availability, from whatever servers to the answer.
- **Conversations** (`ConversationStore`). The bounded store is a suffix of an unbounded log, and what a
  conversation holds is said of the operations alone.
- **Session cookie** (`Base64`, `Utf8Text`, `SessionToken`). What is printed parses, only what would be
  printed is accepted, and the signature covers kind, value and expiry.
- **Facts** (`FactProjection`). Filters, exclusions and one row per edge or per entity, for exactly what
  was asked.
- **Arithmetic and scores** (`Calculation`, `LatencyPercentile`, `RowScoring`). Integers are exact, and
  bounded before the range check; percentiles are linear; greedy matching finds a pairing exactly where
  it can.

`Text` holds code-point order, sorted key lists and decimal numerals; `Sorting` the sort by an order
that is given; `Selection` what it means to choose members of a list in order.

Where a promise does not hold of the code, a lemma gives an input that shows it and another says
exactly when it does hold:

- not every valid value can be encoded: `ConstPropertyIsLost`, exactly by `EncodesExactly`;
- not every encoding is read back: `SameLayoutIsMisread` and `FallbackIsRefused`, exactly by
  `DocumentRoundTrip` for values encoded under branches they satisfy; `AgreeingDocument` needs no
  such condition;
- overlapping events book a tick twice: `OverlapCountsTwice`, exactly by `BookedOnceExactly`;
- rows of two moments cannot always be listed: `TornListing`, exactly by `ListableExactly`;
- a traversal filter that compares with the anchor is read back as one that compares with the text
  "anchor", for instance of a date, because formats are not checked: `AnchorIsMisread`, exactly by
  `FilterUnionExactly`;
- a limit below one claims completeness of any window: `CompleteExactly`, which is exact;
- a complete listing can lack events, and `available` be claimed over a busy one: `OverlongPage` and
  `HiddenConflict`, exactly by `CompleteShowsAll`;
- two different records of equal start and id stop the sort: `ChangedEventClashes`, exactly by `Merge`;
- a write to a dropped conversation breaks the suffix: `DroppedConversationWrites`, exactly by
  `SuffixExactly`;
- the greedy match misses pairings: `GreedyMissesPairing`, exactly by `FindsExactly`.

`FactorialExactly` shows that the argument bound of 20 in the code is one more than ever yields a
value.

Every lemma that Dafny would start an induction for carries `{:induction false}`: a proof is what its
body says.

## Model

| member | source | states |
|---|---|---|
| FieldAliases.Symbol | scripts/profiling/semantic_transport.py:51-57 | the digit loop ends and yields the symbol of the index; a negative index yields the empty string |
| FieldAliases.IndexOfSymbol | scripts/profiling/semantic_transport.py:51-57 | the index can be read back from its symbol, so no two indices share one |
| FieldAliases.SymbolOfIndex | scripts/profiling/semantic_transport.py:51-57 | every non-empty lower-case string is the symbol of some index |
| FieldAliases.SymbolOrder | scripts/profiling/semantic_transport.py:51-57 | and symbols come in the order of their indices, shorter ones first: `a` to `z`, then `aa` |
| FieldAliases.AliasesInvertible | scripts/profiling/semantic_transport.py:65-66 | for any field set, `aliases` covers it and `aliases` and `names` undo each other |
| FieldAliases.AliasAt | scripts/profiling/semantic_transport.py:65-66 | the fields are given symbols in the order of their names |
| SemanticSchema.ShapeAdmits | scripts/profiling/semantic_transport.py:109-114 | dropping `enum` and `const` only admits more values, if no property and no definition of these names is met on the way through the value |
| SemanticSchema.ReservedFreeKeeps | scripts/profiling/semantic_transport.py:109-114 | none is met in a value that has no such key, over definitions that have no such name |
| SemanticSchema.PlainKeeps | scripts/profiling/semantic_transport.py:109-114 | nor in any value, if no property and no definition that the schema leads to has such a name |
| SemanticTransport.Resolve | scripts/profiling/semantic_transport.py:101-107 | following references ends at a node that accepts the same values, or nothing satisfies the reference |
| SemanticTransport.ChooseBranch | scripts/profiling/semantic_transport.py:118-139 | the encoder takes the first branch that fits strictly, else the first whose shape fits, else none |
| SemanticTransport.EncodeBranchUnique | scripts/profiling/semantic_transport.py:118-139 | that choice is determined by the value and the branches |
| SemanticTransport.DecodeBranch | scripts/profiling/semantic_transport.py:121-129 | the decoder takes the first branch whose wire schema accepts the value |
| SemanticTransport.PartsExactly | scripts/profiling/semantic_transport.py:143-150 | a wire object can be taken apart exactly with enough slots and no tail, or a tail of aliases of declared fields; each field comes from the tail if its alias is there, else from its slot |
| SemanticTransport.PartsOfAssembled | scripts/profiling/semantic_transport.py:140-158 | slots and tail taken apart give back the fields they were laid out from |
| SemanticTransport.AssembledLayout | scripts/profiling/semantic_transport.py:154-158 | a layout has the required fields first, in alphabetical order, and after them one object of the other fields under their aliases, exactly if there are any |
| SemanticTransport.EncodedObject | scripts/profiling/semantic_transport.py:152-158 | an encoded object is the layout of its encoded fields, each under its own property |
| SemanticTransport.EncodedList | scripts/profiling/semantic_transport.py:159-160 | a list is encoded item by item |
| SemanticTransportProofs.EncodesUnlessStuck | scripts/profiling/semantic_transport.py:116-161 | converting a value that satisfies a schema or its shape fails exactly where a union on the way has no branch whose shape accepts the part there |
| SemanticTransportProofs.ShapeIsNotStuck | scripts/profiling/semantic_transport.py:118-141 | below a branch whose shape accepts the value no union fails any more |
| SemanticTransportProofs.StuckMeetsReserved | scripts/profiling/semantic_transport.py:109-141 | a union that has no branch for a part satisfying it loses a name in each branch the part satisfies |
| SemanticTransportProofs.KeptIsLoyal | scripts/profiling/semantic_transport.py:118-139 | a valid value that loses no name below a union is encoded, and everywhere under the first branch it satisfies |
| SemanticTransportProofs.PlainIsLoyal | scripts/profiling/semantic_transport.py:109-139 | so is every valid value of a schema that has no such name below a union |
| SemanticTransportProofs.ReservedFreeIsLoyal | scripts/profiling/semantic_transport.py:109-139 | and over any schema every valid value that has no such key, if no definition has such a name |
| SemanticTransportProofs.StrictChoice | scripts/profiling/semantic_transport.py:130-139 | where no name is lost the fallback is never used: the encoder takes the first branch the value satisfies |
| SemanticTransportProofs.PartsOfWire | scripts/profiling/semantic_transport.py:84-98 | an array that satisfies the derived schema of an object has all its required parts, each of them a wire form |
| SemanticTransportProofs.EncodeFitsWire | scripts/profiling/semantic_transport.py:116-161 | the encoding of a valid value satisfies the derived wire schema, if every union took a branch that the part there satisfies |
| SemanticTransportProofs.DecodeIsValid | scripts/profiling/semantic_transport.py:116-161 | whatever satisfies the wire schema decodes, and to a valid value |
| SemanticTransportProofs.RoundTripIff | scripts/profiling/semantic_transport.py:116-161 | then decoding gives the value back exactly when both converters take the same branch everywhere |
| SemanticTransportProofs.AgreeingRoundTrips | scripts/profiling/semantic_transport.py:116-161 | over any schema a value that fits comes back if both converters take the same branch everywhere |
| SemanticTransportProofs.AgreeingFitsWire | scripts/profiling/semantic_transport.py:116-161 | and the encoding of a valid one satisfies the derived wire schema |
| SemanticTransportProofs.DisjointIsSeparated | scripts/profiling/semantic_transport.py:118-129 | branches with disjoint wire forms are separated |
| SemanticTransportProofs.LayoutsDisjoint | scripts/profiling/semantic_transport.py:88-95 | objects whose numbers of slots cannot coincide have disjoint wire forms |
| SemanticTransportProofs.ScalarsDisjoint | scripts/profiling/semantic_transport.py:84-99 | a scalar that is no array and an object have disjoint wire forms |
| SemanticTransportProofs.ListsDisjoint | scripts/profiling/semantic_transport.py:84-99 | neither have a scalar that is no array and a list |
| SemanticTransportProofs.TailsDisjoint | scripts/profiling/semantic_transport.py:88-95 | an object has no wire form in common with one that has a required field, never an object, where the first has its tail |
| SemanticTransportProofs.SlotsDisjoint | scripts/profiling/semantic_transport.py:88-95 | objects with one slot in common whose wire forms are disjoint have disjoint wire forms themselves |
| SemanticTransportProofs.EnumsDisjoint | scripts/profiling/semantic_transport.py:84-99 | constants and enumerations without a common value are disjoint |
| SemanticTransportProofs.RefsDisjoint | scripts/profiling/semantic_transport.py:101-107 | references are disjoint when the definitions they lead to are |
| SemanticTransportProofs.LeavesAreSeparated | scripts/profiling/semantic_transport.py:161 | overlapping scalar branches are separated too, since scalars travel unchanged |
| SemanticTransportProofs.SeparatedAgree | scripts/profiling/semantic_transport.py:118-139 | over separated unions both converters take the same branch everywhere |
| SemanticTransportProofs.EncodesExactly | scripts/profiling/semantic_transport.py:163-169 | over any schema `encode` refuses exactly the invalid documents, and stops at a union exactly for the valid ones that have no branch there |
| SemanticTransportProofs.EncodesExactlyValid | scripts/profiling/semantic_transport.py:163-169 | `encode` succeeds exactly for valid values, if the schema has no property or definition called `enum` or `const` below a union |
| SemanticTransportProofs.DecodesExactlyWire | scripts/profiling/semantic_transport.py:187-194 | `decode` succeeds exactly for the right version and a valid wire form; the last validity check never fires |
| SemanticTransportProofs.AgreeingDocument | scripts/profiling/semantic_transport.py:163-194 | over any schema a valid document on which the converters agree comes back |
| SemanticTransportProofs.DocumentRoundTrip | scripts/profiling/semantic_transport.py:163-194 | a valid document encoded under branches it satisfies decodes to a valid document, and to itself exactly when the converters agree |
| SemanticTransportProofs.UnambiguousRoundTrip | scripts/profiling/semantic_transport.py:163-194 | over a schema with separated unions that lose no name every valid document comes back |
| SemanticTransportProofs.SameLayoutIsMisread | scripts/profiling/semantic_transport.py:121-129 | two branches with one required integer each share their wire form: a value of the second is decoded as a value of the first |
| SemanticTransportProofs.ConstPropertyIsLost | scripts/profiling/semantic_transport.py:109-114 | a required property called `const` makes a union reject a value that satisfies it |
| SemanticTransportProofs.FallbackIsRefused | scripts/profiling/semantic_transport.py:130-139 | with a loosely fitting branch beside it the value is encoded under that one, and `decode` refuses what was written |
| SemanticFilters.SlotAt | scripts/profiling/semantic_transport.py:88-91 | each required field of a filter stands at its alphabetical place |
| SemanticFilters.DifferentApart | src/home_cortex/semantic/contracts.py:178-219 | two branches of a filter union that differ in kind, property or operators have no wire form in common |
| SemanticFilters.TwinsExactly | src/home_cortex/semantic/contracts.py:190-206 | the comparisons of one property with a literal and with the anchor are separated exactly when the literal does not accept the text `anchor` |
| SemanticFilters.AnchorIsMisread | src/home_cortex/semantic/contracts.py:190-206 | if it does, a comparison with the anchor comes back as a valid comparison with that text |
| SemanticFilters.UnionExactly | src/home_cortex/semantic/contracts.py:178-219 | a union of such branches is separated exactly if it holds no such pair |
| SemanticFilters.FiltersApart | src/home_cortex/semantic/contracts.py:178-219 | in the branches generated for distinct properties any two differ in a tag or are such a pair, and which properties yield one |
| SemanticFilters.FilterUnionExactly | src/home_cortex/semantic/contracts.py:296-312 | so a filter union of the program is separated exactly if no property that a traversal compares has a literal that accepts `anchor` |
| Capabilities.Lossless | scripts/profiling/semantic_transport.py:236-270 | unpacking the packed form of any value gives the value, marker keys included |
| Capabilities.NeverLonger | scripts/profiling/semantic_transport.py:236-257 | without marker keys the canonical text of the packed form is never longer |
| Capabilities.PackObject | scripts/profiling/semantic_transport.py:244-257 | an object is packed as a literal if it uses a marker key, else as a table exactly when there are common columns and the text of the table is shorter, else field by field |
| Capabilities.Columns | scripts/profiling/semantic_transport.py:247-250 | there are common columns exactly if the members are at least two objects that all have the same keys |
| Json.ArrayExample | scripts/profiling/semantic_transport.py:20-32 | canonical text is compact: no spaces, nothing but commas between items |
| DisplayText.MatchIsLongest | src/home_cortex/common/display.py:8-11 | the greedy scan finds the longest ID that may start at a position, and finds one whenever there is one |
| DisplayText.CharClasses | src/home_cortex/common/display.py:8-14 | which characters may begin an ID, go on in it, and are held back by a stream |
| DisplayText.MatchEndBefore | src/home_cortex/common/display.py:12-14 | no match crosses a place where the text before ends in no ID character |
| DisplayText.RenderSplits | src/home_cortex/common/display.py:101-117 | rendering splits at every such place, lookbehind included |
| DisplayText.IdIsReplaced | src/home_cortex/common/display.py:101-117 | an ID between such a place and a rest that does not go on with it is replaced, and what is around it is rendered by itself |
| DisplayText.UnknownIdsStay | src/home_cortex/common/display.py:112-117 | a text whose IDs resolve to themselves is shown unchanged |
| DisplayText.NobodyKnown | src/home_cortex/common/display.py:75-117 | with no entity registered every text is shown unchanged |
| DisplayText.ReplacementShows | src/home_cortex/common/display.py:75-115 | an ID is shown as the form of address for a person in address mode if there is one, else as the display name if there is one, else as itself; a person in ID mode and an unknown ID always as itself |
| DisplayText.StaysExactly | src/home_cortex/common/display.py:75-115 | if no entity is called by its own ID, an ID stays exactly when it is unknown, a person in ID mode, or has nothing to show in the mode |
| DisplayText.KnownIdShowsName | src/home_cortex/common/display.py:75-117 | in a rendered text a known ID that has a name is replaced by the right one |
| DisplayText.Boundary | src/home_cortex/common/display.py:140-145 | what is held back is exactly the longest trailing run of ID characters |
| DisplayText.StreamingEqualsRendering | src/home_cortex/common/display.py:137-159 | for every text and every way of cutting it, the fed output and the rendering of the rest are the rendering of the whole |
| DisplayText.EmittedIsPrefix | src/home_cortex/common/display.py:137-150 | what has been shown after any number of chunks is a prefix of the final text |
| DisplayText.DisplayTextStream.Feed | src/home_cortex/common/display.py:137-150 | no text is lost, the output extends what was shown by a prefix of the final text, and only ID characters stay pending |
| DisplayText.DisplayTextStream.Finish | src/home_cortex/common/display.py:152-159 | everything shown is the rendering of everything fed |
| ExclusiveTime.Sweep | scripts/profiling/token_latency_audit.py:75-78 | the cursor sweep computes the measure of the union of its intervals |
| ExclusiveTime.SortedIsPermutation | scripts/profiling/token_latency_audit.py:71 | the swept list is in order and holds the same intervals |
| ExclusiveTime.IntervalsCoverChildren | scripts/profiling/token_latency_audit.py:71-74 | the swept intervals cover exactly the ticks of other contained events |
| ExclusiveTime.OwnIsRemainder | scripts/profiling/token_latency_audit.py:79 | the computed remainder is the number of ticks no contained event covers |
| ExclusiveTime.Own | scripts/profiling/token_latency_audit.py:79 | an event's exclusive time lies between zero and its duration |
| ExclusiveTime.Exclusive | scripts/profiling/token_latency_audit.py:66-80 | there is a total for every stage that occurs, and it is the sum over its events |
| ExclusiveTime.StagesAddUp | scripts/profiling/token_latency_audit.py:68-80 | the totals together are the exclusive times of all events, each once |
| ExclusiveTime.BookedOnceExactly | scripts/profiling/token_latency_audit.py:66-80 | in any trace no tick is booked twice exactly when every tick shared by two events that do not contain each other lies in an event that one of them contains |
| ExclusiveTime.TotalIsOwned | scripts/profiling/token_latency_audit.py:66-80 | in any trace the exclusive times add up to at least the ticks that are owned, and to just these exactly when none is booked twice |
| ExclusiveTime.Conservation | scripts/profiling/token_latency_audit.py:66-80 | in a nested trace the exclusive times add up to the time covered exactly when events with equal spans are filled by events strictly inside |
| ExclusiveTime.DistinctSpansConserve | scripts/profiling/token_latency_audit.py:66-80 | with pairwise distinct spans they always do |
| ExclusiveTime.OverlapCountsTwice | scripts/profiling/token_latency_audit.py:66-80 | without nesting a shared tick is booked twice |
| EmbodimentSessions.SessionIdInjective | src/home_cortex/agents/embodiments.py:139-141 | different sequence numbers give different session ids |
| EmbodimentSessions.Catalogue | src/home_cortex/agents/embodiments.py:25-44 | records are catalogued under their ids exactly when no id occurs twice and every controlling agent is known; the error is that of the first record at fault |
| EmbodimentSessions.EmbodimentCatalog.CacheResolved | src/home_cortex/agents/embodiments.py:70-78 | a resolved record replaces the cached one and no other, and its controlling agent becomes known |
| EmbodimentSessions.EmbodimentConnections.Connect | src/home_cortex/agents/embodiments.py:125-145 | connecting is the register step: a fresh id, the offered subset, and replacement only of an online session |
| EmbodimentSessions.EmbodimentConnections.Touch | src/home_cortex/agents/embodiments.py:228-250 | an online session is refreshed and keeps its capabilities unless new ones are given; anything else changes nothing |
| EmbodimentSessions.EmbodimentConnections.Close | src/home_cortex/agents/embodiments.py:165-176 | an unknown body, a clock without offset and a body without session are errors; otherwise the body goes offline and advertises nothing, twice without effect |
| EmbodimentSessions.EmbodimentSession.RequireCurrent | src/home_cortex/agents/session.py:140-150 | the gate lets a call pass exactly with the current id, and offline only for a disconnect; it does not look at the catalog |
| EmbodimentSessions.EmbodimentSession.NoteResolved | src/home_cortex/agents/session.py:40-44 | the record is cached and its body registered with the presence store, and nothing else happens |
| EmbodimentSessions.EmbodimentSession.Register | src/home_cortex/agents/session.py:46-58 | the method does its step and nothing else |
| EmbodimentSessions.EmbodimentSession.UpdateCapabilities | src/home_cortex/agents/session.py:60-74 | the method does its step and nothing else |
| EmbodimentSessions.EmbodimentSession.Heartbeat | src/home_cortex/agents/session.py:76-84 | the method does its step and nothing else |
| EmbodimentSessions.EmbodimentSession.Disconnect | src/home_cortex/agents/session.py:86-94 | the method does its step and nothing else |
| EmbodimentSessions.EmbodimentSession.SubmitTelemetry | src/home_cortex/agents/session.py:96-118 | parse, gate, clock, admission and refresh in this order, and nothing else |
| EmbodimentSessions.EmbodimentPresence.RegisterEmbodiment | src/home_cortex/spatial/presence.py:175-178 | a body is registered and nothing else changes |
| EmbodimentSessions.EmbodimentPresence.Submit | src/home_cortex/spatial/presence.py:185-220 | a newer sample becomes current, an older one is ignored, a repeated one is a duplicate, and an unknown body or space or a different sample of the same time is refused without effect |
| EmbodimentSessions.StepFrame | src/home_cortex/agents/session.py:46-118 | a rejected call changes nothing, and an accepted one touches only its own body |
| EmbodimentSessions.RecordsAreLastRead | src/home_cortex/agents/embodiments.py:70-78 | over every run the catalog holds the records read last and knows the agents it started with and theirs |
| EmbodimentSessions.SessionIsLastIssued | src/home_cortex/agents/embodiments.py:125-145 | over every run a session carries the id issued last for its body |
| EmbodimentSessions.OnlineIsConnected | src/home_cortex/agents/embodiments.py:125-176 | over every run a session is online exactly when its body registered and did not disconnect since |
| EmbodimentSessions.AdvertisedIsGranted | src/home_cortex/agents/embodiments.py:192-226 | over every run a session advertises what the last accepted offer asked for, the names in it or all that is configured, and nothing while offline |
| EmbodimentSessions.GrantedIsConfigured | src/home_cortex/agents/embodiments.py:209-226 | a grant is a subset of the capabilities of the record it was checked against |
| EmbodimentSessions.TimesAreLast | src/home_cortex/agents/embodiments.py:125-250 | over every run a session knows the times of the last accepted register and of the last accepted call that found its body connected or connected it |
| EmbodimentSessions.IssuedIdsDistinct | src/home_cortex/agents/embodiments.py:138-145 | over every run no two registrations are given the same id |
| EmbodimentSessions.IssuedIsNumbered | src/home_cortex/agents/embodiments.py:138-141 | the id of a registration is made of the instance and the number of the registration |
| EmbodimentSessions.PresenceFollowsCatalog | src/home_cortex/agents/registration.py:150-157 | over every run each body of the catalog is registered with the presence store |
| EmbodimentSessions.CurrentIsNewest | src/home_cortex/spatial/presence.py:203-220 | over every run the current sample of a body is the newest one admitted, and no other admitted sample has its time |
| EmbodimentSessions.ArrivalOrderIsIrrelevant | src/home_cortex/spatial/presence.py:203-220 | runs that admitted the same samples of a body, in whatever order and however often, leave the same one current |
| EmbodimentSessions.StaysLinked | src/home_cortex/agents/embodiments.py:38-44 | over every run each record is kept under its id and its controlling agent is known |
| EmbodimentSessions.AcceptedExactly | src/home_cortex/agents/session.py:46-150 | over every run a call is accepted exactly when the history of calls and replies allows it, telemetry included, and a rejected one leaves the state unchanged |
| EmbodimentSessions.RejectedExactly | src/home_cortex/agents/session.py:46-150 | over every run the error of a rejected call is the first one that the history of calls and replies gives cause for |
| EmbodimentSessions.RepliesExactly | src/home_cortex/agents/session.py:46-118 | an accepted call is answered with the session it leaves behind and with what happened: `replaced` exactly if the body was connected, a sample accepted, repeated or ignored by its place among those admitted |
| EmbodimentSessions.EmbodimentDirectory.Availability | src/home_cortex/agents/presence.py:76-94 | the chain of checks names the first condition that fails |
| EmbodimentSessions.AvailableExactly | src/home_cortex/agents/presence.py:76-94 | over every run an action is available exactly when the body is linked to the agent, configured for the capability now, connected and granted it |
| EmbodimentSessions.CodeExactly | src/home_cortex/agents/presence.py:76-94 | over every run each code is given exactly under the conditions that the history decides |
| EmbodimentSessions.NothingAfterDisconnect | src/home_cortex/agents/presence.py:76-94 | no action is available between a disconnect and the next accepted register |
| EmbodimentAssignments.EdgeKeyInjective | src/home_cortex/persistence/record_ids.py:43-49 | different bodies have different edge keys, with or without a colon in their key |
| EmbodimentAssignments.Tables.EnsureAgent | src/home_cortex/mutation/embodiments.py:153-161 | an agent is added and nothing else changes |
| EmbodimentAssignments.Tables.Commit | src/home_cortex/mutation/embodiments.py:72-151 | one transaction takes effect as a whole, as `RecordEffect` and `AssignmentEffect` say, or reports its error and changes nothing, and keeps the tables consistent |
| EmbodimentAssignments.AtMostOneAssignment | src/home_cortex/mutation/embodiments.py:113-115 | in consistent tables a body has at most one agent and one edge |
| EmbodimentAssignments.TransactionConsistent | src/home_cortex/mutation/embodiments.py:72-151 | every transaction keeps every edge between two existing records and under the key of its body |
| EmbodimentAssignments.AssignSucceedsExactly | src/home_cortex/mutation/embodiments.py:128-137 | an assignment commits exactly when body and agent exist and no other agent has the body |
| EmbodimentAssignments.AssignmentEffect | src/home_cortex/mutation/embodiments.py:72-151 | a transaction removes exactly the assignments of a body it unassigns or deletes and adds at most the one asked for |
| EmbodimentAssignments.RecordEffect | src/home_cortex/mutation/embodiments.py:72-107 | a transaction leaves a body with a content exactly if it creates or updates it with that content, or the body had it and is not created, updated or deleted |
| EmbodimentAssignments.FailsExactly | src/home_cortex/mutation/embodiments.py:72-151 | on consistent tables a transaction fails exactly for a create of a body that exists, anything else for one that does not, an unknown agent, or another agent that has the body |
| EmbodimentAssignments.IndexByBody | src/home_cortex/mutation/embodiments.py:40-48 | the first loop of `list` indexes every edge by its body, or stops at a second edge of one body |
| EmbodimentAssignments.List | src/home_cortex/mutation/embodiments.py:37-59 | a listing shows every node with exactly its assignment, and fails exactly for a body with two edges or an edge to no node read |
| EmbodimentAssignments.ListableExactly | src/home_cortex/mutation/embodiments.py:37-59 | rows read at two moments can be listed exactly when every body assigned at the second existed at the first |
| EmbodimentAssignments.SnapshotListable | src/home_cortex/mutation/embodiments.py:37-59 | rows read together can always be listed |
| EmbodimentAssignments.RunConsistent | src/home_cortex/mutation/embodiments.py:72-151 | in every interleaving of reads and commits each body has at most one agent and both ends of every edge exist |
| EmbodimentAssignments.LostOnlyByRemoval | src/home_cortex/mutation/embodiments.py:97-151 | over every run an assignment disappears only by a committed unassign or delete of its body |
| EmbodimentAssignments.GainedOnlyByAssign | src/home_cortex/mutation/embodiments.py:109-139 | over every run an assignment appears only by a commit of it while body and agent exist and no other agent has the body |
| EmbodimentAssignments.NeverOverwritten | src/home_cortex/mutation/embodiments.py:109-139 | over every run a body changes agents only across a committed removal |
| EmbodimentAssignments.RecordIsLast | src/home_cortex/mutation/embodiments.py:72-107 | over every run a body exists exactly if it was not deleted since its last committed create or update, and has the content given then |
| EmbodimentAssignments.GoneOnlyByDelete | src/home_cortex/mutation/embodiments.py:97-107 | over every run a body disappears only by a committed delete of it |
| EmbodimentAssignments.UninterruptedReads | src/home_cortex/mutation/embodiments.py:72-139 | the reads of an uninterrupted call let it come to its transaction exactly if they find what they look for; otherwise the transaction would fail or change nothing |
| EmbodimentAssignments.UninterruptedCall | src/home_cortex/mutation/embodiments.py:72-151 | a call that nobody interrupts does exactly what its transaction alone would do |
| EmbodimentAssignments.TornListing | src/home_cortex/mutation/embodiments.py:37-59 | a listing whose two reads straddle a create and an assign fails although the tables are consistent at both |
| CalendarPages.PageSize | src/home_cortex/capabilities/calendar.py:453 | a request asks for between one and a hundred events, and for no more than fit |
| CalendarPages.Append | src/home_cortex/capabilities/calendar.py:407-419 | a page adds its normalised events up to the limit |
| CalendarPages.KeptExactly | src/home_cortex/capabilities/calendar.py:407-419 | every item that can be normalised gives its event, in order |
| CalendarPages.ListEvents | src/home_cortex/capabilities/calendar.py:378-434 | whatever the server answers, as long as it knows finitely many page tokens, the loop ends and answers what the pages received deserve |
| CalendarPages.ReadIsRun | src/home_cortex/capabilities/calendar.py:378-434 | a reading is a run of requests, each for as many events as are missing and with the token of the page before, up to the first page that is the last, repeats a token or fills the limit, or the first request that fails |
| CalendarPages.AnswerMeans | src/home_cortex/capabilities/calendar.py:378-434 | for any such server: the events are a prefix of what all pages received hold, and all of it exactly when that fits in the limit, as it does with pages no longer than asked for; `complete` means that the last page was reached; it is an error exactly if a token was repeated, or a request refused before an event was kept; an incomplete answer is short of the limit only after a failed request |
| CalendarPages.WindowAnswer | src/home_cortex/capabilities/calendar.py:378-434 | from a server that cuts one window into pages the events are a prefix of the window and `complete` means as many as the limit allows; if no request fails and pages get on, there is an answer |
| CalendarPages.ServesFinitely | src/home_cortex/capabilities/calendar.py:422-431 | such a server knows finitely many tokens |
| CalendarPages.TwoPagesServe | src/home_cortex/capabilities/calendar.py:378-434 | there are servers that cut a window with events into pages, respect the size, never fail and get on |
| CalendarPages.OverlongPage | src/home_cortex/capabilities/calendar.py:407-424 | events beyond the limit on a page that is too long are cut off, and the answer is complete all the same |
| CalendarPages.CompleteExactly | src/home_cortex/capabilities/calendar.py:391-434 | a complete answer holds all events exactly when they fit in the limit; a limit below one claims completeness of any window |
| Calendar.Authorized | src/home_cortex/capabilities/calendar.py:253-281 | exactly the readable calendars that match both filters are selected; none is an error |
| Calendar.AuthorizedChooses | src/home_cortex/capabilities/calendar.py:264-281 | each is selected once, in the order of the configuration |
| Calendar.ArrangedUnique | src/home_cortex/capabilities/calendar.py:164 | the order by start and id determines the sorted list unless two records clash |
| Calendar.Merge | src/home_cortex/capabilities/calendar.py:145-178 | what was fetched, truncated and unavailable is reported in order; two different records with equal start and id stop the sort |
| Calendar.MergedReports | src/home_cortex/capabilities/calendar.py:145-178 | the listing tells the selected calendars that were read, that failed and of which something is missing, each in order, and shows the first events by start and id of what the calendars contribute |
| Calendar.EarliestEvents | src/home_cortex/capabilities/calendar.py:145-178 | if every read gave its whole window or exactly the limit, the result is sorted and no event left out starts before one shown |
| Calendar.ListingIsExact | src/home_cortex/capabilities/calendar.py:145-178 | a listing shows only events of selected calendars, and a complete one shows all of them |
| Calendar.LoadBinding | src/home_cortex/capabilities/calendar.py:180-207 | a calendar is loaded with what the pages read of it deserve; one that takes too long counts as failed |
| Calendar.LoadAll | src/home_cortex/capabilities/calendar.py:136-146 | every selected calendar is loaded, in order |
| Calendar.MergedHasNoClash | src/home_cortex/capabilities/calendar.py:136-178 | if the windows of reliable calendars hold no clashing records, the merge does not fail |
| Calendar.CompleteShowsAll | src/home_cortex/capabilities/calendar.py:145-178 | a complete listing shows each record as often as it was read exactly when the events of each calendar fit in the limit |
| Calendar.ReliableCalendars | src/home_cortex/capabilities/calendar.py:119-178 | there are reliable calendars that hold events |
| Calendar.ChangedEventClashes | src/home_cortex/capabilities/calendar.py:164 | an event that changes between two pages stops the sort |
| Calendar.ListEvents | src/home_cortex/capabilities/calendar.py:119-178 | from any servers to the listing: it fails exactly if every read fails or two records that were read cannot be compared; it tells which calendars were read, which failed and why, and of which something is missing; it shows the first events of what was read; a complete listing shows everything on all pages exactly when the events of each calendar fit in the limit; over fixed windows it is exact and earliest, and reliable servers without clashing records always get one |
| Calendar.CheckAvailability | src/home_cortex/capabilities/calendar.py:209-251 | from any servers: the conflicts are exactly the busy, not cancelled events of a listing, in its order; `available` is claimed exactly for a checked answer without one, and only after every selected calendar was read to its last page; the conflicts of a checked answer are all such events that were read, each as often as it was, if the events of each calendar fit in the limit, as they do with pages no longer than asked for, and all such events of the windows where servers cut such |
| Calendar.HiddenConflict | src/home_cortex/capabilities/calendar.py:209-251 | a busy event beyond the limit on a page that is too long is not seen, and the answer is `available` |
| ConversationStore.Store.Create | src/home_cortex/conversation/store.py:47-76 | a conversation is added and the oldest are dropped down to the maximum; a negative maximum empties the store and fails |
| ConversationStore.Store.Evict | src/home_cortex/conversation/store.py:74-75 | popping from the front leaves the newest entries up to the maximum; a negative maximum empties the store and fails |
| ConversationStore.Store.SetActiveEmbodiment | src/home_cortex/conversation/store.py:94-102 | a known conversation is changed and moves to the end; an unknown one changes nothing |
| ConversationStore.Store.Append | src/home_cortex/conversation/store.py:104-124 | the message is added, the first user message names the conversation, and it moves to the end |
| ConversationStore.Store.Delete | src/home_cortex/conversation/store.py:91-92 | the conversation is taken out, and only it |
| ConversationStore.Store.Get | src/home_cortex/conversation/store.py:78-80 | a known conversation is returned, and nothing changes |
| ConversationStore.StoreIsSuffixOfLog | src/home_cortex/conversation/store.py:47-124 | after every run whose writes name retained conversations the store is a suffix of the unbounded log, in order and in contents |
| ConversationStore.KeepsSuffixExactly | src/home_cortex/conversation/store.py:47-124 | a change keeps that exactly when it names no dropped conversation, or the store is empty and the conversation comes last in the log in any case |
| ConversationStore.SuffixExactly | src/home_cortex/conversation/store.py:47-124 | over every run the store is a suffix of the log at every moment exactly when each operation keeps it so |
| ConversationStore.StoreHolds | src/home_cortex/conversation/store.py:47-124 | after every run, whatever was dropped, a conversation in the store is as it was created, with the messages appended since in order, the title of its last first user message or its greeting, the embodiment set last and the time of the last write |
| ConversationStore.LogHolds | src/home_cortex/conversation/store.py:47-124 | so is every conversation in the log |
| ConversationStore.LogNames | src/home_cortex/conversation/store.py:47-124 | over every run the log holds exactly the conversations created and not deleted since |
| ConversationStore.LogInPlace | src/home_cortex/conversation/store.py:73-123 | in the order in which they were written to last, or created if not since |
| ConversationStore.DroppedConversationWrites | src/home_cortex/conversation/store.py:74-124 | create, create, append to the first: with room for one the log ends in the first and the store holds the second |
| ConversationStore.StoreIsBounded | src/home_cortex/conversation/store.py:74-75 | the store never holds more than the maximum, and no id twice |
| ConversationStore.NothingDroppedWhileRoom | src/home_cortex/conversation/store.py:74-75 | nothing is dropped while everything fits |
| ConversationStore.ListingIsNewestFirst | src/home_cortex/conversation/store.py:82-89 | with a moving clock a person's listing is the order of last writes reversed |
| Base64.RoundTrip | src/home_cortex/conversation/session.py:16-22 | unpadded base64url read back by the lenient decoder gives the bytes |
| Base64.SymbolsInOrder | src/home_cortex/conversation/session.py:16-22 | the 64 symbols stand for their numbers in the order of the URL-safe alphabet |
| Base64.GroupOfThree | src/home_cortex/conversation/session.py:16-22 | three bytes make four symbols whose numbers are the digits to base 64 of the 24-bit number that the bytes are |
| Base64.GroupOfTwo | src/home_cortex/conversation/session.py:16-22 | two bytes left over make three symbols, whose numbers are the digits of the bytes with two zero bits behind them |
| Base64.GroupOfOne | src/home_cortex/conversation/session.py:16-22 | one byte left over makes two, with four zero bits behind it |
| Utf8Text.Utf8RoundTrip | src/home_cortex/conversation/session.py:16-22 | strict UTF-8 decoding undoes encoding |
| Utf8Text.Utf8Form | src/home_cortex/conversation/session.py:16-22 | a character is one to four bytes, no more than it needs, and the first tells how many |
| Utf8Text.Utf8Examples | src/home_cortex/conversation/session.py:16-22 | a character of each length, as other programs write it |
| SessionToken.ReadSigned | src/home_cortex/conversation/session.py:43 | a printed integer reads back, in spite of the spaces, signs and underscores that reading tolerates |
| SessionToken.IssuedParses | src/home_cortex/conversation/session.py:25-51 | a printed token parses to its kind and value exactly while its expiry lies in the window |
| SessionToken.ValidForItsLifetime | src/home_cortex/conversation/session.py:31-51 | a token is accepted at every moment from issue to expiry |
| SessionToken.AcceptedAreIssued | src/home_cortex/conversation/session.py:37-51 | accepted are exactly the printed tokens with an expiry in the window, whose signatures `AcceptedSignature` describes |
| SessionToken.AcceptedIsSigned | src/home_cortex/conversation/session.py:37-51 | a token is accepted with a kind and a value only if its last part is the signature of `gui:`, kind, value and the expiry it shows |
| SessionToken.AcceptedSignature | src/home_cortex/conversation/session.py:37-51 | so the signature covers the kind and the value that are accepted |
| SessionToken.SignatureDetermines | src/home_cortex/conversation/session.py:32-51 | under an injective signature two accepted tokens with the same signature are the same, and so are their kinds and values |
| SessionToken.PayloadInjective | src/home_cortex/conversation/session.py:32 | the signed payload determines kind, value and expiry |
| FactProjection.Judge | src/home_cortex/facts/engine.py:565-584 | an entity passes exactly when every filter passes, as `PassesExactly` says of each |
| FactProjection.JudgeIsFirst | src/home_cortex/facts/engine.py:565-584 | otherwise the verdict is that of the first filter that does not pass |
| FactProjection.RelationMeaning | src/home_cortex/facts/engine.py:661-681 | a condition on the relation passes exactly if some edge has a value that satisfies it, is rejected if none has, and fails without a column, with an unsound value or without a value |
| FactProjection.PredicateMeaning | src/home_cortex/facts/engine.py:683-752 | a named predicate passes exactly if every role on the edges is one that matches and is rejected if none is; mixed roles, unsound ones and unknown names fail; without a role the entity decides |
| FactProjection.PassesExactly | src/home_cortex/facts/engine.py:565-752 | so which filters pass is said of the edges alone |
| FactProjection.VerdictIgnoresOrder | src/home_cortex/facts/engine.py:661-752 | no verdict depends on the order or the repetition of edges |
| FactProjection.BindEdges | src/home_cortex/facts/engine.py:545-548 | the edges kept are those that satisfy all conditions on the relation at once; one that cannot be judged fails the query |
| FactProjection.JudgeAll | src/home_cortex/facts/engine.py:555-605 | kept are exactly the passing entities, reported exactly the failing ones, in order |
| FactProjection.EveryEntityOnce | src/home_cortex/facts/engine.py:555-605 | every entity is kept, rejected or reported, and only one of these |
| FactProjection.FilterCollection | src/home_cortex/facts/engine.py:533-615 | the filter stage leaves the passing entities with their edges, and fails exactly when a condition cannot be judged and cannot be reported |
| FactProjection.ProjectEntity | src/home_cortex/facts/engine.py:197-228 | one entity gives one row per group of its edges |
| FactProjection.ProjectEach | src/home_cortex/facts/engine.py:182-229 | the failure reports come first, then the rows of each entity in order |
| FactProjection.RowsShowEachEdgeOnce | src/home_cortex/facts/engine.py:196-228 | with distinct ids each edge of an entity is shown by exactly one row, and no other edge is, for rows per edge and per entity |
| FactProjection.EachWantedEdgeOnce | src/home_cortex/facts/engine.py:545-554 | rows per edge match one to one the edges that satisfy all edge conditions and whose entity passes every other filter |
| FactProjection.RowBindsOneEdge | src/home_cortex/facts/engine.py:196-228 | each such row is computed from its entity and its one edge alone |
| FactProjection.ExecuteEach | src/home_cortex/facts/engine.py:112-131 | exclusion, filters and projection together answer exactly what was asked: one row for each edge, or entity, that satisfies every filter and is not excluded, one report for each that cannot be judged, and nothing else |
| Calculation.QuotientAndRemainder | src/home_cortex/capabilities/calculation.py:91-92 | floored quotient and remainder fit together, and neither is larger than an operand |
| Calculation.Eval | src/home_cortex/capabilities/calculation.py:129-149 | every value of an expression, integer or not, is within its range limit, whatever floating-point arithmetic answers |
| Calculation.Evaluate | src/home_cortex/capabilities/calculation.py:164-182 | so is the result |
| Calculation.OperatorExactly | src/home_cortex/capabilities/calculation.py:86-96 | every operator makes of two integers the sum, difference, product, floored quotient, remainder or power, or no integer |
| Calculation.FunctionExactly | src/home_cortex/capabilities/calculation.py:97-115 | every function gives of integers what it should, or no integer |
| Calculation.YieldsExactly | src/home_cortex/capabilities/calculation.py:129-182 | an expression evaluates to an integer without meeting a floating-point number exactly if that is its exact value and no step leaves the range |
| Calculation.OperatorFails | src/home_cortex/capabilities/calculation.py:39-67 | an operator fails on two integers exactly for a zero divisor, an exponent above twelve or an exact result out of range |
| Calculation.ToIntExactly | src/home_cortex/capabilities/calculation.py:97-114 | `ceil`, `floor`, `trunc` and `round` give the next integer up, down, towards zero, or the nearest, the even one of two |
| Calculation.RawProductBound | src/home_cortex/capabilities/calculation.py:89 | a raw product is at most the square of the limit |
| Calculation.RawPowerBound | src/home_cortex/capabilities/calculation.py:39-46 | a raw integer power is at most the twelfth power of the limit |
| Calculation.NearestBound | src/home_cortex/capabilities/calculation.py:112 | rounding an integer to tens at most doubles it |
| Calculation.ToIntTame | src/home_cortex/capabilities/calculation.py:97-114 | making an integer of a number in range stays within that bound |
| Calculation.TameInDecimals | src/home_cortex/capabilities/calculation.py:15-17 | that is ten to the 216 |
| Calculation.RawsTame | src/home_cortex/capabilities/calculation.py:57-95 | whatever becomes of an expression within the node limit and whatever floating-point arithmetic answers, no operator or function gives an integer beyond that bound |
| Calculation.FactorialExactly | src/home_cortex/capabilities/calculation.py:49-54 | `factorial` yields a value exactly for the integers 0 to 19, and that value is the factorial |
| LatencyPercentile.BetweenSamples | benchmarks/harness/stats.py:8-18 | a percentile lies between two samples |
| LatencyPercentile.LinearBetweenSamples | benchmarks/harness/stats.py:8-18 | fraction i/(n-1) is the i-th smallest of n samples, and between two of these the percentile is linear |
| LatencyPercentile.SingleSample | benchmarks/harness/stats.py:12-13 | one sample alone is every percentile |
| LatencyPercentile.EndsAreExtremes | benchmarks/harness/stats.py:8-18 | the ends of the scale are the least and the greatest sample |
| LatencyPercentile.OrderIsIrrelevant | benchmarks/harness/stats.py:11 | permuting the samples changes nothing |
| LatencyPercentile.MonotoneInFraction | benchmarks/harness/stats.py:14-18 | a higher fraction never gives less, across segments too |
| LatencyPercentile.MonotoneInSamples | benchmarks/harness/stats.py:8-18 | larger samples never give less |
| LatencyPercentile.VersionsAgreeExactly | scripts/benchmarks/fact_benchmark.py:408-416 | the fact benchmark's version agrees exactly when there is a sample; without one it is zero and the other an error |
| RowScoring.ScoreRows | scripts/benchmarks/semantic_planner_benchmark.py:443-458 | the loop is the greedy match, after the comparison of lengths |
| RowScoring.FirstMatch | scripts/benchmarks/semantic_planner_benchmark.py:455 | the first actual row that matches is taken |
| RowScoring.IncompleteExactly | scripts/benchmarks/semantic_planner_benchmark.py:447-458 | an expected row that does not state enough is an error exactly if all rows before it do and find their partners |
| RowScoring.AcceptedHavePairing | scripts/benchmarks/semantic_planner_benchmark.py:443-458 | acceptance comes with a bijection in which partners match |
| RowScoring.FindsExactly | scripts/benchmarks/semantic_planner_benchmark.py:443-458 | every pairing of rows that the program builds is found exactly when some expected row can be matched by none of them, or each states entity id, value, unit and status and, of any two, they conflict in a field or the earlier states all that the later does |
| RowScoring.AcceptsExactly | scripts/benchmarks/semantic_planner_benchmark.py:443-458 | for such expectations acceptance of built rows means exactly that a pairing exists |
| RowScoring.PairingMissed | scripts/benchmarks/semantic_planner_benchmark.py:443-458 | otherwise there are rows that the program builds with a pairing that are not accepted |
| RowScoring.UniformIsExact | scripts/benchmarks/semantic_planner_benchmark.py:393-400 | if all expected rows state the same fields, acceptance means that the actual rows show them in some order |
| RowScoring.UniformIsComplete | scripts/benchmarks/semantic_planner_benchmark.py:443-458 | then every pairing is found |
| RowScoring.GreedyMissesPairing | scripts/benchmarks/semantic_planner_benchmark.py:443-458 | for two rows as the program builds them, an expected row that states less takes the partner of one that states more |

## Left out

Transport and capabilities:

- JSON numbers are integers. Parsing of JSON text, with its duplicate-key and non-finite checks, is not part of this model; `decode` starts from the parsed value.
- Schema keywords outside closed objects, `items` with its bounds, `anyOf`, `enum`, `const`, `type` and local `$ref`; the constraints on a scalar (pattern, length, bounds) are a predicate. The errors for unsupported constraints and nonlocal references; `layouts`, `_fields` over a schema document, prompts, metrics and fingerprints.
- SemanticTransport.Resolve: a cycle of references that consumes nothing and a name that is not defined both have no resolution here, and nothing satisfies them; in the program the one does not end and the other raises. A reference to a definition called `enum` or `const` accepts nothing in a shape; in the program the check of that shape raises.
- SemanticTransportProofs.RoundTripIff: asks that every union took a branch which the part there satisfies. What becomes of other values is said by `EncodesExactly` and, if the converters agree, by `AgreeingDocument`.
- Property contracts: their parsing, which property occurs where and what each can be compared with are given; structured values, whose only operator does not use their literal, count as scalar. The unions of references and mutations.
- `encode` with validation switched off on a value that is no list where a list is expected.
- Python sets in `pack_capabilities`, and malformed packed forms beyond their being errors.

Text display:

- `register` and the selectors of names by language: an entity is given with what they find.
- Names that contain an ID are not rendered again, here as in the program.

Exclusive time:

- Times are integers, so rounding of floating-point milliseconds is not modelled; another event is one at another place of the list.

Sessions:

- Parsing of samples and ids, the derived freshness of a sample, look-ups by agent, name or capability, views and mappings. Calls are atomic, as under the program's locks. The session protocol works on the catalog of its connections, as where the program puts them together; spaces are registered before the first call.

Assignments:

- Bodies are an id and a content; validation of bodies and of record types in rows, the unique index, direct database writers, the sorted order of a listing and the read after a commit. Each query is one atomic step.

Calendars:

- HTTP, access tokens, the retry after status 401 and clocks: a request comes back with a page, a missed deadline or a failure. Parsing of dates and normalisation of items: instants are integers and normalisation is a function.
- CalendarPages.ListEvents: asks that the server knows finitely many page tokens, because the loop has no other bound on its requests.

Conversations:

- Ids, clock and `conversation_title` are parameters; copying on the way out; the durable store over SurrealDB.

Session cookie:

- The keyed digest is an arbitrary function of the payload; nothing is said about forging it. Lone surrogates, non-ASCII digits and cookie handling.

Facts:

- Resolution of references, single-value operations, `_speaker_relative_concept`, content groups, focus and query counts. Loading, operators, schema look-ups and filters on the entity are functions that answer the same each time. Every entity has an id.

Arithmetic and scores:

- What floating-point arithmetic answers is a parameter, and nothing is said of the size of raw floating-point results; Python's parser, the length limit, keyword arguments and disallowed syntax.
- LatencyPercentile.BetweenSamples: fractions outside the unit interval are not modelled, because no caller uses them; rounding is not either.
- The other expectations of a scored case, and equality of booleans with numbers.
