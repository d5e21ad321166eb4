/** The bounded in-memory transcript store: an ordered map that drops its oldest entries, and
    the unbounded log of last writes that it stands for. */
module ConversationStore {
  import opened Text
  import opened Sorting

  datatype Message = Message(id: string, role: string, content: string, created: int)

  /** Instants are integers. */
  datatype Conversation = Conversation(
    id: string, agent: Option<string>, embodiment: Option<string>, model: string, person: Option<string>,
    language: string, greeting: Option<string>, title: string, created: int, updated: int, messages: seq<Message>)

  /** What a call that changes the store asks for. New ids and the time come with it. */
  datatype Op =
    | Create(id: string, agent: Option<string>, model: string, person: Option<string>, language: string,
        greeting: Option<string>, messageId: string, now: int)
    | SetEmbodiment(id: string, embodiment: Option<string>, now: int)
    | AppendMessage(id: string, role: string, content: string, firstUser: Option<bool>, messageId: string, now: int)
    | Delete(id: string)

  /** The text a conversation is called by after its first user message. */
  type Titles = string -> string

  function Created(op: Op): (c: Conversation)
    requires op.Create?
    ensures c.id == op.id && c.updated == op.now
  {
    var greeted := op.greeting.Some? && op.greeting.value != "";
    Conversation(op.id, op.agent, None, op.model, op.person, op.language, op.greeting,
      if greeted then op.greeting.value else "", op.now, op.now,
      if greeted then [Message(op.messageId, "assistant", op.greeting.value, op.now)] else [])
  }

  predicate HasUser(messages: seq<Message>) {
    exists m :: m in messages && m.role == "user"
  }

  /** What a write makes of the conversation it names. */
  function Written(c: Conversation, op: Op, titles: Titles): (w: Conversation)
    requires (op.SetEmbodiment? || op.AppendMessage?) && c.id == op.id
    ensures w.id == op.id && w.updated == op.now
    ensures c.messages <= w.messages && w.created == c.created && w.person == c.person
  {
    if op.SetEmbodiment? then c.(embodiment := op.embodiment, updated := op.now)
    else
      var first := if op.firstUser.Some? then op.firstUser.value else !HasUser(c.messages);
      c.(messages := c.messages + [Message(op.messageId, op.role, op.content, op.now)], updated := op.now,
         title := if op.role == "user" && first then titles(op.content) else c.title)
  }

  // ---- The log ----

  type Log = seq<Conversation>

  predicate Names(log: Log, id: string) {
    exists i :: 0 <= i < |log| && log[i].id == id
  }

  ghost predicate Distinct(log: Log) {
    forall i, j | 0 <= i < j < |log| :: log[i].id != log[j].id
  }

  /** The place of the last entry with an id. */
  function Place(log: Log, id: string): (i: nat)
    requires Names(log, id)
    ensures i < |log| && log[i].id == id
  {
    if log[|log| - 1].id == id then |log| - 1 else Place(log[..|log| - 1], id)
  }

  function Without(log: Log, i: nat): (r: Log)
    requires i < |log|
    ensures |r| == |log| - 1
  {
    log[..i] + log[i + 1..]
  }

  /** A change without any bound. Creating an id that exists replaces it where it stands; a
      write moves the conversation to the end. */
  function Change(log: Log, op: Op, titles: Titles): Log {
    match op
    case Create(_, _, _, _, _, _, _, _) =>
      if Names(log, op.id) then log[Place(log, op.id) := Created(op)] else log + [Created(op)]
    case Delete(id) => if Names(log, id) then Without(log, Place(log, id)) else log
    case _ =>
      if Names(log, op.id)
      then Without(log, Place(log, op.id)) + [Written(log[Place(log, op.id)], op, titles)]
      else log
  }

  function Recent(log: Log, maximum: nat): (r: Log)
    ensures |r| <= maximum && |r| <= |log| && r == log[|log| - |r|..]
  {
    if |log| <= maximum then log else log[|log| - maximum..]
  }

  /** The same change in the bounded store: only a creation can evict. */
  function BoundedChange(log: Log, op: Op, titles: Titles, maximum: nat): Log {
    if op.Create? then Recent(Change(log, op, titles), maximum) else Change(log, op, titles)
  }

  function Unbounded(ops: seq<Op>, titles: Titles): Log {
    if ops == [] then [] else Change(Unbounded(ops[..|ops| - 1], titles), ops[|ops| - 1], titles)
  }

  function Bounded(ops: seq<Op>, titles: Titles, maximum: nat): Log {
    if ops == [] then []
    else BoundedChange(Bounded(ops[..|ops| - 1], titles, maximum), ops[|ops| - 1], titles, maximum)
  }

  // ---- What a change keeps ----

  lemma {:induction false} PlaceIsOnly(log: Log, id: string, i: nat)
    requires Distinct(log) && i < |log| && log[i].id == id
    ensures Place(log, id) == i
  {
    if log[|log| - 1].id == id {
      assert i == |log| - 1;
    } else {
      PlaceIsOnly(log[..|log| - 1], id, i);
    }
  }

  lemma ChangeDistinct(log: Log, op: Op, titles: Titles)
    requires Distinct(log)
    ensures Distinct(Change(log, op, titles))
  {
  }

  ghost predicate IsSuffix(r: Log, log: Log) {
    |r| <= |log| && r == log[|log| - |r|..]
  }

  /** The operation does not name a conversation that the store has dropped. */
  predicate Retained(bounded: Log, log: Log, op: Op) {
    op.Delete? || Names(bounded, op.id) || !Names(log, op.id)
  }

  lemma {:induction false} SuffixPlaces(r: Log, log: Log, id: string)
    requires IsSuffix(r, log) && Distinct(log)
    ensures Names(r, id) ==> Names(log, id) && Place(log, id) == |log| - |r| + Place(r, id)
    ensures Names(log, id) && !Names(r, id) ==> Place(log, id) < |log| - |r|
  {
    if Names(r, id) {
      var i := Place(r, id);
      assert log[|log| - |r| + i] == r[i];
      PlaceIsOnly(log, id, |log| - |r| + i);
    } else if Names(log, id) {
      forall i | |log| - |r| <= i < |log| ensures log[i].id != id {
        assert log[i] == r[i - (|log| - |r|)];
      }
    }
  }

  lemma WithoutBoth(r: Log, log: Log, i: nat)
    requires IsSuffix(r, log) && i < |r|
    ensures IsSuffix(Without(r, i), Without(log, |log| - |r| + i))
  {
    var off := |log| - |r|;
    assert log[off..][..i] == log[..off + i][off..];
    assert log[off..][i + 1..] == log[off + i + 1..];
    assert Without(log, off + i)[off..] == log[..off + i][off..] + log[off + i + 1..];
  }

  lemma WithoutDropped(r: Log, log: Log, i: nat)
    requires IsSuffix(r, log) && i < |log| - |r|
    ensures IsSuffix(r, Without(log, i))
  {
    var off := |log| - |r|;
    assert Without(log, i)[off - 1..] == log[off..];
  }

  lemma AppendBoth(r: Log, log: Log, c: Conversation)
    requires IsSuffix(r, log)
    ensures IsSuffix(r + [c], log + [c])
  {
    assert (log + [c])[|log| - |r|..] == log[|log| - |r|..] + [c];
  }

  lemma ReplaceBoth(r: Log, log: Log, i: nat, c: Conversation)
    requires IsSuffix(r, log) && i < |r|
    ensures IsSuffix(r[i := c], log[|log| - |r| + i := c])
  {
    var off := |log| - |r|;
    assert log[off + i := c][off..] == log[off..][i := c];
  }

  lemma RecentSuffix(r: Log, log: Log, maximum: nat)
    requires IsSuffix(r, log)
    ensures IsSuffix(Recent(r, maximum), log)
  {
    var n := |Recent(r, maximum)|;
    assert log[|log| - |r|..][|r| - n..] == log[|log| - n..];
  }

  lemma SuffixEntry(r: Log, log: Log, i: nat)
    requires IsSuffix(r, log) && i < |r|
    ensures r[i] == log[|log| - |r| + i]
  {
  }

  lemma CreateKeepsSuffix(r: Log, log: Log, op: Op, titles: Titles)
    requires IsSuffix(r, log) && Distinct(log) && op.Create? && Retained(r, log, op)
    ensures IsSuffix(Change(r, op, titles), Change(log, op, titles))
  {
    hide IsSuffix, Distinct, Created, Names, Place;
    SuffixPlaces(r, log, op.id);
    if Names(r, op.id) {
      ReplaceBoth(r, log, Place(r, op.id), Created(op));
    } else {
      AppendBoth(r, log, Created(op));
    }
  }

  lemma DeleteKeepsSuffix(r: Log, log: Log, op: Op, titles: Titles)
    requires IsSuffix(r, log) && Distinct(log) && op.Delete?
    ensures IsSuffix(Change(r, op, titles), Change(log, op, titles))
  {
    hide IsSuffix, Distinct, Without, Names, Place;
    SuffixPlaces(r, log, op.id);
    if Names(r, op.id) {
      WithoutBoth(r, log, Place(r, op.id));
    } else if Names(log, op.id) {
      WithoutDropped(r, log, Place(log, op.id));
    }
  }

  lemma WriteKeepsSuffix(r: Log, log: Log, op: Op, titles: Titles)
    requires IsSuffix(r, log) && Distinct(log) && !op.Create? && !op.Delete? && Retained(r, log, op)
    ensures IsSuffix(Change(r, op, titles), Change(log, op, titles))
  {
    hide IsSuffix, Distinct, Written, Without, Names, Place;
    SuffixPlaces(r, log, op.id);
    if Names(r, op.id) {
      var i := Place(r, op.id);
      SuffixEntry(r, log, i);
      WithoutBoth(r, log, i);
      AppendBoth(Without(r, i), Without(log, Place(log, op.id)), Written(r[i], op, titles));
    }
  }

  /** One change keeps the store a suffix of the log unless it names a dropped conversation. */
  lemma ChangeKeepsSuffix(r: Log, log: Log, op: Op, titles: Titles, maximum: nat)
    requires IsSuffix(r, log) && Distinct(log) && Retained(r, log, op)
    ensures IsSuffix(BoundedChange(r, op, titles, maximum), Change(log, op, titles))
  {
    hide IsSuffix, Distinct, Retained, Change, Recent;
    if op.Create? {
      CreateKeepsSuffix(r, log, op, titles);
      RecentSuffix(Change(r, op, titles), Change(log, op, titles), maximum);
    } else if op.Delete? {
      DeleteKeepsSuffix(r, log, op, titles);
    } else {
      WriteKeepsSuffix(r, log, op, titles);
    }
  }

  /** When a change keeps the store a suffix of the log: it names no dropped conversation, or the
      store is empty and the change would put it last in the log in any case. */
  predicate Keeps(r: Log, log: Log, op: Op, maximum: nat) {
    Retained(r, log, op)
    || (r == [] && (op.Create? ==> maximum == 0 || (log != [] && log[|log| - 1].id == op.id)))
  }

  /** A dropped conversation comes to stand last in the store but not in what the log would keep. */
  lemma DroppedWriteBreaks(r: Log, log: Log, op: Op, titles: Titles)
    requires IsSuffix(r, log) && Distinct(log) && (op.SetEmbodiment? || op.AppendMessage?)
    requires !Retained(r, log, op)
    ensures IsSuffix(Change(r, op, titles), Change(log, op, titles)) <==> r == []
  {
    hide Written;
    if r != [] {
      assert Change(log, op, titles)[|log| - 1].id == op.id;
      assert r[|r| - 1].id != op.id;
    }
  }

  /** What becomes of store and log when a conversation is created whose id the store dropped. */
  lemma {:induction false} DroppedCreate(r: Log, log: Log, op: Op, titles: Titles, maximum: nat)
    requires op.Create? && Names(log, op.id) && !Names(r, op.id) && |r| <= maximum
    ensures Change(log, op, titles) == log[Place(log, op.id) := Created(op)]
    ensures BoundedChange(r, op, titles, maximum) == Recent(r + [Created(op)], maximum)
    ensures maximum > 0 ==>
      var kept := Recent(r + [Created(op)], maximum);
      kept != [] && kept[|kept| - 1] == Created(op) && (r == [] ==> kept == [Created(op)])
  {
    hide Created, Names, Place;
  }

  lemma LastOfSuffix(r: Log, log: Log)
    requires IsSuffix(r, log) && r != []
    ensures log != [] && r[|r| - 1] == log[|log| - 1]
  {
  }

  lemma LastAlone(log: Log, c: Conversation)
    requires log != []
    ensures IsSuffix([c], log) <==> log[|log| - 1] == c
  {
    assert log[|log| - 1..] == [log[|log| - 1]];
  }

  lemma CreatedInEmpty(log: Log, place: nat, c: Conversation)
    requires Distinct(log) && place < |log| && log[place].id == c.id
    ensures IsSuffix([c], log[place := c]) <==> log[|log| - 1].id == c.id
  {
    LastAlone(log[place := c], c);
  }

  lemma CreatedBeside(kept: Log, r: Log, log: Log, place: nat, c: Conversation)
    requires IsSuffix(r, log) && r != [] && !Names(r, c.id) && place < |log| && log[place].id == c.id
    requires kept != [] && kept[|kept| - 1] == c
    ensures !IsSuffix(kept, log[place := c])
  {
    LastOfSuffix(r, log);
    NotNamed(r, c.id, |r| - 1);
    var after := log[place := c];
    if IsSuffix(kept, after) {
      LastOfSuffix(kept, after);
    }
  }

  lemma DroppedCreateBreaks(r: Log, log: Log, op: Op, titles: Titles, maximum: nat)
    requires IsSuffix(r, log) && Distinct(log) && op.Create? && |r| <= maximum
    requires !Retained(r, log, op)
    ensures IsSuffix(BoundedChange(r, op, titles, maximum), Change(log, op, titles)) <==> Keeps(r, log, op, maximum)
  {
    DroppedCreate(r, log, op, titles, maximum);
    hide IsSuffix, Distinct, Change, BoundedChange, Names, Recent, Created;
    var place, c := Place(log, op.id), Created(op);
    if maximum == 0 {
      EmptyIsSuffix(log[place := c]);
    } else if r == [] {
      CreatedInEmpty(log, place, c);
    } else {
      CreatedBeside(Recent(r + [c], maximum), r, log, place, c);
    }
  }

  lemma EmptyIsSuffix(log: Log)
    ensures IsSuffix([], log)
  {
  }

  lemma NotNamed(log: Log, id: string, i: nat)
    requires !Names(log, id) && i < |log|
    ensures log[i].id != id
  {
  }

  /** For every change the condition is exact. */
  lemma KeepsSuffixExactly(r: Log, log: Log, op: Op, titles: Titles, maximum: nat)
    requires IsSuffix(r, log) && Distinct(log) && |r| <= maximum
    ensures IsSuffix(BoundedChange(r, op, titles, maximum), Change(log, op, titles)) <==> Keeps(r, log, op, maximum)
  {
    hide IsSuffix, Distinct, Retained, Change, Recent;
    if Retained(r, log, op) {
      ChangeKeepsSuffix(r, log, op, titles, maximum);
    } else if op.Create? {
      DroppedCreateBreaks(r, log, op, titles, maximum);
    } else {
      NotRetained(r, log, op);
      DroppedWriteBreaks(r, log, op, titles);
    }
  }

  lemma NotRetained(r: Log, log: Log, op: Op)
    requires !Retained(r, log, op)
    ensures !op.Delete?
  {
  }

  // ---- Runs ----

  /** Every write of the run names a conversation the store still has, or an id it never had. */
  ghost predicate AllRetained(ops: seq<Op>, titles: Titles, maximum: nat) {
    forall n | 0 <= n < |ops| ::
      Retained(Bounded(ops[..n], titles, maximum), Unbounded(ops[..n], titles), ops[n])
  }

  lemma {:induction false} UnboundedDistinct(ops: seq<Op>, titles: Titles)
    ensures Distinct(Unbounded(ops, titles))
  {
    if ops != [] {
      UnboundedDistinct(ops[..|ops| - 1], titles);
      ChangeDistinct(Unbounded(ops[..|ops| - 1], titles), ops[|ops| - 1], titles);
    }
  }

  /** The store holds the conversations written last, in the order of their last writes and with
      the contents they have in the log without eviction. */
  lemma {:induction false} StoreIsSuffixOfLog(ops: seq<Op>, titles: Titles, maximum: nat)
    requires AllRetained(ops, titles, maximum)
    ensures IsSuffix(Bounded(ops, titles, maximum), Unbounded(ops, titles))
  {
    if ops != [] {
      var most := ops[..|ops| - 1];
      forall n | 0 <= n < |most|
        ensures Retained(Bounded(most[..n], titles, maximum), Unbounded(most[..n], titles), most[n])
      {
        assert most[..n] == ops[..n];
      }
      StoreIsSuffixOfLog(most, titles, maximum);
      UnboundedDistinct(most, titles);
      assert Retained(Bounded(most, titles, maximum), Unbounded(most, titles), ops[|ops| - 1]);
      ChangeKeepsSuffix(Bounded(most, titles, maximum), Unbounded(most, titles), ops[|ops| - 1], titles, maximum);
    }
  }

  /** The store never holds more than `maximum` conversations, and no id twice. */
  lemma {:induction false} StoreIsBounded(ops: seq<Op>, titles: Titles, maximum: nat)
    ensures |Bounded(ops, titles, maximum)| <= maximum && Distinct(Bounded(ops, titles, maximum))
  {
    if ops != [] {
      var most := ops[..|ops| - 1];
      StoreIsBounded(most, titles, maximum);
      ChangeDistinct(Bounded(most, titles, maximum), ops[|ops| - 1], titles);
    }
  }

  /** The store is a suffix of the log after each of the first `n` operations. */
  ghost predicate AlwaysSuffix(ops: seq<Op>, titles: Titles, maximum: nat) {
    forall n | 0 <= n <= |ops| :: IsSuffix(Bounded(ops[..n], titles, maximum), Unbounded(ops[..n], titles))
  }

  ghost predicate AlwaysKeeps(ops: seq<Op>, titles: Titles, maximum: nat) {
    forall n | 0 <= n < |ops| ::
      Keeps(Bounded(ops[..n], titles, maximum), Unbounded(ops[..n], titles), ops[n], maximum)
  }

  /** Over a whole run: the store is a suffix of the log at every moment exactly when every
      operation of the run keeps it so. */
  lemma {:induction false} SuffixExactly(ops: seq<Op>, titles: Titles, maximum: nat)
    ensures AlwaysSuffix(ops, titles, maximum) <==> AlwaysKeeps(ops, titles, maximum)
  {
    hide AlwaysSuffix, AlwaysKeeps, IsSuffix, Keeps, Bounded, Unbounded;
    if ops == [] {
      NothingDone(titles, maximum);
    } else {
      var most := ops[..|ops| - 1];
      SuffixExactly(most, titles, maximum);
      SuffixOneMore(ops, titles, maximum);
      KeepsOneMore(ops, titles, maximum);
      if AlwaysSuffix(most, titles, maximum) {
        LastStep(ops, titles, maximum);
      }
    }
  }

  lemma NothingDone(titles: Titles, maximum: nat)
    ensures AlwaysSuffix([], titles, maximum) && AlwaysKeeps([], titles, maximum)
  {
    EmptyIsSuffix([]);
  }

  lemma {:induction false} LastStep(ops: seq<Op>, titles: Titles, maximum: nat)
    requires ops != [] && AlwaysSuffix(ops[..|ops| - 1], titles, maximum)
    ensures var most := ops[..|ops| - 1];
      IsSuffix(Bounded(ops, titles, maximum), Unbounded(ops, titles)) <==>
        Keeps(Bounded(most, titles, maximum), Unbounded(most, titles), ops[|most|], maximum)
  {
    hide IsSuffix, Keeps, Change, BoundedChange, Distinct;
    var most := ops[..|ops| - 1];
    assert most[..|most|] == most;
    UnboundedDistinct(most, titles);
    StoreIsBounded(most, titles, maximum);
    KeepsSuffixExactly(Bounded(most, titles, maximum), Unbounded(most, titles), ops[|most|], titles, maximum);
  }

  lemma {:induction false} SuffixOneMore(ops: seq<Op>, titles: Titles, maximum: nat)
    requires ops != []
    ensures AlwaysSuffix(ops, titles, maximum) <==>
      AlwaysSuffix(ops[..|ops| - 1], titles, maximum) && IsSuffix(Bounded(ops, titles, maximum), Unbounded(ops, titles))
  {
    hide IsSuffix, Bounded, Unbounded;
    var most := ops[..|ops| - 1];
    assert ops[..|ops|] == ops;
    assert forall n | 0 <= n <= |most| :: most[..n] == ops[..n];
  }

  lemma {:induction false} KeepsOneMore(ops: seq<Op>, titles: Titles, maximum: nat)
    requires ops != []
    ensures var most := ops[..|ops| - 1];
      AlwaysKeeps(ops, titles, maximum) <==>
        AlwaysKeeps(most, titles, maximum)
        && Keeps(Bounded(most, titles, maximum), Unbounded(most, titles), ops[|most|], maximum)
  {
    hide Keeps, Bounded, Unbounded;
    var most := ops[..|ops| - 1];
    assert forall n | 0 <= n < |most| :: most[..n] == ops[..n] && most[n] == ops[n];
  }

  lemma FirstCreated(first: Op, titles: Titles)
    requires first.Create?
    ensures Unbounded([first], titles) == [Created(first)] && Bounded([first], titles, 1) == [Created(first)]
  {
    hide Created;
    assert [first][..0] == [] && !Names([], first.id);
  }

  lemma SecondCreated(first: Op, second: Op, titles: Titles)
    requires first.Create? && second.Create? && first.id != second.id
    ensures Unbounded([first, second], titles) == [Created(first), Created(second)]
    ensures Bounded([first, second], titles, 1) == [Created(second)]
  {
    FirstCreated(first, titles);
    assert [first, second][..1] == [first] && [first, second][1] == second;
    assert !Names([Created(first)], second.id);
    hide Created, Names, Place;
    var one := [Created(first)];
    assert Change(one, second, titles) == one + [Created(second)] == [Created(first), Created(second)];
    assert Recent(one + [Created(second)], 1) == [Created(second)];
  }

  lemma FirstWritten(c: Conversation, d: Conversation, write: Op, titles: Titles)
    requires write.AppendMessage? && write.id == c.id != d.id
    ensures Change([c, d], write, titles) == [d, Written(c, write, titles)]
    ensures Change([d], write, titles) == [d]
  {
    hide Written;
    var log := [c, d];
    assert log[0].id == write.id && Names(log, write.id) && !Names([d], write.id);
    assert Place(log, write.id) == 0 && Without(log, 0) == [d];
  }

  /** A run that breaks it: with room for one, a second conversation drops the first, and a message
      then goes to the first. The log ends in it, the store still holds the second. */
  lemma DroppedConversationWrites(first: Op, second: Op, write: Op, titles: Titles)
    requires first.Create? && second.Create? && write.AppendMessage?
    requires write.id == first.id != second.id
    ensures var ops := [first, second, write];
      && Bounded(ops, titles, 1) == [Created(second)]
      && Unbounded(ops, titles) == [Created(second), Written(Created(first), write, titles)]
      && !AlwaysSuffix(ops, titles, 1)
  {
    SecondCreated(first, second, titles);
    var ops, c, d := [first, second, write], Created(first), Created(second);
    assert ops[..2] == [first, second] && ops[2] == write && ops[..3] == ops;
    FirstWritten(c, d, write, titles);
    var w := Written(c, write, titles);
    hide Created, Written, Change, Names;
    assert Unbounded(ops, titles) == [d, w] && Bounded(ops, titles, 1) == [d];
    LastAlone([d, w], d);
    assert !IsSuffix(Bounded(ops[..3], titles, 1), Unbounded(ops[..3], titles));
  }

  /** Nothing is dropped while the log has room in the store. */
  lemma {:induction false} NothingDroppedWhileRoom(ops: seq<Op>, titles: Titles, maximum: nat)
    requires forall n | 0 <= n <= |ops| :: |Unbounded(ops[..n], titles)| <= maximum
    ensures Bounded(ops, titles, maximum) == Unbounded(ops, titles)
  {
    if ops != [] {
      var most := ops[..|ops| - 1];
      forall n | 0 <= n <= |most| ensures |Unbounded(most[..n], titles)| <= maximum {
        assert most[..n] == ops[..n];
      }
      NothingDroppedWhileRoom(most, titles, maximum);
      assert ops[..|ops|] == ops;
    }
  }

  // ---- What a conversation holds ----

  predicate IsAppendTo(op: Op, id: string) {
    op.AppendMessage? && op.id == id
  }

  /** The messages appended to a conversation, in order. */
  ghost function Sent(since: seq<Op>, id: string): seq<Message> {
    if since == [] then []
    else
      var before, last := Sent(since[..|since| - 1], id), since[|since| - 1];
      if IsAppendTo(last, id) then before + [Message(last.messageId, last.role, last.content, last.now)] else before
  }

  /** The embodiment set last. */
  ghost function EmbodimentSet(since: seq<Op>, id: string): Option<string> {
    if since == [] then None
    else
      var last := since[|since| - 1];
      if last.SetEmbodiment? && last.id == id then last.embodiment else EmbodimentSet(since[..|since| - 1], id)
  }

  /** The time of the last write, `start` if there is none. */
  ghost function WrittenLast(since: seq<Op>, id: string, start: int): int {
    if since == [] then start
    else
      var last := since[|since| - 1];
      if (last.SetEmbodiment? || last.AppendMessage?) && last.id == id then last.now
      else WrittenLast(since[..|since| - 1], id, start)
  }

  /** A user message that the caller calls the first, or that is the first if the caller does not say. */
  ghost predicate GivesTitle(before: seq<Op>, op: Op, id: string) {
    && IsAppendTo(op, id) && op.role == "user"
    && (op.firstUser == None ==> forall i | 0 <= i < |before| && IsAppendTo(before[i], id) :: before[i].role != "user")
    && op.firstUser != Some(false)
  }

  /** The title given last, `start` if none was. */
  ghost function TitleGiven(since: seq<Op>, id: string, start: string, titles: Titles): string {
    if since == [] then start
    else
      var before, last := since[..|since| - 1], since[|since| - 1];
      if GivesTitle(before, last, id) then titles(last.content) else TitleGiven(before, id, start, titles)
  }

  /** A conversation is as it was created, with what was written to it since. */
  ghost predicate Holds(c: Conversation, create: Op, since: seq<Op>, titles: Titles)
    requires create.Create?
  {
    var greeting := if create.greeting == None then "" else create.greeting.value;
    var first := if greeting == "" then [] else [Message(create.messageId, "assistant", greeting, create.now)];
    && c.id == create.id && c.agent == create.agent && c.model == create.model && c.person == create.person
    && c.language == create.language && c.greeting == create.greeting && c.created == create.now
    && c.messages == first + Sent(since, c.id)
    && c.title == TitleGiven(since, c.id, greeting, titles)
    && c.embodiment == EmbodimentSet(since, c.id)
    && c.updated == WrittenLast(since, c.id, create.now)
  }

  /** Operation `k` created the conversation, it was neither deleted nor created since, and it holds
      what was written to it since. */
  ghost predicate HoldsSince(c: Conversation, ops: seq<Op>, k: nat, titles: Titles) {
    && k < |ops| && ops[k].Create?
    && (forall n | k < n < |ops| && ops[n].id == c.id :: !ops[n].Create? && !ops[n].Delete?)
    && Holds(c, ops[k], ops[k + 1..], titles)
  }

  ghost predicate HoldsSome(c: Conversation, ops: seq<Op>, titles: Titles) {
    exists k: nat :: HoldsSince(c, ops, k, titles)
  }

  lemma CreatedHolds(op: Op, titles: Titles)
    requires op.Create?
    ensures Holds(Created(op), op, [], titles)
  {
  }

  /** Somebody wrote as user exactly if a user message was appended. */
  lemma {:induction false} UserSent(since: seq<Op>, id: string)
    ensures HasUser(Sent(since, id)) <==>
      exists i :: 0 <= i < |since| && IsAppendTo(since[i], id) && since[i].role == "user"
  {
    if since != [] {
      var before, last := since[..|since| - 1], since[|since| - 1];
      UserSent(before, id);
      var sent := Sent(before, id);
      if IsAppendTo(last, id) {
        var m := Message(last.messageId, last.role, last.content, last.now);
        assert HasUser(sent + [m]) <==> HasUser(sent) || m.role == "user" by {
          assert m in sent + [m];
          assert forall x :: x in sent + [m] <==> x in sent || x == m;
        }
      }
      assert forall i | 0 <= i < |before| :: before[i] == since[i];
    }
  }

  lemma {:induction false} WrittenHolds(c: Conversation, create: Op, since: seq<Op>, op: Op, titles: Titles)
    requires create.Create? && Holds(c, create, since, titles)
    requires (op.SetEmbodiment? || op.AppendMessage?) && op.id == c.id
    ensures Holds(Written(c, op, titles), create, since + [op], titles)
  {
    var more := since + [op];
    assert more[..|since|] == since && more[|since|] == op;
    UserSent(since, c.id);
    var greeting := if create.greeting == None then "" else create.greeting.value;
    var first := if greeting == "" then [] else [Message(create.messageId, "assistant", greeting, create.now)];
    assert HasUser(first + Sent(since, c.id)) <==> HasUser(Sent(since, c.id)) by {
      assert forall x :: x in first + Sent(since, c.id) <==> x in first || x in Sent(since, c.id);
    }
    assert GivesTitle(since, op, c.id) <==>
      IsAppendTo(op, c.id) && op.role == "user"
      && (if op.firstUser.Some? then op.firstUser.value else !HasUser(c.messages));
  }

  /** What is written to others leaves it alone. */
  lemma OtherHolds(c: Conversation, create: Op, since: seq<Op>, op: Op, titles: Titles)
    requires create.Create? && Holds(c, create, since, titles)
    requires op.id != c.id
    ensures Holds(c, create, since + [op], titles)
  {
    assert (since + [op])[..|since|] == since;
  }

  /** Which conversations a change leaves, if no id is there twice. */
  lemma {:induction false} ChangeLeaves(log: Log, op: Op, titles: Titles, c: Conversation)
    requires Distinct(log) && c in Change(log, op, titles)
    ensures c.id != op.id ==> c in log
    ensures c.id == op.id ==> !op.Delete?
    ensures c.id == op.id && op.Create? ==> c == Created(op)
    ensures c.id == op.id && !op.Create? ==> Names(log, op.id) && c == Written(log[Place(log, op.id)], op, titles)
  {
    hide Created, Written;
    if Names(log, op.id) {
      var i := Place(log, op.id);
      forall x | x in Without(log, i) ensures x in log && x.id != op.id {
      }
    }
  }

  lemma {:induction false} ChangeHolds(log: Log, ops: seq<Op>, titles: Titles, c: Conversation)
    requires ops != [] && Distinct(log) && c in Change(log, ops[|ops| - 1], titles)
    requires forall d | d in log :: HoldsSome(d, ops[..|ops| - 1], titles)
    ensures HoldsSome(c, ops, titles)
  {
    hide Change, Holds, Created, Written, Names, Place;
    var most, op := ops[..|ops| - 1], ops[|ops| - 1];
    ChangeLeaves(log, op, titles, c);
    if c.id == op.id && op.Create? {
      CreatedHolds(op, titles);
      assert ops[|most| + 1..] == [];
      assert HoldsSince(c, ops, |most|, titles);
    } else {
      var d := if c.id == op.id then log[Place(log, op.id)] else c;
      assert d in log && HoldsSome(d, most, titles);
      var k: nat :| HoldsSince(d, most, k, titles);
      assert ops[k + 1..] == most[k + 1..] + [op];
      if c.id == op.id {
        WrittenHolds(d, ops[k], most[k + 1..], op, titles);
      } else {
        OtherHolds(d, ops[k], most[k + 1..], op, titles);
      }
      assert HoldsSince(c, ops, k, titles);
    }
  }

  /** After every run, evictions or not, every conversation in the store holds what was written to it
      since it was created. */
  lemma {:induction false} StoreHolds(ops: seq<Op>, titles: Titles, maximum: nat, c: Conversation)
    requires c in Bounded(ops, titles, maximum)
    ensures HoldsSome(c, ops, titles)
  {
    hide HoldsSome, Change, Recent;
    var most := ops[..|ops| - 1];
    var log := Bounded(most, titles, maximum);
    StoreIsBounded(most, titles, maximum);
    forall d | d in log ensures HoldsSome(d, most, titles) {
      StoreHolds(most, titles, maximum, d);
    }
    assert c in Change(log, ops[|most|], titles);
    ChangeHolds(log, ops, titles, c);
  }

  lemma {:induction false} LogHolds(ops: seq<Op>, titles: Titles, c: Conversation)
    requires c in Unbounded(ops, titles)
    ensures HoldsSome(c, ops, titles)
  {
    hide HoldsSome, Change;
    var most := ops[..|ops| - 1];
    UnboundedDistinct(most, titles);
    forall d | d in Unbounded(most, titles) ensures HoldsSome(d, most, titles) {
      LogHolds(most, titles, d);
    }
    ChangeHolds(Unbounded(most, titles), ops, titles, c);
  }

  // ---- Which conversations the log holds, and in which order ----

  /** Created, and not deleted since. */
  ghost predicate Exists(ops: seq<Op>, id: string) {
    ops != [] &&
    var last := ops[|ops| - 1];
    if last.id == id && last.Create? then true
    else if last.id == id && last.Delete? then false
    else Exists(ops[..|ops| - 1], id)
  }

  /** When a conversation came to its place: it was written to, or created while it did not exist. */
  ghost function PlacedAt(ops: seq<Op>, id: string): int {
    if ops == [] then -1
    else
      var before, last := ops[..|ops| - 1], ops[|ops| - 1];
      if last.id == id && !last.Delete? && (last.Create? <==> !Exists(before, id)) then |before|
      else PlacedAt(before, id)
  }

  ghost predicate InPlace(log: Log, ops: seq<Op>) {
    && (forall i | 0 <= i < |log| :: PlacedAt(ops, log[i].id) < |ops|)
    && forall i, j | 0 <= i < j < |log| :: PlacedAt(ops, log[i].id) < PlacedAt(ops, log[j].id)
  }

  lemma {:induction false} ChangeNames(log: Log, op: Op, titles: Titles, id: string)
    requires Distinct(log)
    ensures Names(Change(log, op, titles), id) <==>
      if op.id == id && op.Create? then true else if op.id == id && op.Delete? then false else Names(log, id)
  {
    hide Created, Written;
    var after := Change(log, op, titles);
    if Names(log, op.id) {
      var place := Place(log, op.id);
      if i :| 0 <= i < |log| && log[i].id == id && id != op.id {
        assert after[if i < place || op.Create? then i else i - 1] == log[i];
      }
      assert op.Create? ==> after[place].id == op.id;
      assert !op.Create? && !op.Delete? ==> after[|after| - 1].id == op.id;
    } else {
      assert op.Create? ==> after[|log|].id == op.id;
      assert forall i | 0 <= i < |log| :: after[i] == log[i];
    }
  }

  /** Over every run, the log without eviction holds the conversations that exist, in the order in
      which they came to their places. */
  lemma {:induction false} LogNames(ops: seq<Op>, titles: Titles, id: string)
    ensures Names(Unbounded(ops, titles), id) <==> Exists(ops, id)
  {
    hide Change, Names;
    if ops == [] {
      NothingNamed(id);
    } else {
      var most := ops[..|ops| - 1];
      LogNames(most, titles, id);
      UnboundedDistinct(most, titles);
      ChangeNames(Unbounded(most, titles), ops[|most|], titles, id);
    }
  }

  lemma NothingNamed(id: string)
    ensures !Names([], id)
  {
  }

  lemma {:induction false} LogInPlace(ops: seq<Op>, titles: Titles)
    ensures InPlace(Unbounded(ops, titles), ops)
  {
    if ops != [] {
      var most, op := ops[..|ops| - 1], ops[|ops| - 1];
      LogInPlace(most, titles);
      LogNames(most, titles, op.id);
      UnboundedDistinct(most, titles);
      ChangeInPlace(Unbounded(most, titles), ops, titles);
    }
  }

  lemma {:induction false} PlacedBefore(log: Log, ops: seq<Op>)
    requires ops != [] && InPlace(log, ops[..|ops| - 1])
    requires forall i | 0 <= i < |log| :: PlacedAt(ops, log[i].id) == PlacedAt(ops[..|ops| - 1], log[i].id)
    ensures InPlace(log, ops) && forall i | 0 <= i < |log| :: PlacedAt(ops, log[i].id) < |ops| - 1
  {
    hide PlacedAt;
  }

  lemma {:induction false} PlacedLast(log: Log, ops: seq<Op>, c: Conversation)
    requires ops != [] && InPlace(log, ops) && forall i | 0 <= i < |log| :: PlacedAt(ops, log[i].id) < |ops| - 1
    requires PlacedAt(ops, c.id) == |ops| - 1
    ensures InPlace(log + [c], ops)
  {
    hide PlacedAt;
  }

  lemma {:induction false} WithoutInPlace(log: Log, ops: seq<Op>, place: nat)
    requires InPlace(log, ops) && place < |log|
    ensures InPlace(Without(log, place), ops)
  {
    hide PlacedAt;
  }

  lemma {:induction false} ReplacedInPlace(log: Log, ops: seq<Op>, place: nat, c: Conversation)
    requires InPlace(log, ops) && place < |log| && log[place].id == c.id
    ensures InPlace(log[place := c], ops)
  {
    hide PlacedAt;
    assert forall i | 0 <= i < |log| :: log[place := c][i].id == log[i].id;
  }

  lemma {:induction false} ChangeInPlace(log: Log, ops: seq<Op>, titles: Titles)
    requires ops != [] && InPlace(log, ops[..|ops| - 1]) && Distinct(log)
    requires Names(log, ops[|ops| - 1].id) <==> Exists(ops[..|ops| - 1], ops[|ops| - 1].id)
    ensures InPlace(Change(log, ops[|ops| - 1], titles), ops)
  {
    var most, op := ops[..|ops| - 1], ops[|ops| - 1];
    assert op.Create? && Exists(most, op.id) ==> PlacedAt(ops, op.id) == PlacedAt(most, op.id);
    assert !op.Delete? && (op.Create? <==> !Exists(most, op.id)) ==> PlacedAt(ops, op.id) == |most|;
    assert forall id | id != op.id :: PlacedAt(ops, id) == PlacedAt(most, id);
    if !Names(log, op.id) {
      PlacedBefore(log, ops);
      if op.Create? {
        hide InPlace, PlacedAt;
        PlacedLast(log, ops, Created(op));
      }
    } else {
      var place := Place(log, op.id);
      if op.Create? {
        PlacedBefore(log, ops);
        hide InPlace, PlacedAt;
        ReplacedInPlace(log, ops, place, Created(op));
      } else {
        WithoutInPlace(log, most, place);
        PlacedBefore(Without(log, place), ops);
        if !op.Delete? {
          hide InPlace, PlacedAt;
          PlacedLast(Without(log, place), ops, Written(log[place], op, titles));
        }
      }
    }
  }

  // ---- Listing ----

  function Mine(log: Log, person: Option<string>): Log {
    if log == [] then []
    else (if log[0].person == person then [log[0]] else []) + Mine(log[1..], person)
  }

  predicate NoOlder(c: Conversation, d: Conversation) { c.updated >= d.updated }

  /** The stable sort by descending time of the last write. */
  function Newest(log: Log): Log {
    Sort(log, NoOlder)
  }

  /** `list_for_person`. */
  function ListForPerson(log: Log, person: Option<string>): Log {
    Newest(Mine(log, person))
  }

  function Reversed(log: Log): Log {
    if log == [] then [] else Reversed(log[1..]) + [log[0]]
  }

  ghost predicate Chronological(log: Log) {
    forall i, j | 0 <= i < j < |log| :: log[i].updated < log[j].updated
  }

  lemma {:induction false} InsertOldest(c: Conversation, sorted: Log)
    requires forall x | x in sorted :: c.updated < x.updated
    ensures Insert(c, sorted, NoOlder) == sorted + [c]
  {
    if sorted != [] {
      assert sorted[0] in sorted;
      InsertOldest(c, sorted[1..]);
      assert sorted == [sorted[0]] + sorted[1..];
    }
  }

  lemma {:induction false} ReversedMembers(log: Log, x: Conversation)
    ensures x in Reversed(log) <==> x in log
  {
    if log != [] {
      ReversedMembers(log[1..], x);
    }
  }

  lemma {:induction false} NewestReverses(log: Log)
    requires Chronological(log)
    ensures Newest(log) == Reversed(log)
  {
    if log != [] {
      NewestReverses(log[1..]);
      forall x | x in Reversed(log[1..]) ensures log[0].updated < x.updated {
        ReversedMembers(log[1..], x);
      }
      InsertOldest(log[0], Reversed(log[1..]));
    }
  }

  lemma {:induction false} MineMembers(log: Log, person: Option<string>, x: Conversation)
    ensures x in Mine(log, person) <==> x in log && x.person == person
  {
    if log != [] {
      MineMembers(log[1..], person, x);
    }
  }

  lemma {:induction false} MineChronological(log: Log, person: Option<string>)
    requires Chronological(log)
    ensures Chronological(Mine(log, person))
  {
    if log != [] {
      MineChronological(log[1..], person);
      forall x | x in Mine(log[1..], person) ensures log[0].updated < x.updated {
        MineMembers(log[1..], person, x);
      }
    }
  }

  /** Some write of the run happened at `t`. */
  ghost predicate WrittenAt(ops: seq<Op>, t: int) {
    exists i :: 0 <= i < |ops| && !ops[i].Delete? && ops[i].now == t
  }

  /** The clock moves between any two writes, and every creation brings a new id. */
  ghost predicate Timely(ops: seq<Op>, titles: Titles, maximum: nat) {
    && (forall i, j | 0 <= i < j < |ops| && !ops[i].Delete? && !ops[j].Delete? :: ops[i].now < ops[j].now)
    && forall n | 0 <= n < |ops| && ops[n].Create? :: !Names(Bounded(ops[..n], titles, maximum), ops[n].id)
  }

  lemma {:induction false} TimelyPrefix(ops: seq<Op>, titles: Titles, maximum: nat)
    requires Timely(ops, titles, maximum) && ops != []
    ensures Timely(ops[..|ops| - 1], titles, maximum)
  {
    var most := ops[..|ops| - 1];
    forall n | 0 <= n < |most| && most[n].Create?
      ensures !Names(Bounded(most[..n], titles, maximum), most[n].id)
    {
      assert most[..n] == ops[..n];
    }
  }

  lemma {:induction false} ChangeChronological(log: Log, op: Op, titles: Titles)
    requires Chronological(log) && (op.Create? ==> !Names(log, op.id))
    requires !op.Delete? ==> forall i | 0 <= i < |log| :: log[i].updated < op.now
    ensures Chronological(Change(log, op, titles))
    ensures forall c | c in Change(log, op, titles) :: c in log || (!op.Delete? && c.updated == op.now)
  {
    if Names(log, op.id) {
      WithoutChronological(log, Place(log, op.id));
    }
    hide Place, Without, Created, Written, HasUser;
  }

  lemma {:induction false} WithoutChronological(log: Log, i: nat)
    requires Chronological(log) && i < |log|
    ensures Chronological(Without(log, i)) && forall c | c in Without(log, i) :: c in log
  {
  }

  lemma {:induction false} StoreChronological(ops: seq<Op>, titles: Titles, maximum: nat)
    requires Timely(ops, titles, maximum)
    ensures Chronological(Bounded(ops, titles, maximum))
    ensures forall c | c in Bounded(ops, titles, maximum) :: WrittenAt(ops, c.updated)
  {
    if ops != [] {
      var most := ops[..|ops| - 1];
      var op := ops[|ops| - 1];
      var log := Bounded(most, titles, maximum);
      TimelyPrefix(ops, titles, maximum);
      StoreChronological(most, titles, maximum);
      forall c | c in log ensures WrittenAt(ops, c.updated) && (!op.Delete? ==> c.updated < op.now) {
        var i :| 0 <= i < |most| && !most[i].Delete? && most[i].now == c.updated;
        assert ops[i] == most[i];
      }
      ChangeChronological(log, op, titles);
      assert !op.Delete? ==> WrittenAt(ops, op.now);
    }
  }

  /** After any run with a moving clock a person's listing is the last-write order reversed. */
  lemma {:induction false} ListingIsNewestFirst(ops: seq<Op>, titles: Titles, maximum: nat, person: Option<string>)
    requires Timely(ops, titles, maximum)
    ensures ListForPerson(Bounded(ops, titles, maximum), person)
      == Reversed(Mine(Bounded(ops, titles, maximum), person))
  {
    StoreChronological(ops, titles, maximum);
    MineChronological(Bounded(ops, titles, maximum), person);
    NewestReverses(Mine(Bounded(ops, titles, maximum), person));
  }

  lemma SuffixOfSelf(log: Log)
    ensures IsSuffix(log, log)
  {
  }

  lemma DropFirst(r: Log, log: Log)
    requires IsSuffix(r, log) && r != []
    ensures IsSuffix(r[1..], log)
  {
    assert log[|log| - |r|..][1..] == log[|log| - |r| + 1..];
  }

  lemma SuffixIsRecent(r: Log, log: Log, maximum: nat)
    requires IsSuffix(r, log) && |r| <= maximum && (r == log || |r| >= maximum)
    ensures r == Recent(log, maximum)
  {
  }

  lemma NothingDistinct()
    ensures Distinct([])
  {
  }

  lemma RecentDistinct(log: Log, maximum: nat)
    requires Distinct(log)
    ensures Distinct(Recent(log, maximum))
  {
  }

  // ---- The store as it is changed in place ----

  datatype StoreError = KeyError

  /** The ordered dictionary is the list of its entries; every entry carries its key. */
  class Store {
    const maximum: int
    const titles: Titles
    var entries: Log

    ghost predicate Valid()
      reads this
    {
      Distinct(entries)
    }

    constructor (maximum: int, titles: Titles)
      ensures Valid() && entries == [] && this.maximum == maximum && this.titles == titles
    {
      this.maximum, this.titles, entries := maximum, titles, [];
    }

    /** Pop the oldest entries until no more than `maximum` are left. With a negative maximum the
        last pop fails. */
    method Evict() returns (failed: bool)
      modifies this`entries
      ensures maximum >= 0 ==> !failed && entries == Recent(old(entries), maximum)
      ensures maximum < 0 ==> failed && entries == []
    {
      hide IsSuffix, Recent;
      SuffixOfSelf(entries);
      while |entries| > maximum
        invariant IsSuffix(entries, old(entries))
        invariant entries == old(entries) || |entries| >= maximum
      {
        if |entries| == 0 {
          return true;
        }
        DropFirst(entries, old(entries));
        entries := entries[1..];
      }
      SuffixIsRecent(entries, old(entries), maximum);
      return false;
    }

    /** Store a new conversation and drop the oldest entries. */
    method Create(op: Op) returns (r: Result<Conversation, StoreError>)
      requires Valid() && op.Create?
      modifies this`entries
      ensures Valid()
      ensures maximum >= 0 ==> r == Ok(Created(op)) && entries == BoundedChange(old(entries), op, titles, maximum)
      ensures maximum < 0 ==> r == Err(KeyError) && entries == []
    {
      hide Names, Place, Recent, Created, Distinct;
      var c := Created(op);
      ChangeDistinct(entries, op, titles);
      if Names(entries, op.id) {
        entries := entries[Place(entries, op.id) := c];
      } else {
        entries := entries + [c];
      }
      if maximum >= 0 {
        RecentDistinct(entries, maximum);
      }
      var failed := Evict();
      NothingDistinct();
      r := if failed then Err(KeyError) else Ok(c);
    }

    /** `set_active_embodiment`. */
    method SetActiveEmbodiment(op: Op) returns (r: Option<Conversation>)
      requires Valid() && op.SetEmbodiment?
      modifies this`entries
      ensures Valid() && entries == Change(old(entries), op, titles)
      ensures r == if Names(old(entries), op.id) then Some(entries[|entries| - 1]) else None
    {
      ChangeDistinct(entries, op, titles);
      if !Names(entries, op.id) {
        return None;
      }
      var i := Place(entries, op.id);
      var c := entries[i].(embodiment := op.embodiment, updated := op.now);
      entries := Without(entries, i) + [c];
      r := Some(c);
    }

    /** `append_message`. */
    method Append(op: Op) returns (r: Option<Message>)
      requires Valid() && op.AppendMessage?
      modifies this`entries
      ensures Valid() && entries == Change(old(entries), op, titles)
      ensures r == if Names(old(entries), op.id) then Some(Message(op.messageId, op.role, op.content, op.now)) else None
    {
      ChangeDistinct(entries, op, titles);
      if !Names(entries, op.id) {
        return None;
      }
      var i := Place(entries, op.id);
      var c := entries[i];
      var message := Message(op.messageId, op.role, op.content, op.now);
      var isFirstUser := if op.firstUser.Some? then op.firstUser.value else !HasUser(c.messages);
      c := c.(messages := c.messages + [message], updated := message.created);
      if op.role == "user" && isFirstUser {
        c := c.(title := titles(op.content));
      }
      entries := Without(entries, i) + [c];
      r := Some(message);
    }

    method Delete(id: string) returns (deleted: bool)
      requires Valid()
      modifies this`entries
      ensures Valid() && entries == Change(old(entries), Op.Delete(id), titles)
      ensures deleted <==> Names(old(entries), id)
    {
      ChangeDistinct(entries, Op.Delete(id), titles);
      deleted := Names(entries, id);
      if deleted {
        entries := Without(entries, Place(entries, id));
      }
    }

    /** Reading changes neither the contents nor the order. */
    method Get(id: string) returns (r: Option<Conversation>)
      requires Valid()
      ensures r.None? <==> !Names(entries, id)
      ensures r.Some? ==> forall i | 0 <= i < |entries| && entries[i].id == id :: r.value == entries[i]
    {
      if !Names(entries, id) {
        return None;
      }
      var place := Place(entries, id);
      r := Some(entries[place]);
      forall i | 0 <= i < |entries| && entries[i].id == id ensures i == place {
        PlaceIsOnly(entries, id, i);
      }
    }
  }
}
