/**
 The client's call demultiplexer: many callers, one task that owns the socket, replies that
 come back in any order or not at all.

 A call is known by its slot, the number the shared counter stood at when the call drew its
 id; the id on the wire is that number in 64 bits.
 */
module RpcClient {
  import opened Bytes
  import opened RencodeValue
  import opened RpcMessage
  import opened Transfer

  type Slot = nat

  datatype Outcome =
    | Answered(result: Value)
    | Remote(failure: Failure)
    | Disconnected
    | Protocol(error: Transfer.Error)

  datatype Pending = Pending(slot: Slot, request: Request)

  const IDS: nat := 0x1_0000_0000_0000_0000

  /** The id a slot is known by on the wire: the counter is a wrapping 64-bit integer. */
  function IdOf(slot: Slot): i64 {
    var low := slot % IDS;
    if low >= 0x8000_0000_0000_0000 then low - IDS else low
  }

  /**
   Everything there is to know about a connection and its callers.

   `calls` are the calls made; `inFlight` holds those that are not in the channel yet, `queue` the channel,
   `waiting` the calls written to the socket. `answers` records, per call, every use made of
   its reply channel; `refused` and `dropped` the calls whose channel was closed unused.
   `heard` is every message taken off the socket and `sentAt` how many there had been when a
   call was written.
   */
  datatype State = State(
    drawn: nat,
    calls: set<Slot>,
    inFlight: map<Slot, Pending>,
    queue: seq<Pending>,
    running: bool,
    stream: bytes,
    books: Books,
    refused: set<Slot>,
    dropped: set<Slot>,
    sentAt: map<Slot, nat>,
    out: Output)

  /** What was written to the socket, and the calls it was written for, in order. */
  datatype Output = Output(wire: bytes, order: seq<Slot>)

  /** The part of it that messages from the daemon change. */
  datatype Books = Books(
    waiting: map<i64, Slot>,
    answers: map<Slot, seq<Outcome>>,
    heard: seq<Value>,
    events: seq<Event>)

  const Start := State(0, {}, map[], [], true, [], Books(map[], map[], [], []), {}, {}, map[], Output([], []))

  // -------------------------------------------------------- what must happen

  /** How a message answers the call with this id, if it does. */
  function ReplyIn(message: Value, id: i64): Option<Outcome> {
    match FromValue(message)
    case Just(Response(i, result)) => if i == id then Just(Answered(result)) else Nothing
    case Just(Fault(i, failure)) => if i == id then Just(Remote(failure)) else Nothing
    case _ => Nothing
  }

  /** The first answer to `id` among the messages heard from number `from` on. */
  function FirstReply(heard: seq<Value>, from: nat, id: i64): Option<Outcome>
    decreases |heard| - from
  {
    if from >= |heard| then Nothing
    else if ReplyIn(heard[from], id).Just? then ReplyIn(heard[from], id)
    else FirstReply(heard, from + 1, id)
  }

  function EventsIn(heard: seq<Value>): seq<Event> {
    if heard == [] then []
    else
      var before := EventsIn(heard[..|heard| - 1]);
      match FromValue(heard[|heard| - 1])
      case Just(Pushed(event)) => before + [event]
      case _ => before
  }

  // ------------------------------------------------------------- the protocol

  datatype Step =
    | Draw(twice: bool, name: text, args: seq<Value>, kwargs: seq<Entry>)
    | Enqueue(slot: Slot)
    | Take(written: bool)
    | Read(chunk: bytes)
    | End

  function Answer(answers: map<Slot, seq<Outcome>>, slot: Slot, outcome: Outcome): map<Slot, seq<Outcome>> {
    answers[slot := (if slot in answers then answers[slot] else []) + [outcome]]
  }

  /** Tells everyone waiting that the connection is gone. */
  function FailAll(answers: map<Slot, seq<Outcome>>, waiting: map<i64, Slot>): map<Slot, seq<Outcome>> {
    map slot | slot in answers.Keys + waiting.Values ::
      (if slot in answers then answers[slot] else []) + if slot in waiting.Values then [Disconnected] else []
  }

  /** The socket task ends: those waiting are told, those still in the channel lose their end of it. */
  function Stopped(s: State): State {
    s.(running := false, stream := [], queue := [],
       books := s.books.(waiting := map[], answers := FailAll(s.books.answers, s.books.waiting)),
       dropped := s.dropped + set p | p in s.queue :: p.slot)
  }

  function Settle(b: Books, id: i64, outcome: Outcome): Books {
    if id in b.waiting then
      b.(waiting := b.waiting - {id}, answers := Answer(b.answers, b.waiting[id], outcome))
    else b
  }

  function Routed(b: Books, message: Value): Books {
    var c := b.(heard := b.heard + [message]);
    match FromValue(message)
    case Just(Response(id, result)) => Settle(c, id, Answered(result))
    case Just(Fault(id, failure)) => Settle(c, id, Remote(failure))
    case Just(Pushed(event)) => c.(events := b.events + [event])
    case Nothing => c
  }

  function RoutedAll(b: Books, messages: seq<Value>): Books {
    if messages == [] then b
    else Routed(RoutedAll(b, messages[..|messages| - 1]), messages[|messages| - 1])
  }

  predicate Enabled(s: State, step: Step) {
    match step
    case Draw(_, _, _, _) => true
    case Enqueue(slot) => slot in s.inFlight
    case Take(_) => s.running && s.queue != []
    case Read(_) => s.running
    case End => s.running
  }

  /** A call draws its number; `call` draws one and throws it away before `call_with` draws its own. */
  function Drawn(s: State, twice: bool, name: text, args: seq<Value>, kwargs: seq<Entry>): State {
    var slot := if twice then s.drawn + 1 else s.drawn;
    s.(drawn := slot + 1,
       calls := s.calls + {slot},
       inFlight := s.inFlight[slot := Pending(slot, Request(IdOf(slot), name, args, kwargs))])
  }

  /** A call goes into the channel, or finds it closed. */
  function Enqueued(s: State, slot: Slot): State
    requires slot in s.inFlight
  {
    var t := s.(inFlight := s.inFlight - {slot});
    if s.running then t.(queue := s.queue + [s.inFlight[slot]]) else t.(refused := s.refused + {slot})
  }

  /** The head of the channel answered on the spot, without ever being written. */
  function TurnedAway(s: State, outcome: Outcome): State
    requires s.queue != []
  {
    s.(queue := s.queue[1..],
       books := s.books.(answers := Answer(s.books.answers, s.queue[0].slot, outcome)))
  }

  /** The head of the channel written to the socket: from here on it waits. */
  function Written(s: State): State
    requires s.queue != []
  {
    var head := s.queue[0];
    s.(queue := s.queue[1..],
       books := s.books.(waiting := s.books.waiting[head.request.id := head.slot]),
       sentAt := s.sentAt[head.slot := |s.books.heard|])
  }

  /** The frame of a call has gone out. */
  function Flushed(s: State, frame: bytes, slot: Slot): State {
    s.(out := Output(s.out.wire + frame, s.out.order + [slot]))
  }

  function Taken(zlib: Zlib, s: State, written: bool): State
    requires s.queue != []
  {
    var frame := Frame(zlib, RequestsToValue([s.queue[0].request]));
    if frame.Err? then TurnedAway(s, Protocol(frame.error))
    else if written then Flushed(Written(s), frame.value, s.queue[0].slot)
    else Stopped(TurnedAway(s, Disconnected))
  }

  function Heard(zlib: Zlib, limits: Limits, s: State, chunk: bytes): State {
    var got := Messages(zlib, limits, s.stream + chunk);
    var t := s.(books := RoutedAll(s.books, got.messages), stream := Leftover(zlib, limits, s.stream + chunk));
    if got.fault.Just? then Stopped(t) else t
  }

  function Next(zlib: Zlib, limits: Limits, s: State, step: Step): State
    requires Enabled(s, step)
  {
    match step
    case Draw(twice, name, args, kwargs) => Drawn(s, twice, name, args, kwargs)
    case Enqueue(slot) => Enqueued(s, slot)
    case Take(written) => Taken(zlib, s, written)
    case Read(chunk) => Heard(zlib, limits, s, chunk)
    case End => Stopped(s)
  }

  /** Where a sequence of steps leads, if every one of them can be taken. */
  function After(zlib: Zlib, limits: Limits, steps: seq<Step>): Option<State> {
    if steps == [] then Just(Start)
    else
      var before := After(zlib, limits, steps[..|steps| - 1]);
      var step := steps[|steps| - 1];
      if before.Just? && Enabled(before.value, step) then Just(Next(zlib, limits, before.value, step)) else Nothing
  }

  // --------------------------------------------------------------- invariant

  predicate InQueue(s: State, slot: Slot) {
    exists i | 0 <= i < |s.queue| :: s.queue[i].slot == slot
  }

  /** A call nothing has come of yet. */
  predicate Untouched(s: State, slot: Slot) {
    slot !in s.books.answers && slot !in s.refused && slot !in s.dropped && slot !in s.sentAt
  }

  predicate Genuine(s: State, pending: Pending) {
    pending.slot in s.calls && pending.request.id == IdOf(pending.slot) && Untouched(s, pending.slot)
  }

  /** Calls on their way to the socket: numbered, in one place only, nothing come of them yet. */
  predicate ToSend(s: State) {
    && (forall slot | slot in s.inFlight :: s.inFlight[slot].slot == slot && Genuine(s, s.inFlight[slot]))
    && (forall i | 0 <= i < |s.queue| :: Genuine(s, s.queue[i]) && s.queue[i].slot !in s.inFlight)
    && (forall i, j | 0 <= i < j < |s.queue| :: s.queue[i].slot != s.queue[j].slot)
  }

  /** What a call written after message `from` has coming to it, from the messages heard since. */
  function Due(heard: seq<Value>, running: bool, from: nat, slot: Slot): Option<Outcome> {
    var reply := FirstReply(heard, from, IdOf(slot));
    if reply.Just? then reply
    else if running then Nothing
    else Just(Disconnected)
  }

  predicate Waits(waiting: map<i64, Slot>, slot: Slot) {
    IdOf(slot) in waiting && waiting[IdOf(slot)] == slot
  }

  /** A call written has been given exactly what is due to it, and waits exactly while nothing is. */
  predicate Settled(s: State, slot: Slot)
    requires slot in s.sentAt
  {
    match Due(s.books.heard, s.running, s.sentAt[slot], slot)
    case Nothing => slot !in s.books.answers && Waits(s.books.waiting, slot)
    case Just(outcome) => slot in s.books.answers && s.books.answers[slot] == [outcome] && !Waits(s.books.waiting, slot)
  }

  predicate Sent(s: State) {
    && (forall slot | slot in s.sentAt ::
          slot in s.calls && s.sentAt[slot] <= |s.books.heard| && slot !in s.refused && slot !in s.dropped)
    && (forall slot | slot in s.sentAt :: Settled(s, slot))
    && (forall id | id in s.books.waiting :: s.books.waiting[id] in s.sentAt && IdOf(s.books.waiting[id]) == id)
  }

  /** Calls that were never written heard of it through no message. */
  predicate NeverSent(s: State) {
    forall slot | slot in s.books.answers && slot !in s.sentAt ::
      && slot in s.calls
      && slot !in s.refused && slot !in s.dropped
      && |s.books.answers[slot]| == 1
      && (s.books.answers[slot][0].Disconnected? || s.books.answers[slot][0].Protocol?)
  }

  predicate Somewhere(s: State, slot: Slot) {
    || slot in s.inFlight || InQueue(s, slot) || slot in s.sentAt
    || slot in s.books.answers || slot in s.refused || slot in s.dropped
  }

  predicate Accounted(s: State) {
    && (forall slot | slot in s.calls :: Somewhere(s, slot))
    && (forall slot | slot in s.calls :: slot < s.drawn)
    && s.refused + s.dropped <= s.calls
    && s.refused !! s.dropped
    && (!s.running ==> s.books.waiting == map[] && s.queue == [])
  }

  predicate Inv(s: State) {
    ToSend(s) && Sent(s) && NeverSent(s) && Accounted(s) && s.books.events == EventsIn(s.books.heard)
  }

  // ------------------------------------------------------ the steps keep it

  lemma IdsAreDistinct(a: Slot, b: Slot)
    requires a < IDS && b < IDS && IdOf(a) == IdOf(b)
    ensures a == b
  {
  }

  lemma {:induction false} FirstReplyLater(heard: seq<Value>, message: Value, from: nat, id: i64)
    requires from <= |heard|
    ensures FirstReply(heard + [message], from, id)
         == if FirstReply(heard, from, id).Just? then FirstReply(heard, from, id) else ReplyIn(message, id)
    decreases |heard| - from
  {
    if from < |heard| {
      FirstReplyLater(heard, message, from + 1, id);
    }
  }

  /** Two states that agree on what a written call has heard and been given settle it alike. */
  lemma SettledAlike(s: State, t: State, slot: Slot)
    requires slot in s.sentAt && slot in t.sentAt && s.sentAt[slot] == t.sentAt[slot]
    requires s.books == t.books && s.running == t.running
    ensures Settled(s, slot) <==> Settled(t, slot)
  {
    hide Due, Waits;
  }

  lemma SentAlike(s: State, t: State)
    requires Sent(s) && t.sentAt == s.sentAt && t.books == s.books && t.running == s.running
    requires s.calls <= t.calls
    requires forall slot | slot in s.sentAt :: slot !in t.refused && slot !in t.dropped
    ensures Sent(t)
  {
    hide Settled;
    forall slot | slot in t.sentAt
      ensures Settled(t, slot)
    {
      assert Settled(s, slot);
      SettledAlike(s, t, slot);
    }
  }

  lemma QueuedAlike(s: State, t: State, slot: Slot)
    requires s.queue == t.queue
    ensures InQueue(s, slot) <==> InQueue(t, slot)
  {
  }

  lemma DrawnIsToSend(s: State, twice: bool, name: text, args: seq<Value>, kwargs: seq<Entry>)
    requires Inv(s)
    ensures ToSend(Drawn(s, twice, name, args, kwargs)) && NeverSent(Drawn(s, twice, name, args, kwargs))
  {
    hide IdOf, Settled, Somewhere;
  }

  lemma DrawnIsAccounted(s: State, twice: bool, name: text, args: seq<Value>, kwargs: seq<Entry>)
    requires Accounted(s)
    ensures Accounted(Drawn(s, twice, name, args, kwargs))
  {
    hide IdOf, InQueue;
    var t := Drawn(s, twice, name, args, kwargs);
    forall slot | slot in t.calls
      ensures Somewhere(t, slot)
    {
      QueuedAlike(s, t, slot);
      assert slot in s.calls ==> Somewhere(s, slot);
    }
  }

  lemma DrawKeeps(s: State, twice: bool, name: text, args: seq<Value>, kwargs: seq<Entry>)
    requires Inv(s)
    ensures Inv(Drawn(s, twice, name, args, kwargs))
  {
    hide IdOf, ToSend, NeverSent, Accounted;
    DrawnIsToSend(s, twice, name, args, kwargs);
    DrawnIsAccounted(s, twice, name, args, kwargs);
    assert forall slot | slot in s.sentAt :: slot !in s.refused && slot !in s.dropped;
    hide Sent;
    SentAlike(s, Drawn(s, twice, name, args, kwargs));
  }

  lemma EnqueuedIsToSend(s: State, slot: Slot)
    requires ToSend(s) && NeverSent(s) && slot in s.inFlight
    ensures ToSend(Enqueued(s, slot)) && NeverSent(Enqueued(s, slot))
  {
    hide IdOf;
    assert Genuine(s, s.inFlight[slot]);
  }

  lemma EnqueuedIsAccounted(s: State, slot: Slot)
    requires ToSend(s) && Accounted(s) && slot in s.inFlight
    ensures Accounted(Enqueued(s, slot))
  {
    hide IdOf, Somewhere;
    var t := Enqueued(s, slot);
    assert Genuine(s, s.inFlight[slot]);
    forall other | other in t.calls
      ensures Somewhere(t, other)
    {
      assert Somewhere(s, other);
      EnqueueLosesNobody(s, slot, other);
    }
  }

  lemma EnqueueKeeps(s: State, slot: Slot)
    requires Inv(s) && slot in s.inFlight
    ensures Inv(Enqueued(s, slot))
  {
    EnqueuedIsToSend(s, slot);
    EnqueuedIsAccounted(s, slot);
    assert Genuine(s, s.inFlight[slot]) && s.inFlight[slot].slot == slot;
    hide ToSend, NeverSent, Accounted, IdOf;
    assert forall other | other in s.sentAt :: other !in s.refused && other !in s.dropped && other != slot;
    hide Sent;
    SentAlike(s, Enqueued(s, slot));
  }

  lemma EnqueueLosesNobody(s: State, slot: Slot, other: Slot)
    requires slot in s.inFlight && s.inFlight[slot].slot == slot && Somewhere(s, other)
    ensures Somewhere(Enqueued(s, slot), other)
  {
    var t := Enqueued(s, slot);
    if InQueue(s, other) {
      var i :| 0 <= i < |s.queue| && s.queue[i].slot == other;
      assert t.queue[i].slot == other;
    } else if s.running && other == slot {
      assert t.queue[|s.queue|].slot == slot;
    }
  }

  /** The end of the connection makes something due to everybody. */
  lemma DueAtTheEnd(heard: seq<Value>, from: nat, slot: Slot)
    ensures Due(heard, false, from, slot)
         == if Due(heard, true, from, slot).Just? then Due(heard, true, from, slot) else Just(Disconnected)
  {
  }

  lemma StopSettles(s: State, slot: Slot)
    requires Inv(s) && s.running && slot in s.sentAt
    ensures slot in Stopped(s).sentAt && Settled(Stopped(s), slot)
  {
    hide Due, IdOf, ToSend, NeverSent, Accounted;
    assert Settled(s, slot);
    DueAtTheEnd(s.books.heard, s.sentAt[slot], slot);
    assert Waits(s.books.waiting, slot) == (slot in s.books.waiting.Values);
  }

  lemma StopLosesNobody(s: State, slot: Slot)
    requires Somewhere(s, slot)
    ensures Somewhere(Stopped(s), slot)
  {
    if InQueue(s, slot) {
      var i :| 0 <= i < |s.queue| && s.queue[i].slot == slot;
      assert s.queue[i] in s.queue;
    }
  }

  lemma StoppedIsSent(s: State)
    requires Inv(s) && s.running
    ensures Sent(Stopped(s))
  {
    hide Due, IdOf, NeverSent, Settled;
    var t := Stopped(s);
    assert forall i | 0 <= i < |s.queue| :: Genuine(s, s.queue[i]);
    forall slot | slot in t.sentAt
      ensures Settled(t, slot) && slot !in t.dropped
    {
      StopSettles(s, slot);
    }
  }

  lemma StoppedIsAccounted(s: State)
    requires ToSend(s) && Accounted(s) && s.running
    ensures Accounted(Stopped(s))
  {
    hide IdOf, Somewhere;
    var t := Stopped(s);
    forall slot | slot in t.calls
      ensures Somewhere(t, slot)
    {
      assert Somewhere(s, slot);
      StopLosesNobody(s, slot);
    }
    assert forall i | 0 <= i < |s.queue| :: Genuine(s, s.queue[i]);
  }

  lemma StoppedIsNeverSent(s: State)
    requires Inv(s) && s.running
    ensures NeverSent(Stopped(s))
  {
    hide Due, IdOf, Settled, Accounted;
    var t := Stopped(s);
    forall slot | slot in t.books.answers && slot !in t.sentAt
      ensures slot in s.books.answers && t.books.answers[slot] == s.books.answers[slot] && slot !in t.dropped
    {
      assert slot !in s.books.waiting.Values;
      assert s.books.answers[slot] + [] == s.books.answers[slot];
    }
  }

  lemma StopKeeps(s: State)
    requires Inv(s) && s.running
    ensures Inv(Stopped(s))
  {
    StoppedIsSent(s);
    StoppedIsNeverSent(s);
    assert ToSend(s) && Accounted(s);
    hide Sent, NeverSent, Accounted, IdOf;
    StoppedIsAccounted(s);
    assert ToSend(Stopped(s));
  }

  /** Taking the head off the channel moves no other call. */
  lemma QueueShrinks(s: State, t: State)
    requires Accounted(s) && s.queue != [] && t.queue == s.queue[1..]
    requires t.calls == s.calls && t.inFlight == s.inFlight && t.refused == s.refused && t.dropped == s.dropped
    requires s.sentAt.Keys <= t.sentAt.Keys && s.books.answers.Keys <= t.books.answers.Keys
    requires s.queue[0].slot in t.sentAt || s.queue[0].slot in t.books.answers
    ensures forall slot | slot in t.calls :: Somewhere(t, slot)
  {
    forall slot | slot in t.calls
      ensures Somewhere(t, slot)
    {
      assert Somewhere(s, slot);
      if slot != s.queue[0].slot && InQueue(s, slot) {
        var i :| 0 <= i < |s.queue| && s.queue[i].slot == slot;
        assert t.queue[i - 1].slot == slot;
      }
    }
  }

  lemma TurnedAwayKeeps(s: State, outcome: Outcome)
    requires Inv(s) && s.running && s.queue != [] && (outcome.Disconnected? || outcome.Protocol?)
    ensures Inv(TurnedAway(s, outcome))
  {
    hide Due, IdOf, Somewhere;
    var t := TurnedAway(s, outcome);
    assert Genuine(s, s.queue[0]);
    QueueShrinks(s, t);
    forall slot | slot in t.sentAt
      ensures Settled(t, slot)
    {
      assert Settled(s, slot);
    }
  }

  lemma WrittenKeeps(s: State)
    requires Inv(s) && s.running && s.queue != [] && s.drawn <= IDS
    ensures Inv(Written(s))
  {
    hide Due, IdOf, Somewhere;
    var head := s.queue[0];
    var t := Written(s);
    assert Genuine(s, head);
    QueueShrinks(s, t);
    NothingDueYet(s.books.heard, head.slot);
    forall slot | slot in t.sentAt
      ensures Settled(t, slot)
    {
      if slot != head.slot {
        assert Settled(s, slot);
        if IdOf(slot) == head.request.id {
          IdsAreDistinct(slot, head.slot);
        }
      }
    }
  }

  lemma NothingDueYet(heard: seq<Value>, slot: Slot)
    ensures Due(heard, true, |heard|, slot).Nothing?
  {
  }

  /** The bytes held for the next message and those written are no part of what is promised. */
  lemma BytesDoNotMatter(s: State, stream: bytes, out: Output)
    requires Inv(s)
    ensures Inv(s.(stream := stream, out := out))
  {
    hide Due, IdOf;
    var t := s.(stream := stream, out := out);
    assert forall slot | slot in s.calls :: Somewhere(s, slot) && InQueue(s, slot) == InQueue(t, slot);
    assert forall slot | slot in s.sentAt :: Settled(s, slot) == Settled(t, slot);
  }

  lemma StreamIsKept(s: State)
    requires s.queue != []
    ensures Written(s).stream == s.stream && Written(s).out == s.out
  {
  }

  lemma TakeKeeps(zlib: Zlib, s: State, written: bool)
    requires Inv(s) && s.running && s.queue != [] && s.drawn <= IDS
    ensures Inv(Taken(zlib, s, written))
  {
    hide Frame, Stopped, Written, ToSend, Sent, NeverSent, Accounted;
    var frame := Frame(zlib, RequestsToValue([s.queue[0].request]));
    if frame.Err? {
      TurnedAwayKeeps(s, Protocol(frame.error));
    } else if written {
      WrittenKeeps(s);
      BytesDoNotMatter(Written(s), s.stream, Output(s.out.wire + frame.value, s.out.order + [s.queue[0].slot]));
      StreamIsKept(s);
    } else {
      TurnedAwayKeeps(s, Disconnected);
      StopKeeps(TurnedAway(s, Disconnected));
    }
  }

  /** What one more message changes about what is due. */
  lemma DueLater(heard: seq<Value>, message: Value, from: nat, slot: Slot)
    requires from <= |heard|
    ensures Due(heard + [message], true, from, slot)
         == if Due(heard, true, from, slot).Just? then Due(heard, true, from, slot) else ReplyIn(message, IdOf(slot))
  {
    FirstReplyLater(heard, message, from, IdOf(slot));
  }

  function Replied(s: State, message: Value, id: i64, outcome: Outcome): State {
    s.(books := Settle(s.books.(heard := s.books.heard + [message]), id, outcome))
  }

  lemma RepliedIsSent(s: State, message: Value, id: i64, outcome: Outcome)
    requires Inv(s) && s.running && s.drawn <= IDS
    requires forall i: i64 :: ReplyIn(message, i) == if i == id then Just(outcome) else Nothing
    ensures Sent(Replied(s, message, id, outcome))
  {
    hide Due, IdOf, EventsIn, ReplyIn, ToSend, NeverSent;
    var t := Replied(s, message, id, outcome);
    if id in s.books.waiting {
      assert Settled(s, s.books.waiting[id]);
    }
    forall slot | slot in t.sentAt
      ensures Settled(t, slot)
    {
      assert Settled(s, slot);
      DueLater(s.books.heard, message, s.sentAt[slot], slot);
      if id in s.books.waiting && IdOf(slot) == id {
        IdsAreDistinct(slot, s.books.waiting[id]);
      }
    }
  }

  lemma RepliedIsAccounted(s: State, message: Value, id: i64, outcome: Outcome)
    requires Inv(s) && s.running
    ensures Accounted(Replied(s, message, id, outcome))
  {
    hide Due, IdOf, EventsIn, ToSend, NeverSent, Settled, InQueue;
    var t := Replied(s, message, id, outcome);
    forall slot | slot in t.calls
      ensures Somewhere(t, slot)
    {
      assert Somewhere(s, slot);
      QueuedAlike(s, t, slot);
    }
  }

  lemma RepliedIsToSend(s: State, message: Value, id: i64, outcome: Outcome)
    requires Inv(s) && s.running
    ensures ToSend(Replied(s, message, id, outcome)) && NeverSent(Replied(s, message, id, outcome))
  {
    hide Due, IdOf, EventsIn, Accounted;
    if id in s.books.waiting {
      assert Settled(s, s.books.waiting[id]);
    }
    hide Settled;
  }

  /** A message carrying the id of a call that waits settles that call and no other. */
  lemma ReplyKeeps(s: State, message: Value, id: i64, outcome: Outcome)
    requires Inv(s) && s.running && s.drawn <= IDS
    requires forall i: i64 :: ReplyIn(message, i) == if i == id then Just(outcome) else Nothing
    requires EventsIn(s.books.heard + [message]) == EventsIn(s.books.heard)
    ensures Inv(s.(books := Settle(s.books.(heard := s.books.heard + [message]), id, outcome)))
  {
    RepliedIsSent(s, message, id, outcome);
    RepliedIsAccounted(s, message, id, outcome);
    RepliedIsToSend(s, message, id, outcome);
    hide EventsIn, ReplyIn, ToSend, Sent, NeverSent, Accounted;
  }

  /** A message that answers nobody leaves every call as it was. */
  lemma OtherKeeps(s: State, message: Value, events: seq<Event>)
    requires Inv(s) && s.running
    requires forall i: i64 :: ReplyIn(message, i).Nothing?
    requires EventsIn(s.books.heard + [message]) == events
    ensures Inv(s.(books := s.books.(heard := s.books.heard + [message], events := events)))
  {
    hide Due, IdOf, EventsIn, ReplyIn;
    var t := s.(books := s.books.(heard := s.books.heard + [message], events := events));
    assert forall slot | slot in s.calls :: Somewhere(s, slot) && InQueue(s, slot) == InQueue(t, slot);
    forall slot | slot in t.sentAt
      ensures Settled(t, slot)
    {
      assert Settled(s, slot);
      DueLater(s.books.heard, message, s.sentAt[slot], slot);
    }
  }

  lemma RoutedKeeps(s: State, message: Value)
    requires Inv(s) && s.running && s.drawn <= IDS
    ensures Inv(s.(books := Routed(s.books, message)))
  {
    hide FromValue, ToSend, Sent, NeverSent, Accounted, Settle;
    var heard := s.books.heard + [message];
    assert heard[..|s.books.heard|] == s.books.heard;
    match FromValue(message)
    case Just(Response(id, result)) => ReplyKeeps(s, message, id, Answered(result));
    case Just(Fault(id, failure)) => ReplyKeeps(s, message, id, Remote(failure));
    case Just(Pushed(event)) => OtherKeeps(s, message, s.books.events + [event]);
    case Nothing => OtherKeeps(s, message, s.books.events);
  }

  lemma {:induction false} RoutedAllKeeps(s: State, messages: seq<Value>)
    requires Inv(s) && s.running && s.drawn <= IDS
    ensures Inv(s.(books := RoutedAll(s.books, messages)))
  {
    hide Inv;
    if messages == [] {
      assert s.(books := s.books) == s;
    } else {
      var front := messages[..|messages| - 1];
      RoutedAllKeeps(s, front);
      RoutedKeeps(s.(books := RoutedAll(s.books, front)), messages[|messages| - 1]);
    }
  }

  lemma StepKeeps(zlib: Zlib, limits: Limits, s: State, step: Step)
    requires Inv(s) && Enabled(s, step) && s.drawn <= IDS
    ensures Inv(Next(zlib, limits, s, step))
  {
    hide Inv, Drawn, Enqueued, Taken, Stopped, Routed, RoutedAll, Messages, Leftover;
    match step
    case Draw(twice, name, args, kwargs) => DrawKeeps(s, twice, name, args, kwargs);
    case Enqueue(slot) => EnqueueKeeps(s, slot);
    case Take(written) => TakeKeeps(zlib, s, written);
    case Read(chunk) =>
      var messages := Messages(zlib, limits, s.stream + chunk).messages;
      RoutedAllKeeps(s, messages);
      var t := s.(books := RoutedAll(s.books, messages));
      var stream := Leftover(zlib, limits, s.stream + chunk);
      BytesDoNotMatter(t, stream, t.out);
      StopKeeps(t.(stream := stream));
    case End => StopKeeps(s);
  }

  // ------------------------------------------------------------ main results

  lemma DrawnOnlyGrows(zlib: Zlib, limits: Limits, s: State, step: Step)
    requires Enabled(s, step)
    ensures s.drawn <= Next(zlib, limits, s, step).drawn
  {
    hide Messages, Leftover, RoutedAll;
  }

  /** Every state a connection can get into keeps the books, as long as the counter has not come round. */
  lemma {:induction false} RunsKeepBooks(zlib: Zlib, limits: Limits, steps: seq<Step>)
    requires After(zlib, limits, steps).Just? && After(zlib, limits, steps).value.drawn <= IDS
    ensures Inv(After(zlib, limits, steps).value)
  {
    hide Next;
    if steps == [] {
    } else {
      hide Inv;
      var before := After(zlib, limits, steps[..|steps| - 1]).value;
      DrawnOnlyGrows(zlib, limits, before, steps[|steps| - 1]);
      RunsKeepBooks(zlib, limits, steps[..|steps| - 1]);
      StepKeeps(zlib, limits, before, steps[|steps| - 1]);
    }
  }

  /** No reply channel is ever used twice, whatever the daemon sends and whenever the socket dies. */
  lemma NeverAnsweredTwice(zlib: Zlib, limits: Limits, steps: seq<Step>, slot: Slot)
    requires After(zlib, limits, steps).Just? && After(zlib, limits, steps).value.drawn <= IDS
    ensures var s := After(zlib, limits, steps).value; slot in s.books.answers ==> |s.books.answers[slot]| == 1
  {
    hide After;
    RunsKeepBooks(zlib, limits, steps);
    var s := After(zlib, limits, steps).value;
    assert slot in s.sentAt ==> Settled(s, slot);
    if slot in s.books.answers && slot in s.sentAt {
      AnsweredWereSent(s, slot);
    }
  }

  lemma AnsweredWereSent(s: State, slot: Slot)
    requires Inv(s) && slot in s.books.answers && slot in s.sentAt
    ensures Due(s.books.heard, s.running, s.sentAt[slot], slot).Just?
    ensures s.books.answers[slot] == [Due(s.books.heard, s.running, s.sentAt[slot], slot).value]
  {
    hide Due, IdOf;
    assert Settled(s, slot);
  }

  /**
   A call is given a result or a remote failure only when it was written, and then it is the
   first message with its own id heard since.
   */
  lemma OnlyItsOwnReply(zlib: Zlib, limits: Limits, steps: seq<Step>, slot: Slot, outcome: Outcome)
    requires After(zlib, limits, steps).Just? && After(zlib, limits, steps).value.drawn <= IDS
    requires outcome.Answered? || outcome.Remote?
    ensures var s := After(zlib, limits, steps).value;
            (slot in s.books.answers && outcome in s.books.answers[slot])
            <==> (slot in s.sentAt && FirstReply(s.books.heard, s.sentAt[slot], IdOf(slot)) == Just(outcome))
  {
    hide After, FirstReply, IdOf;
    RunsKeepBooks(zlib, limits, steps);
    var s := After(zlib, limits, steps).value;
    assert slot in s.sentAt ==> Settled(s, slot);
  }

  /** Once the socket task has ended nobody waits, and every call taken off the channel has its answer. */
  lemma EndedMeansAnswered(zlib: Zlib, limits: Limits, steps: seq<Step>, slot: Slot)
    requires After(zlib, limits, steps).Just? && After(zlib, limits, steps).value.drawn <= IDS
    requires !After(zlib, limits, steps).value.running
    requires slot in After(zlib, limits, steps).value.calls
    ensures var s := After(zlib, limits, steps).value;
            && s.books.waiting == map[] && s.queue == []
            && (slot in s.books.answers || slot in s.inFlight || slot in s.refused || slot in s.dropped)
            && (slot in s.sentAt ==> slot in s.books.answers)
  {
    hide After, IdOf;
    RunsKeepBooks(zlib, limits, steps);
    var s := After(zlib, limits, steps).value;
    assert Somewhere(s, slot);
    assert slot in s.sentAt ==> Settled(s, slot);
  }

  /** Events reach the subscribers in the order they were heard, none lost and none made up. */
  lemma EventsInOrder(zlib: Zlib, limits: Limits, steps: seq<Step>)
    requires After(zlib, limits, steps).Just? && After(zlib, limits, steps).value.drawn <= IDS
    ensures var s := After(zlib, limits, steps).value; s.books.events == EventsIn(s.books.heard)
  {
    RunsKeepBooks(zlib, limits, steps);
  }
}
