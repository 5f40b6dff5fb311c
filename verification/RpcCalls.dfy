/** What reaches the daemon: every call written to the socket as it was made, whole, once and in the order taken. */
module RpcCalls {
  import opened Bytes
  import opened RencodeValue
  import opened RpcMessage
  import opened Transfer
  import opened RpcClient

  /** The request a slot was drawn for. */
  function Made(zlib: Zlib, limits: Limits, steps: seq<Step>, slot: Slot): Option<Request> {
    if steps == [] then Nothing
    else
      var front, last := steps[..|steps| - 1], steps[|steps| - 1];
      var earlier, before := Made(zlib, limits, front, slot), After(zlib, limits, front);
      if earlier.Just? then earlier
      else if last.Draw? && before.Just? && slot == before.value.drawn + (if last.twice then 1 else 0) then
        Just(Request(IdOf(slot), last.name, last.args, last.kwargs))
      else Nothing
  }

  function MadeIn(zlib: Zlib, limits: Limits, steps: seq<Step>): Slot -> Option<Request> {
    (slot: Slot) => Made(zlib, limits, steps, slot)
  }

  /** A call that was made, and whose request can be framed. */
  predicate CanGo(zlib: Zlib, made: Slot -> Option<Request>, slot: Slot) {
    made(slot).Just? && Frame(zlib, RequestsToValue([made(slot).value])).Ok?
  }

  function Requests(zlib: Zlib, made: Slot -> Option<Request>, order: seq<Slot>): (values: seq<Value>)
    requires forall i | 0 <= i < |order| :: CanGo(zlib, made, order[i])
    ensures |values| == |order|
    ensures forall i | 0 <= i < |values| :: made(order[i]).Just? && values[i] == RequestsToValue([made(order[i]).value])
    ensures forall i | 0 <= i < |values| :: Frame(zlib, values[i]).Ok?
  {
    if order == [] then []
    else
      var last := |order| - 1;
      assert CanGo(zlib, made, order[last]);
      Requests(zlib, made, order[..last]) + [RequestsToValue([made(order[last]).value])]
  }

  /** The calls on their way carry their own requests, and the socket was written exactly those of the calls gone out. */
  ghost predicate Traced(zlib: Zlib, made: Slot -> Option<Request>, s: State) {
    && (forall slot: Slot | made(slot).Just? :: slot < s.drawn)
    && (forall slot | slot in s.inFlight :: s.inFlight[slot].slot == slot && made(slot) == Just(s.inFlight[slot].request))
    && (forall i | 0 <= i < |s.queue| :: made(s.queue[i].slot) == Just(s.queue[i].request))
    && (forall i | 0 <= i < |s.out.order| :: CanGo(zlib, made, s.out.order[i]))
    && s.out.wire == Stream(zlib, Requests(zlib, made, s.out.order))
  }

  lemma {:induction false} StreamSnoc(zlib: Zlib, values: seq<Value>, last: Value)
    requires forall i | 0 <= i < |values| :: Frame(zlib, values[i]).Ok?
    requires Frame(zlib, last).Ok?
    ensures Stream(zlib, values + [last]) == Stream(zlib, values) + Frame(zlib, last).value
  {
    hide Frame;
    if values == [] {
      assert values + [last] == [last] && [last][1..] == [];
      assert Frame(zlib, last).value + [] == [] + Frame(zlib, last).value;
    } else {
      assert (values + [last])[1..] == values[1..] + [last];
      StreamSnoc(zlib, values[1..], last);
      Regrouped(Frame(zlib, values[0]).value, Stream(zlib, values[1..]), Frame(zlib, last).value);
    }
  }

  /** More calls being made changes nothing for those made before. */
  lemma TracedOn(zlib: Zlib, made: Slot -> Option<Request>, more: Slot -> Option<Request>, s: State)
    requires Traced(zlib, made, s) && forall slot: Slot | made(slot).Just? :: more(slot) == made(slot)
    requires forall slot: Slot | more(slot).Just? :: slot < s.drawn
    ensures Traced(zlib, more, s)
  {
    hide Frame, Stream;
    assert Requests(zlib, more, s.out.order) == Requests(zlib, made, s.out.order);
  }

  /** Only the writing of a call adds to the wire. */
  lemma Unwritten(zlib: Zlib, made: Slot -> Option<Request>, s: State, t: State)
    requires Traced(zlib, made, s) && t.out == s.out && t.drawn == s.drawn && t.inFlight == s.inFlight
    requires forall p | p in t.queue :: p in s.queue
    ensures Traced(zlib, made, t)
  {
    hide CanGo, Requests, Stream;
    forall i | 0 <= i < |t.queue|
      ensures made(t.queue[i].slot) == Just(t.queue[i].request)
    {
      assert t.queue[i] in s.queue;
    }
  }

  lemma EnqueueTraced(zlib: Zlib, made: Slot -> Option<Request>, s: State, slot: Slot)
    requires Traced(zlib, made, s) && slot in s.inFlight
    ensures Traced(zlib, made, Enqueued(s, slot))
  {
    hide CanGo, Requests, Stream;
  }

  lemma RequestsSnoc(zlib: Zlib, made: Slot -> Option<Request>, order: seq<Slot>, slot: Slot)
    requires (forall i | 0 <= i < |order| :: CanGo(zlib, made, order[i])) && CanGo(zlib, made, slot)
    ensures forall i | 0 <= i < |order + [slot]| :: CanGo(zlib, made, (order + [slot])[i])
    ensures (Requests(zlib, made, order + [slot])
             == Requests(zlib, made, order) + [RequestsToValue([made(slot).value])])
  {
    hide Frame, RequestsToValue;
    assert (order + [slot])[..|order|] == order;
  }

  lemma GoesOn(zlib: Zlib, made: Slot -> Option<Request>, head: Pending)
    requires made(head.slot) == Just(head.request) && Frame(zlib, RequestsToValue([head.request])).Ok?
    ensures CanGo(zlib, made, head.slot)
  {
    hide Frame, RequestsToValue;
  }

  lemma FlushTraced(zlib: Zlib, made: Slot -> Option<Request>, s: State)
    requires Traced(zlib, made, s) && s.queue != []
    requires Frame(zlib, RequestsToValue([s.queue[0].request])).Ok?
    ensures var head := s.queue[0];
            Traced(zlib, made, Flushed(Written(s), Frame(zlib, RequestsToValue([head.request])).value, head.slot))
  {
    hide Frame, Stream, RequestsToValue, CanGo, Requests;
    var head := s.queue[0];
    GoesOn(zlib, made, head);
    RequestsSnoc(zlib, made, s.out.order, head.slot);
    StreamSnoc(zlib, Requests(zlib, made, s.out.order), RequestsToValue([head.request]));
  }

  lemma StoppedKeepsOut(s: State)
    ensures var t := Stopped(s); t.out == s.out && t.drawn == s.drawn && t.inFlight == s.inFlight && t.queue == []
  {
  }

  lemma TakeTraced(zlib: Zlib, made: Slot -> Option<Request>, s: State, written: bool)
    requires Traced(zlib, made, s) && s.queue != []
    ensures Traced(zlib, made, Taken(zlib, s, written))
  {
    hide Traced, Frame, Stopped;
    var frame := Frame(zlib, RequestsToValue([s.queue[0].request]));
    if frame.Err? {
      Unwritten(zlib, made, s, TurnedAway(s, Protocol(frame.error)));
    } else if written {
      FlushTraced(zlib, made, s);
    } else {
      StoppedKeepsOut(TurnedAway(s, Disconnected));
      Unwritten(zlib, made, s, Stopped(TurnedAway(s, Disconnected)));
    }
  }

  lemma HeardTraced(zlib: Zlib, limits: Limits, made: Slot -> Option<Request>, s: State, chunk: bytes)
    requires Traced(zlib, made, s)
    ensures Traced(zlib, made, Heard(zlib, limits, s, chunk))
  {
    hide Traced, Messages, Leftover, RoutedAll, Stopped;
    var got := Messages(zlib, limits, s.stream + chunk);
    var t := s.(books := RoutedAll(s.books, got.messages), stream := Leftover(zlib, limits, s.stream + chunk));
    StoppedKeepsOut(t);
    Unwritten(zlib, made, s, Heard(zlib, limits, s, chunk));
  }

  lemma {:induction false} RunsAreTraced(zlib: Zlib, limits: Limits, steps: seq<Step>)
    requires After(zlib, limits, steps).Just?
    ensures Traced(zlib, MadeIn(zlib, limits, steps), After(zlib, limits, steps).value)
  {
    var made := MadeIn(zlib, limits, steps);
    if steps != [] {
      var front, step := steps[..|steps| - 1], steps[|steps| - 1];
      var were := MadeIn(zlib, limits, front);
      var s := After(zlib, limits, front).value;
      RunsAreTraced(zlib, limits, front);
      hide Traced;
      StepTraced(zlib, limits, were, made, s, step);
    }
  }

  lemma StepTraced(zlib: Zlib, limits: Limits, were: Slot -> Option<Request>, made: Slot -> Option<Request>, s: State, step: Step)
    requires Traced(zlib, were, s) && Enabled(s, step)
    requires forall slot: Slot ::
      made(slot) == if were(slot).Just? then were(slot)
                    else if step.Draw? && slot == s.drawn + (if step.twice then 1 else 0) then
                      Just(Request(IdOf(slot), step.name, step.args, step.kwargs))
                    else Nothing
    ensures Traced(zlib, made, Next(zlib, limits, s, step))
  {
    hide IdOf, Frame, Stream, Taken, Heard, Stopped, CanGo, Requests;
    match step
    case Draw(twice, name, args, kwargs) =>
      var t := Drawn(s, twice, name, args, kwargs);
      TracedOn(zlib, were, made, s.(drawn := t.drawn));
    case Enqueue(slot) =>
      TracedOn(zlib, were, made, s);
      EnqueueTraced(zlib, made, s, slot);
    case Take(written) =>
      TracedOn(zlib, were, made, s);
      TakeTraced(zlib, made, s, written);
    case Read(chunk) =>
      TracedOn(zlib, were, made, s);
      HeardTraced(zlib, limits, made, s, chunk);
    case End =>
      TracedOn(zlib, were, made, s);
      StoppedKeepsOut(s);
      Unwritten(zlib, made, s, Stopped(s));
  }

  /**
   Over every run: what was written to the socket is read, by a daemon whose limits the calls keep
   to, as the requests that were made, name, arguments and all, in the order they were taken.
   */
  lemma CallsArriveAsMade(zlib: Zlib, limits: Limits, steps: seq<Step>, daemon: Limits)
    requires zlib.Inverse() && After(zlib, limits, steps).Just?
    requires var order := After(zlib, limits, steps).value.out.order;
             forall i | 0 <= i < |order| :: var made := Made(zlib, limits, steps, order[i]);
               made.Just? ==> Deliverable(zlib, daemon, RequestsToValue([made.value]))
    ensures var s := After(zlib, limits, steps).value;
            && (forall i | 0 <= i < |s.out.order| :: Made(zlib, limits, steps, s.out.order[i]).Just?)
            && Messages(zlib, daemon, s.out.wire)
               == Transcript(seq(|s.out.order|, i requires 0 <= i < |s.out.order| =>
                                   RequestsToValue([Made(zlib, limits, steps, s.out.order[i]).value])), Nothing)
  {
    hide After, Made, Frame, Stream, Messages, Deliverable, RequestsToValue, CanGo;
    RunsAreTraced(zlib, limits, steps);
    var s := After(zlib, limits, steps).value;
    var values := Requests(zlib, MadeIn(zlib, limits, steps), s.out.order);
    hide Requests;
    StreamArrives(zlib, daemon, values);
    assert values == seq(|s.out.order|, i requires 0 <= i < |s.out.order| =>
                           RequestsToValue([Made(zlib, limits, steps, s.out.order[i]).value]));
  }

  // --------------------------------------------------------------- once each

  /** The calls written are those that wait or were answered off the socket, each of them once. */
  ghost predicate OnceEach(s: State) {
    && (forall slot :: slot in s.out.order <==> slot in s.sentAt)
    && (forall i, j | 0 <= i < j < |s.out.order| :: s.out.order[i] != s.out.order[j])
  }

  lemma StepOnceEach(zlib: Zlib, limits: Limits, s: State, step: Step)
    requires OnceEach(s) && Inv(s) && Enabled(s, step)
    ensures OnceEach(Next(zlib, limits, s, step))
  {
    hide Frame, Messages, Leftover, RoutedAll, IdOf, Sent, NeverSent, Accounted;
    if step.Take? {
      assert Genuine(s, s.queue[0]);
    }
    hide ToSend;
  }

  lemma {:induction false} WrittenOnceEach(zlib: Zlib, limits: Limits, steps: seq<Step>)
    requires After(zlib, limits, steps).Just? && After(zlib, limits, steps).value.drawn <= IDS
    ensures OnceEach(After(zlib, limits, steps).value)
  {
    hide Next, OnceEach;
    if steps == [] {
      StartOnceEach();
    } else {
      hide Inv;
      var front := steps[..|steps| - 1];
      var before := After(zlib, limits, front).value;
      DrawnOnlyGrows(zlib, limits, before, steps[|steps| - 1]);
      RunsKeepBooks(zlib, limits, front);
      WrittenOnceEach(zlib, limits, front);
      StepOnceEach(zlib, limits, before, steps[|steps| - 1]);
    }
  }

  lemma StartOnceEach()
    ensures OnceEach(Start)
  {
  }
}
