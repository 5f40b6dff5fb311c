/** The socket task, which owns the socket: the loop behind `RpcClient`'s protocol, one branch a method. */
module RpcTask {
  import opened Bytes
  import opened RencodeValue
  import opened RpcMessage
  import opened Transfer
  import opened RpcClient

  /** A reply channel has one sending end, so no two entries of the map hold the same one. */
  predicate OneEndEach(waiting: map<i64, Slot>) {
    forall i, j | i in waiting && j in waiting && waiting[i] == waiting[j] :: i == j
  }

  class Task {
    const zlib: Zlib
    const limits: Limits
    const frames: FrameReader
    var running: bool
    var queue: seq<Pending>
    var waiting: map<i64, Slot>
    var answers: map<Slot, seq<Outcome>>
    var dropped: set<Slot>
    var events: seq<Event>
    var wire: bytes
    ghost var order: seq<Slot>
    ghost var heard: seq<Value>
    ghost var sentAt: map<Slot, nat>

    constructor (limits: Limits, zlib: Zlib)
      ensures Valid() && fresh(frames)
      ensures this.zlib == zlib && this.limits == limits
      ensures View(Start) == Start
    {
      this.zlib := zlib;
      this.limits := limits;
      var reader := new FrameReader(limits, zlib);
      frames := reader;
      running := true;
      queue := [];
      waiting := map[];
      answers := map[];
      dropped := {};
      events := [];
      wire := [];
      order := [];
      heard := [];
      sentAt := map[];
    }

    ghost predicate Valid()
      reads this, frames
    {
      frames.Valid() && frames.zlib == zlib && frames.limits == limits && OneEndEach(waiting)
    }

    ghost function TheBooks(): Books
      reads this
    {
      Books(waiting, answers, heard, events)
    }

    /** The connection as `RpcClient` sees it; what the callers hold is taken from `callers`. */
    ghost function View(callers: State): State
      reads this, frames
      requires Valid()
    {
      callers.(running := running, stream := if running then frames.Pending() else [],
               queue := queue, books := TheBooks(), dropped := dropped, sentAt := sentAt,
               out := Output(wire, order))
    }

    /** Tells everyone waiting that the connection is gone, in whatever order the map gives them up. */
    method TellAll()
      requires Valid()
      modifies this`waiting, this`answers
      ensures waiting == map[] && answers == FailAll(old(answers), old(waiting))
    {
      while waiting != map[]
        invariant OneEndEach(waiting)
        invariant FailAll(answers, waiting) == FailAll(old(answers), old(waiting))
        decreases |waiting|
      {
        var id :| id in waiting;
        OneFewerToTell(answers, waiting, id);
        answers := Answer(answers, waiting[id], Disconnected);
        waiting := waiting - {id};
      }
      NobodyToTell(answers);
    }

    /** The end of the socket task: the channel goes, and the calls still in it lose their reply channel. */
    method Stop(ghost callers: State)
      requires Valid() && running
      modifies this
      ensures Valid() && View(callers) == Stopped(old(View(callers)))
    {
      TellAll();
      running := false;
      dropped := dropped + set p | p in queue :: p.slot;
      queue := [];
    }

    /** A request came out of the channel; `written` is what the socket made of the frame. */
    method OnRequest(written: bool, ghost callers: State)
      requires Valid() && running && queue != []
      requires queue[0].slot !in waiting.Values
      modifies this
      ensures Valid() && View(callers) == Taken(zlib, old(View(callers)), written)
    {
      hide Frame, RequestsToValue, Stopped, FrameReader.Pending, FrameReader.Valid;
      var pending := queue[0];
      queue := queue[1..];
      var frame := EncodeFrame(zlib, RequestsToValue([pending.request]));
      if frame.Err? {
        answers := Answer(answers, pending.slot, Protocol(frame.error));
        return;
      }
      if !written {
        answers := Answer(answers, pending.slot, Disconnected);
        Stop(callers);
        return;
      }
      wire := wire + frame.value;
      order := order + [pending.slot];
      waiting := waiting[pending.request.id := pending.slot];
      sentAt := sentAt[pending.slot := |heard|];
    }

    method Route(message: Value)
      requires Valid()
      modifies this`waiting, this`answers, this`heard, this`events
      ensures Valid() && TheBooks() == Routed(old(TheBooks()), message)
    {
      heard := heard + [message];
      var incoming := FromValue(message);
      match incoming
      case Just(Response(id, result)) =>
        if id in waiting {
          answers := Answer(answers, waiting[id], Answered(result));
          waiting := waiting - {id};
        }
      case Just(Fault(id, failure)) =>
        if id in waiting {
          answers := Answer(answers, waiting[id], Remote(failure));
          waiting := waiting - {id};
        }
      case Just(Pushed(event)) => events := events + [event];
      case Nothing =>
    }

    /** Takes out and routes every whole message; answers whether the framing broke on the way. */
    method Drain(chunk: bytes) returns (broken: bool)
      requires Valid()
      modifies this`waiting, this`answers, this`heard, this`events, frames
      ensures Valid()
      ensures var got := Messages(zlib, limits, old(frames.Pending()) + chunk);
              TheBooks() == RoutedAll(old(TheBooks()), got.messages) && broken == got.fault.Just?
      ensures !broken ==> frames.Pending() == Leftover(zlib, limits, old(frames.Pending()) + chunk)
    {
      hide Routed, RoutedAll, FrontOf, Messages, Leftover, FrameReader.Pending;
      ghost var before := TheBooks();
      frames.Feed(chunk);
      ghost var stream := frames.Pending();
      ghost var routed := [];
      RoutedNone(before);
      while true
        invariant Valid()
        invariant TheBooks() == RoutedAll(before, routed)
        invariant var later := Messages(zlib, limits, frames.Pending());
                  Messages(zlib, limits, stream) == Transcript(routed + later.messages, later.fault)
        invariant Leftover(zlib, limits, stream) == Leftover(zlib, limits, frames.Pending())
        decreases |frames.Pending()|
      {
        MessagesStep(zlib, limits, frames.Pending());
        var next := frames.NextMessage();
        match next
        case Ok(Nothing) =>
          assert routed + [] == routed;
          return false;
        case Ok(Just(message)) =>
          Regrouped(routed, [message], Messages(zlib, limits, frames.Pending()).messages);
          RoutedOneMore(before, routed, message);
          Route(message);
          routed := routed + [message];
        case Err(error) =>
          assert routed + [] == routed;
          return true;
      }
    }

    /** Bytes came off the socket; broken framing is the end of the connection. */
    method OnRead(chunk: bytes, ghost callers: State)
      requires Valid() && running
      modifies this, frames
      ensures Valid() && View(callers) == Heard(zlib, limits, old(View(callers)), chunk)
    {
      hide RoutedAll, Messages, Leftover;
      var broken := Drain(chunk);
      if broken {
        Stop(callers);
      }
    }
  }

  lemma RoutedNone(b: Books)
    ensures RoutedAll(b, []) == b
  {
  }

  lemma RoutedOneMore(b: Books, messages: seq<Value>, message: Value)
    ensures RoutedAll(b, messages + [message]) == Routed(RoutedAll(b, messages), message)
  {
    hide Routed;
    assert (messages + [message])[..|messages|] == messages;
  }

  lemma OneFewerToTell(answers: map<Slot, seq<Outcome>>, waiting: map<i64, Slot>, id: i64)
    requires OneEndEach(waiting) && id in waiting
    ensures FailAll(Answer(answers, waiting[id], Disconnected), waiting - {id}) == FailAll(answers, waiting)
  {
    var fewer := waiting - {id};
    forall slot | slot in waiting.Values && slot != waiting[id]
      ensures slot in fewer.Values
    {
      var i :| i in waiting && waiting[i] == slot;
      assert i in fewer && fewer[i] == slot;
    }
    assert waiting[id] !in fewer.Values;
    assert waiting.Values == fewer.Values + {waiting[id]};
    var some := if waiting[id] in answers then answers[waiting[id]] else [];
    assert some + [Disconnected] + [] == some + [Disconnected];
  }

  lemma NobodyToTell(answers: map<Slot, seq<Outcome>>)
    ensures FailAll(answers, map[]) == answers
  {
    forall slot | slot in answers
      ensures answers[slot] + [] == answers[slot]
    {
    }
  }
}
