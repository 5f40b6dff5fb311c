/**
 What the messages say, field by field and in literal kinds: what goes out of a request, what is
 made of each shape that comes in, and what a caller is told on the strength of it.
 */
module RpcShapes {
  import opened Bytes
  import opened RencodeValue
  import opened RencodeEncode
  import opened RpcMessage
  import opened RpcClient
  import opened Transfer
  import Wire = RencodeWire
  import RencodeWritten

  // ---------------------------------------------------------------- requests

  /** One request on the wire: a list of one list of four. */
  lemma RequestOnTheWire(request: Request)
    ensures Encoded(RequestsToValue([request]))
         == [193, 196] + (Encoded(Int(request.id)) + (Encoded(Str(request.name))
                          + (Encoded(List(request.args)) + Encoded(Dict(request.kwargs)))))
  {
    var fields := [Int(request.id), Str(request.name), List(request.args), Dict(request.kwargs)];
    OneRequest(request, fields);
    hide Encoded, EncodedItems, RequestsToValue;
    Counts([List(fields)]);
    Counts(fields);
    FourItems(fields);
    EncodedItemsFront([List(fields)]);
    NothingEncoded();
    assert [List(fields)][1..] == [];
    Joined(Encoded(List(fields)), EncodedItems(fields));
  }

  lemma OneRequest(request: Request, fields: seq<Value>)
    requires fields == [Int(request.id), Str(request.name), List(request.args), Dict(request.kwargs)]
    ensures RequestsToValue([request]) == List([List(fields)])
  {
  }

  lemma Counts(items: seq<Value>)
    requires |items| < 64
    ensures Encoded(List(items)) == [192 + |items|] + EncodedItems(items)
  {
    hide EncodedItems;
  }

  lemma Joined(list: bytes, fields: bytes)
    requires list == [196] + fields
    ensures [193] + (list + []) == [193, 196] + fields
  {
  }

  lemma FourItems(fields: seq<Value>)
    requires |fields| == 4
    ensures EncodedItems(fields) == Encoded(fields[0]) + (Encoded(fields[1]) + (Encoded(fields[2]) + Encoded(fields[3])))
  {
    hide Encoded, EncodedItems;
    EncodedItemsFront(fields);
    EncodedItemsFront(fields[1..]);
    EncodedItemsFront(fields[2..]);
    EncodedItemsFront(fields[3..]);
    NothingEncoded();
    assert fields[1..][1..] == fields[2..] && fields[2..][1..] == fields[3..] && fields[3..][1..] == [];
    assert Encoded(fields[3]) + [] == Encoded(fields[3]);
  }

  // ------------------------------------------------------------------ frames

  /** The header of a frame: version 1, and four bytes of length, the most significant first. */
  lemma FrameOnTheWire(body: bytes)
    requires |body| < 0x1_0000_0000
    ensures var n := |body|;
            Framed(body) == [1, n / 16_777_216, n / 65_536 % 256, n / 256 % 256, n % 256] + body
  {
    hide BigEndian, Framed;
    var n := |body|;
    FramedIs(body);
    RencodeWritten.FourByteLayout(n);
    TopByte(n);
    HeaderBytes(n / 16_777_216, n / 65_536 % 256, n / 256 % 256, n % 256, body);
  }

  lemma FramedIs(body: bytes)
    requires |body| < 0x1_0000_0000
    ensures Framed(body) == [1] + BigEndian(|body|, 4) + body
  {
    NoWrap(|body|);
    hide BigEndian;
  }

  lemma NoWrap(n: nat)
    requires n < 0x1_0000_0000
    ensures n % 0x1_0000_0000 == n
  {
  }

  lemma TopByte(n: nat)
    requires n < 0x1_0000_0000
    ensures n / 16_777_216 < 256 && n / 16_777_216 % 256 == n / 16_777_216
  {
  }

  lemma HeaderBytes(a: byte, b: byte, c: byte, d: byte, body: bytes)
    ensures [1] + [a, b, c, d] + body == [1, a, b, c, d] + body
  {
  }

  /** What the five bytes of a header decide. */
  lemma HeaderDecides(zlib: Zlib, limits: Limits, stream: bytes)
    ensures |stream| < 5 ==> FrontOf(zlib, limits, stream) == Incomplete
    ensures |stream| >= 5 ==>
              var front, n := FrontOf(zlib, limits, stream), Wire.FourBytes(stream[1..5]);
              && (stream[0] != 1 ==> front == Broken(UnsupportedVersion(stream[0])))
              && (stream[0] == 1 && n > limits.maxFrame ==> front == Broken(FrameTooLarge(n, limits.maxFrame)))
              && (stream[0] == 1 && n <= limits.maxFrame && |stream| < 5 + n ==> front == Incomplete)
              && (stream[0] == 1 && n <= limits.maxFrame && |stream| >= 5 + n ==>
                    var body := Body(zlib, stream[5..5 + n], limits);
                    front == if body.Ok? then Complete(body.value, stream[5 + n..]) else Broken(body.error))
  {
    hide Body;
    if |stream| >= 5 {
      Wire.BigEndianFour(stream[1..5]);
    }
  }

  // --------------------------------------------------------------------- ids

  /** Calls are numbered from 0 on, and after the largest 64-bit integer comes the smallest. */
  lemma IdsCount(slot: Slot)
    requires slot < 0x1_0000_0000_0000_0000
    ensures slot <= 9_223_372_036_854_775_807 ==> IdOf(slot) == slot
    ensures slot > 9_223_372_036_854_775_807 ==> IdOf(slot) == slot - 18_446_744_073_709_551_616
  {
  }

  // ----------------------------------------------------------------- replies

  /** A list that starts with a kind and the id of a call. */
  predicate Concerns(message: Value, kind: i64, id: i64) {
    message.List? && |message.items| >= 2 && message.items[0] == Int(kind) && message.items[1] == Int(id)
  }

  /** What a caller gets out of the third field: a list of one is unwrapped, and nothing is `None`. */
  predicate IsResult(items: seq<Value>, result: Value) {
    if |items| <= 2 then result == Value.None
    else if items[2].List? && |items[2].items| == 1 then items[2] == List([result])
    else items[2] == result
  }

  /** A field read as text: text, or bytes that are UTF-8. */
  predicate IsText(items: seq<Value>, at: nat, text: text) {
    at < |items| && (items[at] == Str(text) || items[at] == Value.Bytes(text))
  }

  predicate NoText(items: seq<Value>, at: nat) {
    at < |items| ==> !items[at].Str? && (items[at].Bytes? ==> !IsUtf8(items[at].raw))
  }

  predicate IsListOrEmpty(items: seq<Value>, at: nat, list: seq<Value>) {
    if at < |items| && items[at].List? then items[at] == List(list) else list == []
  }

  /** "UnknownError" */
  const UNKNOWN: bytes := [85, 110, 107, 110, 111, 119, 110, 69, 114, 114, 111, 114]

  predicate IsFailure(items: seq<Value>, failure: Failure) {
    && (IsText(items, 2, failure.exception) || (NoText(items, 2) && failure.exception == UNKNOWN))
    && IsListOrEmpty(items, 3, failure.args)
    && (if |items| > 4 && items[4].Dict? then items[4] == Dict(failure.kwargs) else failure.kwargs == [])
    && (match failure.traceback
        case Just(traceback) => traceback != [] && IsText(items, 5, traceback)
        case Nothing => NoText(items, 5) || IsText(items, 5, []))
  }

  lemma TextIff(items: seq<Value>, at: nat, text: text)
    ensures GetStr(items, at) == Just(text) <==> IsText(items, at, text)
    ensures GetStr(items, at).Nothing? <==> NoText(items, at)
  {
    hide IsUtf8;
  }

  /** A reply with a result: kind 1, the call's id, the result. */
  lemma ResponseIff(message: Value, id: i64, result: Value)
    ensures FromValue(message) == Just(Response(id, result)) <==> Concerns(message, 1, id) && IsResult(message.items, result)
  {
    hide GetStr, IsUtf8;
    if message.List? && |message.items| > 2 && message.items[2].List? && |message.items[2].items| == 1 {
      assert message.items[2].items == [message.items[2].items[0]];
    }
  }

  lemma FailureIff(items: seq<Value>, failure: Failure)
    ensures ReadFailure(items) == failure <==> IsFailure(items, failure)
  {
    TextIff(items, 2, failure.exception);
    TextIff(items, 5, []);
    if failure.traceback.Just? {
      TextIff(items, 5, failure.traceback.value);
    }
    hide GetStr, IsUtf8, IsText, NoText;
  }

  /** A failure: kind 2, the call's id, exception, arguments, keyword arguments, traceback. */
  lemma FaultIff(message: Value, id: i64, failure: Failure)
    ensures FromValue(message) == Just(Fault(id, failure)) <==> Concerns(message, 2, id) && IsFailure(message.items, failure)
  {
    hide GetStr, IsUtf8, IsFailure, ReadFailure;
    if message.List? {
      FailureIff(message.items, failure);
    }
  }

  /** An event: kind 3, its name, its arguments. */
  lemma PushedIff(message: Value, event: Event)
    ensures FromValue(message) == Just(Pushed(event))
       <==> (message.List? && |message.items| >= 2 && message.items[0] == Int(3) && IsText(message.items, 1, event.name)
             && IsListOrEmpty(message.items, 2, event.args))
  {
    if message.List? {
      TextIff(message.items, 1, event.name);
    }
    hide GetStr, IsUtf8;
  }

  /** Whatever has none of the three shapes is ignored, and nothing else is. */
  lemma NothingIff(message: Value)
    ensures FromValue(message).Nothing?
       <==> !((exists id :: Concerns(message, 1, id) || Concerns(message, 2, id))
              || (message.List? && |message.items| >= 2 && message.items[0] == Int(3) && !NoText(message.items, 1)))
  {
    if message.List? {
      TextIff(message.items, 1, []);
      if |message.items| >= 2 && message.items[1].Int? {
        assert Concerns(message, 1, message.items[1].number) <==> message.items[0] == Int(1);
        assert Concerns(message, 2, message.items[1].number) <==> message.items[0] == Int(2);
      }
    }
    hide GetStr, IsUtf8, NoText;
  }

  lemma RepliesIff(message: Value, id: i64)
    ensures ReplyIn(message, id).Just? <==> Concerns(message, 1, id) || Concerns(message, 2, id)
  {
    hide GetStr, IsUtf8;
  }

  // -------------------------------------------------------------- over runs

  /** The first message from number `from` on that answers a call, by the look of it. */
  predicate FirstFor(heard: seq<Value>, from: nat, k: nat, id: i64) {
    && from <= k < |heard| && (Concerns(heard[k], 1, id) || Concerns(heard[k], 2, id))
    && forall j | from <= j < k :: !Concerns(heard[j], 1, id) && !Concerns(heard[j], 2, id)
  }

  lemma {:induction false} FirstForIsFirstReply(heard: seq<Value>, from: nat, k: nat, id: i64)
    requires FirstFor(heard, from, k, id)
    ensures FirstReply(heard, from, id) == ReplyIn(heard[k], id)
    decreases k - from
  {
    RepliesIff(heard[from], id);
    hide ReplyIn, Concerns;
    if from < k {
      FirstForIsFirstReply(heard, from + 1, k, id);
    }
  }

  /**
   Over every run: a caller whose first own message since its call was written is a reply, is told
   the one thing it says, wrapped in a list of one or not; and if it is a failure, that.
   */
  lemma ToldWhatItSays(zlib: Zlib, limits: Limits, steps: seq<Step>, slot: Slot, k: nat)
    requires After(zlib, limits, steps).Just? && After(zlib, limits, steps).value.drawn <= 0x1_0000_0000_0000_0000
    requires var s := After(zlib, limits, steps).value;
             slot in s.sentAt && FirstFor(s.books.heard, s.sentAt[slot], k, IdOf(slot))
    ensures var s := After(zlib, limits, steps).value;
            var message := s.books.heard[k];
            && slot in s.books.answers
            && (forall result :: s.books.answers[slot] == [Answered(result)]
                                 <==> Concerns(message, 1, IdOf(slot)) && IsResult(message.items, result))
            && (forall failure :: s.books.answers[slot] == [Remote(failure)]
                                  <==> Concerns(message, 2, IdOf(slot)) && IsFailure(message.items, failure))
  {
    var s := After(zlib, limits, steps).value;
    var message := s.books.heard[k];
    RunsKeepBooks(zlib, limits, steps);
    FirstForIsFirstReply(s.books.heard, s.sentAt[slot], k, IdOf(slot));
    RepliesIff(message, IdOf(slot));
    AnsweredBy(s, slot, message);
    forall result
      ensures ReplyIn(message, IdOf(slot)) == Just(Answered(result)) <==> Concerns(message, 1, IdOf(slot)) && IsResult(message.items, result)
    {
      ResponseIff(message, IdOf(slot), result);
    }
    forall failure
      ensures ReplyIn(message, IdOf(slot)) == Just(Remote(failure)) <==> Concerns(message, 2, IdOf(slot)) && IsFailure(message.items, failure)
    {
      FaultIff(message, IdOf(slot), failure);
    }
    hide After, FromValue, IsResult, IsFailure, Concerns, ReplyIn, IdOf;
  }

  lemma AnsweredBy(s: State, slot: Slot, message: Value)
    requires Inv(s) && slot in s.sentAt && FirstReply(s.books.heard, s.sentAt[slot], IdOf(slot)) == ReplyIn(message, IdOf(slot))
    requires ReplyIn(message, IdOf(slot)).Just?
    ensures slot in s.books.answers && s.books.answers[slot] == [ReplyIn(message, IdOf(slot)).value]
  {
    hide FirstReply, ReplyIn, IdOf;
    assert Settled(s, slot);
  }

  /** The wrapped result, as the daemon sends every one. */
  lemma WrappedResultIsAnswered(zlib: Zlib, limits: Limits, steps: seq<Step>, slot: Slot, k: nat, result: Value)
    requires After(zlib, limits, steps).Just? && After(zlib, limits, steps).value.drawn <= 0x1_0000_0000_0000_0000
    requires var s := After(zlib, limits, steps).value;
             && slot in s.sentAt && FirstFor(s.books.heard, s.sentAt[slot], k, IdOf(slot))
             && s.books.heard[k] == List([Int(1), Int(IdOf(slot)), List([result])])
    ensures var s := After(zlib, limits, steps).value;
            slot in s.books.answers && s.books.answers[slot] == [Answered(result)]
  {
    ToldWhatItSays(zlib, limits, steps, slot, k);
    var message := After(zlib, limits, steps).value.books.heard[k];
    assert Concerns(message, 1, IdOf(slot)) && IsResult(message.items, result);
    hide After, FirstFor, IsResult, IsFailure, IdOf;
  }
}
