/** The DelugeRPC frame, and the reader that puts frames back together from a byte stream. */
module Transfer {
  import opened Bytes
  import opened RencodeValue
  import Encode = RencodeEncode
  import Decode = RencodeDecode
  import Laws = RencodeLaws
  import Shortest = RencodeShortest

  const PROTOCOL_VERSION: byte := 1
  const HEADER_SIZE: nat := 5

  datatype Limits = Limits(maxFrame: nat, maxBody: nat)

  datatype Error =
    | UnsupportedVersion(found: byte)
    | FrameTooLarge(size: nat, limit: nat)
    | BodyTooLarge(limit: nat)
    | Decompress
    | Decoding(reason: Decode.Error)
    | Compress

  type Result<+T> = Fallible<T, Error>

  /** The compressor: `inflate` answers no more than the number of bytes it is asked for. */
  datatype Zlib = Zlib(deflate: bytes -> Option<bytes>, inflate: (bytes, nat) -> Option<bytes>)
  {
    /** What the two halves owe each other. */
    ghost predicate Inverse() {
      forall body, cap: nat | deflate(body).Just? ::
        inflate(deflate(body).value, cap) == Just(if |body| <= cap then body else body[..cap])
    }
  }

  // ---------------------------------------------------------- single frames

  /** Version, length, body; the length is cut to its low 32 bits. */
  function Framed(body: bytes): bytes {
    [PROTOCOL_VERSION] + BigEndian(|body| % 0x1_0000_0000, 4) + body
  }

  function Frame(zlib: Zlib, value: Value): Result<bytes> {
    match zlib.deflate(Encode.Encoded(value))
    case Nothing => Err(Compress)
    case Just(body) => Ok(Framed(body))
  }

  function Body(zlib: Zlib, compressed: bytes, limits: Limits): Result<Value> {
    match zlib.inflate(compressed, limits.maxBody + 1)
    case Nothing => Err(Decompress)
    case Just(body) =>
      if |body| > limits.maxBody then Err(BodyTooLarge(limits.maxBody))
      else
        match Decode.Decoded(body, Utf8Lossy)
        case Ok(value) => Ok(value)
        case Err(reason) => Err(Decoding(reason))
  }

  method EncodeFrame(zlib: Zlib, value: Value) returns (r: Result<bytes>)
    ensures r == Frame(zlib, value)
  {
    var body := Encode.ToVec(value);
    var compressed := zlib.deflate(body);
    if compressed.Nothing? {
      return Err(Compress);
    }
    var frame := [PROTOCOL_VERSION];
    frame := frame + BigEndian(|compressed.value| % 0x1_0000_0000, 4);
    frame := frame + compressed.value;
    r := Ok(frame);
  }

  method DecodeBody(zlib: Zlib, compressed: bytes, limits: Limits) returns (r: Result<Value>)
    ensures r == Body(zlib, compressed, limits)
  {
    var inflated := zlib.inflate(compressed, limits.maxBody + 1);
    if inflated.Nothing? {
      return Err(Decompress);
    }
    if |inflated.value| > limits.maxBody {
      return Err(BodyTooLarge(limits.maxBody));
    }
    var decoded := Decode.FromSlice(inflated.value, Utf8Lossy);
    match decoded
    case Ok(value) => r := Ok(value);
    case Err(reason) => r := Err(Decoding(reason));
  }

  // ---------------------------------------------------------- whole streams

  /** What the front of a stream holds. */
  datatype Front = Incomplete | Broken(error: Error) | Complete(value: Value, rest: bytes)

  function FrontOf(zlib: Zlib, limits: Limits, stream: bytes): (f: Front)
    ensures f.Complete? ==> |f.rest| < |stream|
  {
    if |stream| < HEADER_SIZE then Incomplete
    else if stream[0] != PROTOCOL_VERSION then Broken(UnsupportedVersion(stream[0]))
    else
      var size := FromBigEndian(stream[1..HEADER_SIZE]);
      if size > limits.maxFrame then Broken(FrameTooLarge(size, limits.maxFrame))
      else if |stream| < HEADER_SIZE + size then Incomplete
      else
        match Body(zlib, stream[HEADER_SIZE..HEADER_SIZE + size], limits)
        case Ok(value) => Complete(value, stream[HEADER_SIZE + size..])
        case Err(error) => Broken(error)
  }

  /** The messages a peer gets to deliver, and the fault that ended them if one did. */
  datatype Transcript = Transcript(messages: seq<Value>, fault: Option<Error>)

  function Messages(zlib: Zlib, limits: Limits, stream: bytes): Transcript
    decreases |stream|
  {
    match FrontOf(zlib, limits, stream)
    case Incomplete => Transcript([], Nothing)
    case Broken(error) => Transcript([], Just(error))
    case Complete(value, rest) =>
      var later := Messages(zlib, limits, rest);
      Transcript([value] + later.messages, later.fault)
  }

  /** What is left of a stream once every complete message is out. */
  function Leftover(zlib: Zlib, limits: Limits, stream: bytes): bytes
    decreases |stream|
  {
    match FrontOf(zlib, limits, stream)
    case Complete(_, rest) => Leftover(zlib, limits, rest)
    case _ => stream
  }

  /** One message of a stream, and the rest of it. */
  lemma MessagesStep(zlib: Zlib, limits: Limits, stream: bytes)
    ensures FrontOf(zlib, limits, stream).Incomplete? ==>
              Messages(zlib, limits, stream) == Transcript([], Nothing) && Leftover(zlib, limits, stream) == stream
    ensures FrontOf(zlib, limits, stream).Broken? ==>
              Messages(zlib, limits, stream) == Transcript([], Just(FrontOf(zlib, limits, stream).error))
    ensures FrontOf(zlib, limits, stream).Complete? ==>
              var front := FrontOf(zlib, limits, stream);
              var later := Messages(zlib, limits, front.rest);
              && |front.rest| < |stream|
              && Messages(zlib, limits, stream) == Transcript([front.value] + later.messages, later.fault)
              && Leftover(zlib, limits, stream) == Leftover(zlib, limits, front.rest)
  {
    hide FrontOf;
  }

  function Joined(chunks: seq<bytes>): bytes {
    if chunks == [] then [] else chunks[0] + Joined(chunks[1..])
  }

  /** More bytes never change what a stream has already been found to start with. */
  lemma FrontExtends(zlib: Zlib, limits: Limits, stream: bytes, more: bytes)
    ensures match FrontOf(zlib, limits, stream)
            case Incomplete => true
            case Broken(error) => FrontOf(zlib, limits, stream + more) == Broken(error)
            case Complete(value, rest) => FrontOf(zlib, limits, stream + more) == Complete(value, rest + more)
  {
    hide Body;
    if |stream| >= HEADER_SIZE {
      assert (stream + more)[1..HEADER_SIZE] == stream[1..HEADER_SIZE];
      var end := HEADER_SIZE + FromBigEndian(stream[1..HEADER_SIZE]);
      if end <= |stream| {
        assert (stream + more)[HEADER_SIZE..end] == stream[HEADER_SIZE..end];
        assert (stream + more)[end..] == stream[end..] + more;
      }
    }
  }

  /** A stream may be read in two parts: what the first part leaves over goes before the second. */
  lemma {:induction false} MessagesSplit(zlib: Zlib, limits: Limits, stream: bytes, more: bytes)
    ensures var first := Messages(zlib, limits, stream);
            var later := Messages(zlib, limits, Leftover(zlib, limits, stream) + more);
            (Messages(zlib, limits, stream + more)
             == if first.fault.Just? then first else Transcript(first.messages + later.messages, later.fault))
    ensures Messages(zlib, limits, stream).fault.Nothing? ==>
              Leftover(zlib, limits, stream + more) == Leftover(zlib, limits, Leftover(zlib, limits, stream) + more)
    decreases |stream|
  {
    hide FrontOf;
    FrontExtends(zlib, limits, stream, more);
    var front := FrontOf(zlib, limits, stream);
    if front.Complete? {
      MessagesSplit(zlib, limits, front.rest, more);
      var later := Messages(zlib, limits, Leftover(zlib, limits, stream) + more);
      assert [front.value] + (Messages(zlib, limits, front.rest).messages + later.messages)
          == [front.value] + Messages(zlib, limits, front.rest).messages + later.messages;
    }
  }

  // ----------------------------------------------------------------- reader

  class FrameReader {
    const limits: Limits
    const zlib: Zlib
    var buffer: bytes
    var expected: Option<nat>

    constructor (limits: Limits, zlib: Zlib)
      ensures this.limits == limits && this.zlib == zlib
      ensures Valid() && Pending() == []
    {
      this.limits := limits;
      this.zlib := zlib;
      buffer := [];
      expected := Nothing;
    }

    ghost predicate Valid()
      reads this
    {
      expected.Just? ==> expected.value <= limits.maxFrame && expected.value < 0x1_0000_0000
    }

    /** The part of the stream not yet handed out, a header already taken off included. */
    ghost function Pending(): bytes
      reads this
      requires Valid()
    {
      match expected
      case Nothing => buffer
      case Just(size) => [PROTOCOL_VERSION] + BigEndian(size, 4) + buffer
    }

    method Feed(chunk: bytes)
      requires Valid()
      modifies this
      ensures Valid() && Pending() == old(Pending()) + chunk
    {
      buffer := buffer + chunk;
    }

    method NextMessage() returns (r: Result<Option<Value>>)
      requires Valid()
      modifies this
      ensures Valid()
      ensures match FrontOf(zlib, limits, old(Pending()))
              case Incomplete =>
                && r == Ok(Nothing) && Pending() == old(Pending())
                && (|buffer| < HEADER_SIZE || |buffer| < limits.maxFrame)
              case Broken(error) => r == Err(error)
              case Complete(value, rest) => r == Ok(Just(value)) && Pending() == rest
    {
      ghost var stream := Pending();
      if expected.Nothing? {
        if |buffer| < HEADER_SIZE {
          return Ok(Nothing);
        }
        if buffer[0] != PROTOCOL_VERSION {
          return Err(UnsupportedVersion(buffer[0]));
        }
        HeaderComesOff(buffer);
        var size := FromBigEndian(buffer[1..HEADER_SIZE]);
        if size > limits.maxFrame {
          return Err(FrameTooLarge(size, limits.maxFrame));
        }
        buffer := buffer[HEADER_SIZE..];
        expected := Just(size);
        assert Pending() == stream;
      }
      var size := expected.value;
      HeaderReads(size, buffer);
      if |buffer| < size {
        return Ok(Nothing);
      }
      var body := buffer[..size];
      assert stream[HEADER_SIZE..HEADER_SIZE + size] == body;
      assert stream[HEADER_SIZE + size..] == buffer[size..];
      buffer := buffer[size..];
      expected := Nothing;
      var decoded := DecodeBody(zlib, body, limits);
      match decoded
      case Ok(value) => r := Ok(Just(value));
      case Err(error) => r := Err(error);
    }

    /** One read off the socket: feed what arrived, then take out every whole message. */
    method Receive(chunk: bytes) returns (t: Transcript)
      requires Valid()
      modifies this
      ensures Valid() && t == Messages(zlib, limits, old(Pending()) + chunk)
      ensures t.fault.Nothing? ==>
                && Pending() == Leftover(zlib, limits, old(Pending()) + chunk)
                && (|buffer| < HEADER_SIZE || |buffer| < limits.maxFrame)
    {
      hide FrontOf, Messages, Leftover;
      Feed(chunk);
      ghost var stream := Pending();
      var messages := [];
      while true
        invariant Valid()
        invariant var later := Messages(zlib, limits, Pending());
                  Messages(zlib, limits, stream) == Transcript(messages + later.messages, later.fault)
        invariant Leftover(zlib, limits, stream) == Leftover(zlib, limits, Pending())
        decreases |Pending()|
      {
        MessagesStep(zlib, limits, Pending());
        var next := NextMessage();
        match next
        case Ok(Nothing) =>
          assert messages + [] == messages;
          return Transcript(messages, Nothing);
        case Ok(Just(value)) =>
          Regrouped(messages, [value], Messages(zlib, limits, Pending()).messages);
          messages := messages + [value];
        case Err(error) =>
          assert messages + [] == messages;
          return Transcript(messages, Just(error));
      }
    }
  }

  lemma HeaderComesOff(stream: bytes)
    requires |stream| >= HEADER_SIZE && stream[0] == PROTOCOL_VERSION
    ensures var size := FromBigEndian(stream[1..HEADER_SIZE]);
            && size < 0x1_0000_0000
            && [PROTOCOL_VERSION] + BigEndian(size, 4) + stream[HEADER_SIZE..] == stream
  {
    Decode.Pow256Values();
    FromBigEndianInverts(stream[1..HEADER_SIZE]);
  }

  lemma HeaderReads(size: nat, behind: bytes)
    requires size < 0x1_0000_0000
    ensures var stream := [PROTOCOL_VERSION] + BigEndian(size, 4) + behind;
            && stream[0] == PROTOCOL_VERSION
            && FromBigEndian(stream[1..HEADER_SIZE]) == size
            && stream[HEADER_SIZE..] == behind
  {
    var stream := [PROTOCOL_VERSION] + BigEndian(size, 4) + behind;
    Decode.Pow256Values();
    BigEndianInverts(size, 4);
    assert stream[1..HEADER_SIZE] == BigEndian(size, 4);
  }

  lemma EmptyIsIncomplete(zlib: Zlib, limits: Limits)
    ensures FrontOf(zlib, limits, []).Incomplete?
  {
  }

  lemma {:induction false} JoinedSplits(chunks: seq<bytes>, i: nat)
    requires i <= |chunks|
    ensures Joined(chunks) == Joined(chunks[..i]) + Joined(chunks[i..])
  {
    if i > 0 {
      JoinedSplits(chunks[1..], i - 1);
      assert chunks[..i][1..] == chunks[1..][..i - 1];
    }
  }

  /**
   A whole connection: chunk after chunk until the framing breaks. What comes out depends on
   the bytes alone, not on where the reads happened to cut them.
   */
  method ReceiveAll(zlib: Zlib, limits: Limits, chunks: seq<bytes>) returns (t: Transcript)
    ensures t == Messages(zlib, limits, Joined(chunks))
  {
    hide FrontOf, Messages, Leftover;
    var reader := new FrameReader(limits, zlib);
    t := Transcript([], Nothing);
    NothingFromNothing(zlib, limits);
    for i := 0 to |chunks|
      invariant fresh(reader) && reader.zlib == zlib && reader.limits == limits
      invariant reader.Valid() && t.fault.Nothing?
      invariant t == Messages(zlib, limits, Joined(chunks[..i]))
      invariant reader.Pending() == Leftover(zlib, limits, Joined(chunks[..i]))
    {
      MessagesSplit(zlib, limits, Joined(chunks[..i]), chunks[i]);
      JoinedSplits(chunks[..i + 1], i);
      assert chunks[..i + 1][..i] == chunks[..i] && chunks[..i + 1][i..] == [chunks[i]];
      assert Joined([chunks[i]]) == chunks[i];
      var got := reader.Receive(chunks[i]);
      t := Transcript(t.messages + got.messages, got.fault);
      if t.fault.Just? {
        JoinedSplits(chunks, i + 1);
        LongerStreamsOnlyAdd(zlib, limits, Joined(chunks[..i + 1]), Joined(chunks[i + 1..]));
        return;
      }
    }
    assert chunks[..|chunks|] == chunks;
  }

  lemma NothingFromNothing(zlib: Zlib, limits: Limits)
    ensures Messages(zlib, limits, []) == Transcript([], Nothing) && Leftover(zlib, limits, []) == []
  {
    EmptyIsIncomplete(zlib, limits);
  }

  // ------------------------------------------------------------ main results

  /** Bytes still to come can only add messages, and after a fault not even that. */
  lemma LongerStreamsOnlyAdd(zlib: Zlib, limits: Limits, stream: bytes, more: bytes)
    ensures var shorter, longer := Messages(zlib, limits, stream), Messages(zlib, limits, stream + more);
            && shorter.messages <= longer.messages
            && (shorter.fault.Just? ==> longer == shorter)
  {
    MessagesSplit(zlib, limits, stream, more);
  }

  /** A value that survives the trip: what the sender and the receiver's limits allow. */
  ghost predicate Deliverable(zlib: Zlib, limits: Limits, value: Value) {
    var deflated := zlib.deflate(Encode.Encoded(value));
    && Carried(value, Utf8Lossy, 0)
    && |Encode.Encoded(value)| <= limits.maxBody
    && deflated.Just?
    && |deflated.value| <= limits.maxFrame
    && |deflated.value| < 0x1_0000_0000
  }

  function Stream(zlib: Zlib, values: seq<Value>): bytes
    requires forall i | 0 <= i < |values| :: Frame(zlib, values[i]).Ok?
  {
    if values == [] then [] else Frame(zlib, values[0]).value + Stream(zlib, values[1..])
  }

  lemma BodyArrives(zlib: Zlib, limits: Limits, value: Value)
    requires zlib.Inverse() && Deliverable(zlib, limits, value)
    ensures Body(zlib, zlib.deflate(Encode.Encoded(value)).value, limits) == Ok(value)
  {
    hide Encode.Encoded, Carried, Decode.Decoded;
    var e := Encode.Encoded(value);
    assert zlib.inflate(zlib.deflate(e).value, limits.maxBody + 1) == Just(e);
    Laws.RoundTrip(value, Utf8Lossy);
  }

  /** What a stream starting with a frame is found to start with: its body, or, beyond 32 bits, less than that. */
  lemma FrontOfFrame(zlib: Zlib, limits: Limits, body: bytes, behind: bytes)
    ensures var front := FrontOf(zlib, limits, Framed(body) + behind);
            if |body| >= 0x1_0000_0000 then front.Complete? ==> |front.rest| > |behind|
            else if |body| > limits.maxFrame then front.Broken?
            else match Body(zlib, body, limits)
                 case Ok(value) => front == Complete(value, behind)
                 case Err(error) => front == Broken(error)
  {
    hide Body, FromBigEndian, BigEndian;
    var size := |body| % 0x1_0000_0000;
    var stream := Framed(body) + behind;
    HeaderReads(size, body + behind);
    assert stream == [PROTOCOL_VERSION] + BigEndian(size, 4) + (body + behind);
    assert stream[HEADER_SIZE..] == body + behind;
    if |body| < 0x1_0000_0000 {
      assert stream[HEADER_SIZE..HEADER_SIZE + |body|] == body;
      assert stream[HEADER_SIZE + |body|..] == behind;
    }
  }

  lemma FrameArrives(zlib: Zlib, limits: Limits, value: Value, behind: bytes)
    requires zlib.Inverse() && Deliverable(zlib, limits, value)
    ensures Frame(zlib, value).Ok?
    ensures FrontOf(zlib, limits, Frame(zlib, value).value + behind) == Complete(value, behind)
  {
    hide Encode.Encoded, Carried, Body, FrontOf;
    FrontOfFrame(zlib, limits, zlib.deflate(Encode.Encoded(value)).value, behind);
    BodyArrives(zlib, limits, value);
  }

  lemma Inflates(zlib: Zlib, body: bytes, cap: nat)
    requires zlib.Inverse() && zlib.deflate(body).Just?
    ensures zlib.inflate(zlib.deflate(body).value, cap) == Just(if |body| <= cap then body else body[..cap])
  {
  }

  lemma BodyArrivesIff(zlib: Zlib, limits: Limits, value: Value)
    requires zlib.Inverse() && zlib.deflate(Encode.Encoded(value)).Just?
    requires Body(zlib, zlib.deflate(Encode.Encoded(value)).value, limits) == Ok(value)
    ensures Carried(value, Utf8Lossy, 0) && |Encode.Encoded(value)| <= limits.maxBody
  {
    hide Encode.Encoded, Carried, Decode.Decoded;
    var e := Encode.Encoded(value);
    Inflates(zlib, e, limits.maxBody + 1);
    Shortest.DecodedIsCarried(e, Utf8Lossy);
  }

  /**
   A frame that could be made comes back as its value, and nothing but it, exactly when the value
   is deliverable. The sender does not see to that: a body beyond 32 bits it sends under a length
   cut to its low 32 bits.
   */
  lemma FrameArrivesIff(zlib: Zlib, limits: Limits, value: Value, behind: bytes)
    requires zlib.Inverse() && Frame(zlib, value).Ok?
    ensures FrontOf(zlib, limits, Frame(zlib, value).value + behind) == Complete(value, behind)
       <==> Deliverable(zlib, limits, value)
  {
    hide Encode.Encoded, Carried, Body, FrontOf;
    if Deliverable(zlib, limits, value) {
      FrameArrives(zlib, limits, value, behind);
    } else {
      FrontOfFrame(zlib, limits, zlib.deflate(Encode.Encoded(value)).value, behind);
      if FrontOf(zlib, limits, Frame(zlib, value).value + behind) == Complete(value, behind) {
        BodyArrivesIff(zlib, limits, value);
      }
    }
  }

  /** Frames sent one after another arrive as the values they were made from, in order, all of them. */
  lemma {:induction false} StreamArrives(zlib: Zlib, limits: Limits, values: seq<Value>)
    requires zlib.Inverse()
    requires forall i | 0 <= i < |values| :: Deliverable(zlib, limits, values[i])
    ensures forall i | 0 <= i < |values| :: Frame(zlib, values[i]).Ok?
    ensures Messages(zlib, limits, Stream(zlib, values)) == Transcript(values, Nothing)
    ensures Leftover(zlib, limits, Stream(zlib, values)) == []
  {
    hide FrontOf, Frame, Deliverable;
    forall i | 0 <= i < |values|
      ensures Frame(zlib, values[i]).Ok?
    {
      FrameArrives(zlib, limits, values[i], []);
    }
    if values == [] {
      EmptyIsIncomplete(zlib, limits);
    } else {
      FrameArrives(zlib, limits, values[0], Stream(zlib, values[1..]));
      StreamArrives(zlib, limits, values[1..]);
      assert [values[0]] + values[1..] == values;
    }
  }
}
