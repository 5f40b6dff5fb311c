/** The message shapes DelugeRPC carries. */
module RpcMessage {
  import opened Bytes
  import opened RencodeValue

  const RPC_RESPONSE: int := 1
  const RPC_ERROR: int := 2
  const RPC_EVENT: int := 3

  datatype Request = Request(id: i64, name: text, args: seq<Value>, kwargs: seq<Entry>)
  {
    function ToValue(): Value {
      List([Int(id), Str(name), List(args), Dict(kwargs)])
    }
  }

  function RequestsToValue(requests: seq<Request>): Value {
    List(seq(|requests|, i requires 0 <= i < |requests| => requests[i].ToValue()))
  }

  datatype Failure = Failure(exception: text, args: seq<Value>, kwargs: seq<Entry>, traceback: Option<text>)

  datatype Event = Event(name: text, args: seq<Value>)

  datatype Incoming =
    | Response(id: i64, result: Value)
    | Fault(id: i64, failure: Failure)
    | Pushed(event: Event)

  function Get(items: seq<Value>, index: nat): Option<Value> {
    if index < |items| then Just(items[index]) else Nothing
  }

  function GetStr(items: seq<Value>, index: nat): Option<text> {
    if index < |items| then items[index].AsStr() else Nothing
  }

  function GetListOrEmpty(items: seq<Value>, index: nat): seq<Value> {
    if index < |items| && items[index].List? then items[index].items else []
  }

  function UnknownError(): text {
    var name: bytes := [85, 110, 107, 110, 111, 119, 110, 69, 114, 114, 111, 114];
    AsciiIsUtf8(name);
    name
  }

  function ReadFailure(items: seq<Value>): Failure {
    var exception := GetStr(items, 2);
    var kwargs := if |items| > 4 && items[4].Dict? then items[4].entries else [];
    var traceback := GetStr(items, 5);
    Failure(
      if exception.Just? then exception.value else UnknownError(),
      GetListOrEmpty(items, 3),
      kwargs,
      if traceback == Just([]) then Nothing else traceback)
  }

  /** Reads one decoded message; `Nothing` for one that is none of the three shapes. */
  function FromValue(value: Value): Option<Incoming> {
    var items := GetListOrEmpty([value], 0);
    if items == [] || !items[0].Int? then Nothing
    else
      var id := if |items| > 1 then items[1].AsI64() else Nothing;
      var kind := items[0].number;
      if kind == RPC_RESPONSE && id.Just? then
        // The daemon wraps the return value in a one-element list.
        var result :=
          match Get(items, 2)
          case Just(List(values)) => if |values| == 1 then values[0] else List(values)
          case Just(other) => other
          case Nothing => Value.None;
        Just(Response(id.value, result))
      else if kind == RPC_ERROR && id.Just? then
        Just(Fault(id.value, ReadFailure(items)))
      else if kind == RPC_EVENT && GetStr(items, 1).Just? then
        Just(Pushed(Event(GetStr(items, 1).value, GetListOrEmpty(items, 2))))
      else Nothing
  }
}
