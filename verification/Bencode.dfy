/** Just enough bencode to read a torrent file, and to say where its `info` dictionary lay. */
module Bencode {
  import opened Bytes

  const MAX_DEPTH: nat := 32
  const INT_START: byte := 105
  const LIST_START: byte := 108
  const DICT_START: byte := 100
  const END: byte := 101
  const COLON: byte := 58
  const PLUS: byte := 43
  const MINUS: byte := 45
  const NOWHERE: bytes := [0, 110, 111, 110, 101]

  datatype Value =
    | Int(number: i64)
    | Bytes(raw: bytes)
    | List(items: seq<Value>)
    | Dict(entries: map<bytes, Value>)

  datatype Error = Truncated(at: nat) | Malformed(at: nat) | TooDeep(limit: nat) | BadLength(at: nat)

  type Result<+T> = Fallible<T, Error>

  datatype Range = Range(start: nat, end: nat)

  /** A value, the offset just behind it, and where the wanted member of it lay. */
  datatype Parsed = Parsed(value: Value, next: nat, span: Option<Range>)

  datatype Members = Members(entries: map<bytes, Value>, next: nat, span: Option<Range>)

  // --------------------------------------------------------- specification

  /** A 64-bit integer as Rust's `parse` reads it: either sign, leading zeros and all. */
  function ParseI64(s: bytes): Option<i64> {
    var body := if s != [] && s[0] in {PLUS, MINUS} then s[1..] else s;
    if body == [] || !AllDigits(body) then Nothing
    else
      var n := if s[0] == MINUS then 0 - Number(body) else Number(body);
      if -0x8000_0000_0000_0000 <= n < 0x8000_0000_0000_0000 then Just(n) else Nothing
  }

  function ParseLength(s: bytes): Option<nat> {
    if s == [] || !AllDigits(s) || Number(s) >= 0x1_0000_0000_0000_0000 then Nothing else Just(Number(s))
  }

  function IntegerAt(s: bytes, at: nat): (r: Result<Parsed>)
    requires at < |s|
    ensures r.Ok? ==> at < r.value.next <= |s| && r.value.span.Nothing?
  {
    match Find(END, s, at + 1)
    case Nothing => Err(Truncated(at + 1))
    case Just(end) =>
      match ParseI64(s[at + 1..end])
      case Nothing => Err(Malformed(at + 1))
      case Just(number) => Ok(Parsed(Int(number), end + 1, Nothing))
  }

  function BytesAt(s: bytes, at: nat): (r: Result<Parsed>)
    requires at < |s|
    ensures r.Ok? ==> at < r.value.next <= |s| && r.value.span.Nothing?
  {
    match Find(COLON, s, at)
    case Nothing => Err(Truncated(at))
    case Just(colon) =>
      if !IsUtf8(s[at..colon]) then Err(Malformed(at))
      else
        match ParseLength(s[at..colon])
        case Nothing => Err(BadLength(at))
        case Just(length) =>
          var end := colon + 1 + length;
          if end >= 0x1_0000_0000_0000_0000 then Err(BadLength(at))
          else if end > |s| then Err(Truncated(at))
          else Ok(Parsed(Bytes(s[colon + 1..end]), end, Nothing))
  }

  /** One value, `depth` containers down; the outermost dictionary notes where `wanted` lies. */
  function ValueAt(s: bytes, at: nat, depth: nat, wanted: bytes): (r: Result<Parsed>)
    requires at <= |s|
    ensures r.Ok? ==> at < r.value.next <= |s|
    decreases |s| - at, 0
  {
    if depth + 1 > MAX_DEPTH then Err(TooDeep(MAX_DEPTH))
    else if at == |s| then Err(Truncated(at))
    else if s[at] == INT_START then IntegerAt(s, at)
    else if s[at] == LIST_START then
      var items :- ItemsAt(s, at + 1, depth + 1, []);
      Ok(Parsed(List(items.0), items.1, Nothing))
    else if s[at] == DICT_START then
      var members :- MembersAt(s, at + 1, depth + 1, wanted, map[], Nothing);
      Ok(Parsed(Dict(members.entries), members.next, members.span))
    else if IsDigit(s[at]) then BytesAt(s, at)
    else Err(Malformed(at))
  }

  function ItemsAt(s: bytes, at: nat, depth: nat, read: seq<Value>): (r: Result<(seq<Value>, nat)>)
    requires at <= |s|
    ensures r.Ok? ==> at < r.value.1 <= |s|
    decreases |s| - at, 1
  {
    if at == |s| then Err(Truncated(at))
    else if s[at] == END then Ok((read, at + 1))
    else
      var item :- ValueAt(s, at, depth, NOWHERE);
      ItemsAt(s, item.next, depth, read + [item.value])
  }

  /** A key and its value: the key, the offset between the two, the value, the offset behind it. */
  function MemberAt(s: bytes, at: nat, depth: nat): (r: Result<(bytes, nat, Value, nat)>)
    requires at < |s|
    ensures r.Ok? ==> at < r.value.1 < r.value.3 <= |s|
    decreases |s| - at, 1
  {
    var key :- ValueAt(s, at, depth, NOWHERE);
    if !key.value.Bytes? then Err(Malformed(key.next))
    else
      var item :- ValueAt(s, key.next, depth, NOWHERE);
      Ok((key.value.raw, key.next, item.value, item.next))
  }

  function MembersAt(
    s: bytes, at: nat, depth: nat, wanted: bytes, read: map<bytes, Value>, span: Option<Range>): (r: Result<Members>)
    requires at <= |s|
    ensures r.Ok? ==> at < r.value.next <= |s|
    decreases |s| - at, 2
  {
    if at == |s| then Err(Truncated(at))
    else if s[at] == END then Ok(Members(read, at + 1, span))
    else
      var (key, start, item, next) :- MemberAt(s, at, depth);
      MembersAt(s, next, depth, wanted, read[key := item],
                if depth == 1 && key == wanted then Just(Range(start, next)) else span)
  }

  function Decoded(s: bytes): Result<Value> {
    var one :- ValueAt(s, 0, 0, NOWHERE);
    Ok(one.value)
  }

  function DecodedWithSpan(s: bytes, key: bytes): Result<(Value, Option<Range>)> {
    var one :- ValueAt(s, 0, 0, key);
    Ok((one.value, one.span))
  }

  // -------------------------------------------------------- implementation

  class Parser {
    const input: bytes
    var at: nat
    var depth: nat

    constructor (input: bytes)
      ensures this.input == input && at == 0 && depth == 0
    {
      this.input := input;
      at := 0;
      depth := 0;
    }

    method ReadValue() returns (r: Result<Value>)
      requires at <= |input| && depth <= MAX_DEPTH
      modifies this
      ensures match ValueAt(input, old(at), old(depth), NOWHERE)
              case Ok(parsed) => r == Ok(parsed.value) && at == parsed.next && depth == old(depth)
              case Err(error) => r == Err(error)
      decreases MAX_DEPTH - depth, 3
    {
      var ignored: Option<Range>;
      r, ignored := ReadNoting(NOWHERE, Nothing);
    }

    /** Parses a value; if it is the outermost dictionary, records where `wanted` lay. */
    method ReadNoting(wanted: bytes, noted: Option<Range>) returns (r: Result<Value>, span: Option<Range>)
      requires at <= |input| && depth <= MAX_DEPTH && noted.Nothing?
      modifies this
      ensures match ValueAt(input, old(at), old(depth), wanted)
              case Ok(parsed) => r == Ok(parsed.value) && at == parsed.next && span == parsed.span && depth == old(depth)
              case Err(error) => r == Err(error)
      decreases MAX_DEPTH - depth, 2
    {
      hide ItemsAt, MembersAt, IntegerAt, BytesAt;
      span := noted;
      depth := depth + 1;
      if depth > MAX_DEPTH {
        return Err(TooDeep(MAX_DEPTH)), span;
      }
      if at == |input| {
        return Err(Truncated(at)), span;
      }
      var code := input[at];
      if code == INT_START {
        r := ReadInteger();
      } else if code == LIST_START {
        r := ReadList();
      } else if code == DICT_START {
        r, span := ReadDict(wanted, span);
      } else if IsDigit(code) {
        r := ReadBytes();
      } else {
        r := Err(Malformed(at));
      }
      if r.Ok? {
        depth := depth - 1;
      }
    }

    method ReadList() returns (r: Result<Value>)
      requires at < |input| && 1 <= depth <= MAX_DEPTH
      modifies this
      ensures match ItemsAt(input, old(at) + 1, old(depth), [])
              case Ok((items, next)) => r == Ok(List(items)) && at == next && depth == old(depth)
              case Err(error) => r == Err(error)
      decreases MAX_DEPTH - depth, 4
    {
      hide ValueAt;
      at := at + 1;
      var items := [];
      while true
        invariant at <= |input| && depth == old(depth)
        invariant ItemsAt(input, old(at) + 1, depth, []) == ItemsAt(input, at, depth, items)
        decreases |input| - at
      {
        if at == |input| {
          return Err(Truncated(at));
        }
        if input[at] == END {
          at := at + 1;
          return Ok(List(items));
        }
        var item :- ReadValue();
        items := items + [item];
      }
    }

    method ReadDict(wanted: bytes, noted: Option<Range>) returns (r: Result<Value>, span: Option<Range>)
      requires at < |input| && 1 <= depth <= MAX_DEPTH
      modifies this
      ensures match MembersAt(input, old(at) + 1, old(depth), wanted, map[], noted)
              case Ok(members) => r == Ok(Dict(members.entries)) && at == members.next && span == members.span && depth == old(depth)
              case Err(error) => r == Err(error)
      decreases MAX_DEPTH - depth, 4
    {
      hide ValueAt;
      span := noted;
      at := at + 1;
      var outermost := depth == 1;
      var entries := map[];
      while true
        invariant at <= |input| && depth == old(depth)
        invariant MembersAt(input, old(at) + 1, depth, wanted, map[], noted)
               == MembersAt(input, at, depth, wanted, entries, span)
        decreases |input| - at
      {
        if at == |input| {
          return Err(Truncated(at)), span;
        }
        if input[at] == END {
          at := at + 1;
          return Ok(Dict(entries)), span;
        }
        var key := ReadValue();
        if key.Err? {
          return Err(key.error), span;
        }
        if !key.value.Bytes? {
          return Err(Malformed(at)), span;
        }
        var start := at;
        var item := ReadValue();
        if item.Err? {
          return Err(item.error), span;
        }
        if outermost && key.value.raw == wanted {
          span := Just(Range(start, at));
        }
        entries := entries[key.value.raw := item.value];
      }
    }

    method ReadInteger() returns (r: Result<Value>)
      requires at < |input|
      modifies this`at
      ensures match IntegerAt(input, old(at))
              case Ok(parsed) => r == Ok(parsed.value) && at == parsed.next
              case Err(error) => r == Err(error)
    {
      var start := at + 1;
      var end := Find(END, input, start);
      if end.Nothing? {
        return Err(Truncated(start));
      }
      var number := ParseI64(input[start..end.value]);
      if number.Nothing? {
        return Err(Malformed(start));
      }
      at := end.value + 1;
      r := Ok(Int(number.value));
    }

    method ReadBytes() returns (r: Result<Value>)
      requires at < |input|
      modifies this`at
      ensures match BytesAt(input, old(at))
              case Ok(parsed) => r == Ok(parsed.value) && at == parsed.next
              case Err(error) => r == Err(error)
    {
      var colon := Find(COLON, input, at);
      if colon.Nothing? {
        return Err(Truncated(at));
      }
      var text := input[at..colon.value];
      if !IsUtf8(text) {
        return Err(Malformed(at));
      }
      var length := ParseLength(text);
      if length.Nothing? {
        return Err(BadLength(at));
      }
      var start := colon.value + 1;
      var end := start + length.value;
      if end >= 0x1_0000_0000_0000_0000 {
        return Err(BadLength(at));
      }
      if end > |input| {
        return Err(Truncated(at));
      }
      at := end;
      r := Ok(Bytes(input[start..end]));
    }
  }

  method Decode(input: bytes) returns (r: Result<Value>)
    ensures r == Decoded(input)
  {
    var parser := new Parser(input);
    r := parser.ReadValue();
  }

  method DecodeWithSpan(input: bytes, key: bytes) returns (r: Result<(Value, Option<Range>)>)
    ensures r == DecodedWithSpan(input, key)
  {
    var parser := new Parser(input);
    var value, span := parser.ReadNoting(key, Nothing);
    match value
    case Ok(v) => r := Ok((v, span));
    case Err(error) => r := Err(error);
  }
}
