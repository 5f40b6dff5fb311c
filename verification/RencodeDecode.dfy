/** The rencode decoder: one cursor over a buffer, bounded in depth and in every length. */
module RencodeDecode {
  import opened Bytes
  import opened RencodeValue

  datatype Container = AList | ADict | AnInt

  datatype Error =
    | Truncated(offset: nat, needed: nat)
    | UnknownTypeCode(code: byte, offset: nat)
    | MalformedNumber(offset: nat)
    | LengthLimit(offset: nat, length: nat, limit: nat)
    | TooDeep(offset: nat, limit: nat)
    | Unterminated(offset: nat, container: Container)
    | DanglingKey(offset: nat)
    | TrailingBytes(extra: nat)

  type Result<+T> = Fallible<T, Error>

  /** A value and the offset just behind it. */
  type Parsed = Result<(Value, nat)>

  // --------------------------------------------------------- specification

  lemma Pow256Values()
    ensures Pow256(1) == 0x100 && Pow256(2) == 0x1_0000 && Pow256(4) == 0x1_0000_0000
    ensures Pow256(8) == 0x1_0000_0000_0000_0000
  {
    assert Pow256(4) == 256 * 256 * Pow256(2);
    assert Pow256(6) == 256 * 256 * Pow256(4);
  }

  /** A big-endian two's complement integer of one of the four widths. */
  function FromSigned(raw: bytes): i64
    requires |raw| in {1, 2, 4, 8}
  {
    Pow256Values();
    var unsigned := FromBigEndian(raw);
    if 2 * unsigned >= Pow256(|raw|) then unsigned - Pow256(|raw|) else unsigned
  }

  function Taken(s: bytes, from: nat, count: nat): (r: Result<bytes>)
    requires from <= |s|
    ensures r.Ok? ==> from + count <= |s| && r.value == s[from..from + count]
  {
    if from + count <= |s| then Ok(s[from..from + count])
    else Err(Truncated(from, from + count - |s|))
  }

  function SignedAt(s: bytes, at: nat, width: nat): (r: Parsed)
    requires at < |s| && width in {1, 2, 4, 8}
    ensures r.Ok? ==> r.value.1 == at + 1 + width <= |s|
  {
    var raw :- Taken(s, at + 1, width);
    Ok((Int(FromSigned(raw)), at + 1 + width))
  }

  function DecimalIntAt(s: bytes, at: nat): (r: Parsed)
    requires at < |s|
    ensures r.Ok? ==> at < r.value.1 <= |s|
  {
    match Find(CHR_TERM, s, at + 1)
    case Nothing => Err(Unterminated(at, AnInt))
    case Just(end) =>
      var digits := s[at + 1..end];
      if |digits| >= MAX_INT_LENGTH then Err(LengthLimit(at, |digits|, MAX_INT_LENGTH))
      else if !IsCanonicalInt(digits) then Err(MalformedNumber(at + 1))
      else
        var number := IntOf(digits);
        Ok((if FitsI64(number) then Int(number) else BigInt(digits), end + 1))
  }

  function PrefixedStringAt(s: bytes, at: nat, mode: StringMode): (r: Parsed)
    requires at < |s|
    ensures r.Ok? ==> at < r.value.1 <= |s|
  {
    match Find(COLON, s, at)
    case Nothing => Err(MalformedNumber(at))
    case Just(colon) =>
      var digits := s[at..colon];
      if |digits| > 20 || !AllDigits(digits) || digits == [] || Number(digits) >= 0x1_0000_0000_0000_0000 then
        Err(MalformedNumber(at))
      else if Number(digits) > MAX_LENGTH then Err(LengthLimit(colon + 1, Number(digits), MAX_LENGTH))
      else
        var raw :- Taken(s, colon + 1, Number(digits));
        Ok((StringValue(raw, mode), colon + 1 + Number(digits)))
  }

  function DecodedAt(s: bytes, at: nat, depth: nat, mode: StringMode): (r: Parsed)
    requires at <= |s|
    ensures r.Ok? ==> at < r.value.1 <= |s|
    decreases |s| - at, 0
  {
    if depth > MAX_DEPTH then Err(TooDeep(at, MAX_DEPTH))
    else if at == |s| then Err(Truncated(at, 1))
    else
      var code := s[at];
      if code < INT_POS_FIXED_COUNT then Ok((Int(code - INT_POS_FIXED_START), at + 1))
      else if INT_NEG_FIXED_START <= code < INT_NEG_FIXED_START + INT_NEG_FIXED_COUNT then
        Ok((Int(-1 - (code - INT_NEG_FIXED_START)), at + 1))
      else if STR_FIXED_START <= code < STR_FIXED_START + STR_FIXED_COUNT then
        var raw :- Taken(s, at + 1, code - STR_FIXED_START);
        Ok((StringValue(raw, mode), at + 1 + |raw|))
      else if code >= LIST_FIXED_START then
        ItemsAt(s, at + 1, depth + 1, mode, code - LIST_FIXED_START, [])
      else if DICT_FIXED_START <= code < DICT_FIXED_START + DICT_FIXED_COUNT then
        EntriesAt(s, at + 1, depth + 1, mode, code - DICT_FIXED_START, [])
      else if DIGIT_START <= code <= DIGIT_END then PrefixedStringAt(s, at, mode)
      else if code == CHR_NONE then Ok((Value.None, at + 1))
      else if code == CHR_TRUE then Ok((Bool(true), at + 1))
      else if code == CHR_FALSE then Ok((Bool(false), at + 1))
      else if code == CHR_INT1 then SignedAt(s, at, 1)
      else if code == CHR_INT2 then SignedAt(s, at, 2)
      else if code == CHR_INT4 then SignedAt(s, at, 4)
      else if code == CHR_INT8 then SignedAt(s, at, 8)
      else if code == CHR_FLOAT32 then
        var raw :- Taken(s, at + 1, 4);
        Ok((Float32(raw), at + 5))
      else if code == CHR_FLOAT64 then
        var raw :- Taken(s, at + 1, 8);
        Ok((Float64(raw), at + 9))
      else if code == CHR_INT then DecimalIntAt(s, at)
      else if code == CHR_LIST then OpenItemsAt(s, at + 1, depth + 1, mode, at, [])
      else if code == CHR_DICT then OpenEntriesAt(s, at + 1, depth + 1, mode, at, [])
      else Err(UnknownTypeCode(code, at))
  }

  /** `count` more values, behind the ones already read. */
  function ItemsAt(s: bytes, at: nat, depth: nat, mode: StringMode, count: nat, read: seq<Value>): (r: Parsed)
    requires at <= |s|
    ensures r.Ok? ==> at <= r.value.1 <= |s|
    decreases |s| - at, 1
  {
    if count == 0 then Ok((List(read), at))
    else
      var item :- DecodedAt(s, at, depth, mode);
      ItemsAt(s, item.1, depth, mode, count - 1, read + [item.0])
  }

  /** `count` more pairs, behind the ones already read. */
  function EntriesAt(s: bytes, at: nat, depth: nat, mode: StringMode, count: nat, read: seq<Entry>): (r: Parsed)
    requires at <= |s|
    ensures r.Ok? ==> at <= r.value.1 <= |s|
    decreases |s| - at, 1
  {
    if count == 0 then Ok((Dict(read), at))
    else
      var key :- DecodedAt(s, at, depth, mode);
      var value :- DecodedAt(s, key.1, depth, mode);
      EntriesAt(s, value.1, depth, mode, count - 1, read + [Entry(key.0, value.0)])
  }

  /** Values up to the terminator of the list that started at `start`. */
  function OpenItemsAt(s: bytes, at: nat, depth: nat, mode: StringMode, start: nat, read: seq<Value>): (r: Parsed)
    requires at <= |s|
    ensures r.Ok? ==> at < r.value.1 <= |s|
    decreases |s| - at, 1
  {
    if at == |s| then Err(Unterminated(start, AList))
    else if s[at] == CHR_TERM then Ok((List(read), at + 1))
    else
      var item :- DecodedAt(s, at, depth, mode);
      OpenItemsAt(s, item.1, depth, mode, start, read + [item.0])
  }

  /**
   One pair of a terminated dictionary. A key with the terminator behind it and a key with
   nothing behind it are different faults.
   */
  function OpenEntryAt(s: bytes, at: nat, depth: nat, mode: StringMode, start: nat): (r: Result<(Entry, nat)>)
    requires at < |s|
    ensures r.Ok? ==> at < r.value.1 <= |s|
    decreases |s| - at, 1
  {
    var key :- DecodedAt(s, at, depth, mode);
    if key.1 == |s| then Err(Unterminated(start, ADict))
    else if s[key.1] == CHR_TERM then Err(DanglingKey(key.1))
    else
      var value :- DecodedAt(s, key.1, depth, mode);
      Ok((Entry(key.0, value.0), value.1))
  }

  /** Pairs up to the terminator of the dictionary that started at `start`. */
  function OpenEntriesAt(s: bytes, at: nat, depth: nat, mode: StringMode, start: nat, read: seq<Entry>): (r: Parsed)
    requires at <= |s|
    ensures r.Ok? ==> at < r.value.1 <= |s|
    decreases |s| - at, 2
  {
    if at == |s| then Err(Unterminated(start, ADict))
    else if s[at] == CHR_TERM then Ok((Dict(read), at + 1))
    else
      var entry :- OpenEntryAt(s, at, depth, mode, start);
      OpenEntriesAt(s, entry.1, depth, mode, start, read + [entry.0])
  }

  /** One complete value, with nothing left over. */
  function Decoded(s: bytes, mode: StringMode): (r: Result<Value>) {
    var one :- DecodedAt(s, 0, 0, mode);
    if one.1 != |s| then Err(TrailingBytes(|s| - one.1)) else Ok(one.0)
  }

  // -------------------------------------------------------- implementation

  /** The cursor. Where a failure leaves it is nobody's business: the decoder is dropped. */
  class Decoder {
    const input: bytes
    const mode: StringMode
    var offset: nat

    constructor (input: bytes, mode: StringMode)
      ensures this.input == input && this.mode == mode && offset == 0
    {
      this.input := input;
      this.mode := mode;
      offset := 0;
    }

    /** Whether the outcome of a method is the one specified, cursor included. */
    ghost predicate Answers(r: Result<Value>, spec: Parsed)
      reads this
    {
      match spec
      case Ok((v, next)) => r == Ok(v) && offset == next
      case Err(error) => r == Err(error)
    }

    method Take(count: nat) returns (r: Result<bytes>)
      requires offset <= |input|
      modifies this
      ensures r == Taken(input, old(offset), count)
      ensures offset == if r.Ok? then old(offset) + count else old(offset)
    {
      var end := offset + count;
      if end <= |input| {
        r := Ok(input[offset..end]);
        offset := end;
      } else {
        r := Err(Truncated(offset, end - |input|));
      }
    }

    method ReadValue(depth: nat) returns (r: Result<Value>)
      requires offset <= |input| && depth <= MAX_DEPTH + 1
      modifies this
      ensures Answers(r, DecodedAt(input, old(offset), depth, mode))
      decreases MAX_DEPTH + 1 - depth, 3
    {
      if depth > MAX_DEPTH {
        return Err(TooDeep(offset, MAX_DEPTH));
      }
      if offset == |input| {
        return Err(Truncated(offset, 1));
      }
      var code := input[offset];
      if code < INT_POS_FIXED_COUNT {
        offset := offset + 1;
        return Ok(Int(code - INT_POS_FIXED_START));
      }
      if INT_NEG_FIXED_START <= code < INT_NEG_FIXED_START + INT_NEG_FIXED_COUNT {
        offset := offset + 1;
        return Ok(Int(-1 - (code - INT_NEG_FIXED_START)));
      }
      if STR_FIXED_START <= code < STR_FIXED_START + STR_FIXED_COUNT {
        offset := offset + 1;
        var raw :- Take(code - STR_FIXED_START);
        return Ok(StringValue(raw, mode));
      }
      if code >= LIST_FIXED_START {
        r := ReadList(depth, code - LIST_FIXED_START);
        return;
      }
      if DICT_FIXED_START <= code < DICT_FIXED_START + DICT_FIXED_COUNT {
        r := ReadDict(depth, code - DICT_FIXED_START);
        return;
      }
      if DIGIT_START <= code <= DIGIT_END {
        r := ReadPrefixedString();
        return;
      }
      r := ReadCoded(code, depth);
    }

    /** The exact codes, which all fall between the ranges `ReadValue` deals with. */
    method ReadCoded(code: byte, depth: nat) returns (r: Result<Value>)
      requires offset < |input| && code == input[offset] && depth <= MAX_DEPTH
      requires INT_POS_FIXED_COUNT <= code < INT_NEG_FIXED_START || code == CHR_TERM
      requires !(DIGIT_START <= code <= DIGIT_END)
      modifies this
      ensures Answers(r, DecodedAt(input, old(offset), depth, mode))
      decreases MAX_DEPTH + 1 - depth, 2
    {
      if code == CHR_NONE {
        offset := offset + 1;
        r := Ok(Value.None);
      } else if code == CHR_TRUE {
        offset := offset + 1;
        r := Ok(Bool(true));
      } else if code == CHR_FALSE {
        offset := offset + 1;
        r := Ok(Bool(false));
      } else if code == CHR_INT1 || code == CHR_INT2 || code == CHR_INT4 || code == CHR_INT8 {
        offset := offset + 1;
        var width := if code == CHR_INT1 then 1 else if code == CHR_INT2 then 2 else if code == CHR_INT4 then 4 else 8;
        var raw :- Take(width);
        r := Ok(Int(FromSigned(raw)));
      } else if code == CHR_FLOAT32 {
        offset := offset + 1;
        var raw :- Take(4);
        r := Ok(Float32(raw));
      } else if code == CHR_FLOAT64 {
        offset := offset + 1;
        var raw :- Take(8);
        r := Ok(Float64(raw));
      } else if code == CHR_INT {
        r := ReadDecimalInt();
      } else if code == CHR_LIST {
        r := ReadOpenList(depth);
      } else if code == CHR_DICT {
        r := ReadOpenDict(depth);
      } else {
        r := Err(UnknownTypeCode(code, offset));
      }
    }

    method ReadList(depth: nat, count: nat) returns (r: Result<Value>)
      requires offset < |input| && depth <= MAX_DEPTH
      modifies this
      ensures Answers(r, ItemsAt(input, old(offset) + 1, depth + 1, mode, count, []))
      decreases MAX_DEPTH + 1 - depth, 0
    {
      hide DecodedAt;
      offset := offset + 1;
      var items := [];
      for i := 0 to count
        invariant offset <= |input|
        invariant ItemsAt(input, old(offset) + 1, depth + 1, mode, count, [])
               == ItemsAt(input, offset, depth + 1, mode, count - i, items)
      {
        var item :- ReadValue(depth + 1);
        items := items + [item];
      }
      r := Ok(List(items));
    }

    method ReadDict(depth: nat, count: nat) returns (r: Result<Value>)
      requires offset < |input| && depth <= MAX_DEPTH
      modifies this
      ensures Answers(r, EntriesAt(input, old(offset) + 1, depth + 1, mode, count, []))
      decreases MAX_DEPTH + 1 - depth, 0
    {
      hide DecodedAt;
      offset := offset + 1;
      var entries := [];
      for i := 0 to count
        invariant offset <= |input|
        invariant EntriesAt(input, old(offset) + 1, depth + 1, mode, count, [])
               == EntriesAt(input, offset, depth + 1, mode, count - i, entries)
      {
        var key :- ReadValue(depth + 1);
        var value :- ReadValue(depth + 1);
        entries := entries + [Entry(key, value)];
      }
      r := Ok(Dict(entries));
    }

    method ReadOpenList(depth: nat) returns (r: Result<Value>)
      requires offset < |input| && depth <= MAX_DEPTH
      modifies this
      ensures Answers(r, OpenItemsAt(input, old(offset) + 1, depth + 1, mode, old(offset), []))
      decreases MAX_DEPTH + 1 - depth, 0
    {
      hide DecodedAt;
      var start := offset;
      offset := offset + 1;
      var items := [];
      while true
        invariant offset <= |input|
        invariant OpenItemsAt(input, start + 1, depth + 1, mode, start, [])
               == OpenItemsAt(input, offset, depth + 1, mode, start, items)
        decreases |input| - offset
      {
        if offset == |input| {
          return Err(Unterminated(start, AList));
        }
        if input[offset] == CHR_TERM {
          offset := offset + 1;
          return Ok(List(items));
        }
        var item :- ReadValue(depth + 1);
        items := items + [item];
      }
    }

    method ReadOpenDict(depth: nat) returns (r: Result<Value>)
      requires offset < |input| && depth <= MAX_DEPTH
      modifies this
      ensures Answers(r, OpenEntriesAt(input, old(offset) + 1, depth + 1, mode, old(offset), []))
      decreases MAX_DEPTH + 1 - depth, 1
    {
      hide DecodedAt;
      var start := offset;
      offset := offset + 1;
      var entries := [];
      while true
        invariant offset <= |input|
        invariant OpenEntriesAt(input, start + 1, depth + 1, mode, start, [])
               == OpenEntriesAt(input, offset, depth + 1, mode, start, entries)
        decreases |input| - offset
      {
        if offset == |input| {
          return Err(Unterminated(start, ADict));
        }
        if input[offset] == CHR_TERM {
          offset := offset + 1;
          return Ok(Dict(entries));
        }
        var entry :- ReadOpenEntry(depth, start);
        entries := entries + [entry];
      }
    }

    method ReadOpenEntry(depth: nat, start: nat) returns (r: Result<Entry>)
      requires offset < |input| && depth <= MAX_DEPTH
      modifies this
      ensures match OpenEntryAt(input, old(offset), depth + 1, mode, start)
              case Ok((entry, next)) => r == Ok(entry) && offset == next
              case Err(error) => r == Err(error)
      decreases MAX_DEPTH + 1 - depth, 0
    {
      hide DecodedAt;
      var key :- ReadValue(depth + 1);
      if offset == |input| {
        return Err(Unterminated(start, ADict));
      }
      if input[offset] == CHR_TERM {
        return Err(DanglingKey(offset));
      }
      var value :- ReadValue(depth + 1);
      r := Ok(Entry(key, value));
    }

    method ReadDecimalInt() returns (r: Result<Value>)
      requires offset < |input|
      modifies this
      ensures Answers(r, DecimalIntAt(input, old(offset)))
    {
      var start := offset;
      offset := offset + 1;
      var end := Find(CHR_TERM, input, offset);
      if end.Nothing? {
        return Err(Unterminated(start, AnInt));
      }
      var digits := input[offset..end.value];
      if |digits| >= MAX_INT_LENGTH {
        return Err(LengthLimit(start, |digits|, MAX_INT_LENGTH));
      }
      if !IsCanonicalInt(digits) {
        return Err(MalformedNumber(offset));
      }
      offset := end.value + 1;
      var number := IntOf(digits);
      r := Ok(if FitsI64(number) then Int(number) else BigInt(digits));
    }

    method ReadPrefixedString() returns (r: Result<Value>)
      requires offset < |input|
      modifies this
      ensures Answers(r, PrefixedStringAt(input, old(offset), mode))
    {
      var start := offset;
      var colon := Find(COLON, input, start);
      if colon.Nothing? {
        return Err(MalformedNumber(start));
      }
      var digits := input[start..colon.value];
      if |digits| > 20 || !AllDigits(digits) {
        return Err(MalformedNumber(start));
      }
      if digits == [] || Number(digits) >= 0x1_0000_0000_0000_0000 {
        return Err(MalformedNumber(start));
      }
      offset := colon.value + 1;
      var length := Number(digits);
      if length > MAX_LENGTH {
        return Err(LengthLimit(offset, length, MAX_LENGTH));
      }
      var raw :- Take(length);
      r := Ok(StringValue(raw, mode));
    }
  }

  method FromSlice(input: bytes, mode: StringMode) returns (r: Result<Value>)
    ensures r == Decoded(input, mode)
  {
    var decoder := new Decoder(input, mode);
    var value :- decoder.ReadValue(0);
    if decoder.offset != |input| {
      return Err(TrailingBytes(|input| - decoder.offset));
    }
    r := Ok(value);
  }

  method FromSlicePrefix(input: bytes, mode: StringMode) returns (r: Parsed)
    ensures r == DecodedAt(input, 0, 0, mode)
  {
    var decoder := new Decoder(input, mode);
    var value :- decoder.ReadValue(0);
    r := Ok((value, decoder.offset));
  }
}
