/** The type codes of rencode, and the values it can carry. */
module RencodeValue {
  import opened Bytes

  // ------------------------------------------------------------ type codes

  const INT_POS_FIXED_START: byte := 0
  const INT_POS_FIXED_COUNT: byte := 44
  const CHR_FLOAT64: byte := 44
  const DIGIT_START: byte := 48
  const DIGIT_END: byte := 57
  const COLON: byte := 58
  const CHR_LIST: byte := 59
  const CHR_DICT: byte := 60
  const CHR_INT: byte := 61
  const CHR_INT1: byte := 62
  const CHR_INT2: byte := 63
  const CHR_INT4: byte := 64
  const CHR_INT8: byte := 65
  const CHR_FLOAT32: byte := 66
  const CHR_TRUE: byte := 67
  const CHR_FALSE: byte := 68
  const CHR_NONE: byte := 69
  const INT_NEG_FIXED_START: byte := 70
  const INT_NEG_FIXED_COUNT: int := 32
  const DICT_FIXED_START: byte := 102
  const DICT_FIXED_COUNT: byte := 25
  const CHR_TERM: byte := 127
  const STR_FIXED_START: byte := 128
  const STR_FIXED_COUNT: byte := 64
  const LIST_FIXED_START: byte := 192
  const LIST_FIXED_COUNT: byte := 64
  const MINUS: byte := 45
  const ZERO: byte := 48

  const MAX_INT_LENGTH: nat := 64
  const MAX_DEPTH: nat := 64
  const MAX_LENGTH: nat := 64 * 1024 * 1024

  // ---------------------------------------------------------------- values

  type raw4 = s: bytes | |s| == 4 witness [0, 0, 0, 0]

  type raw8 = s: bytes | |s| == 8 witness [0, 0, 0, 0, 0, 0, 0, 0]

  /** Floats are their IEEE bit patterns; a dictionary keeps its pairs in order. */
  datatype Value =
    | None
    | Bool(flag: bool)
    | Int(number: i64)
    | BigInt(digits: bytes)
    | Float32(single: raw4)
    | Float64(double: raw8)
    | Bytes(raw: bytes)
    | Str(text: text)
    | List(items: seq<Value>)
    | Dict(entries: seq<Entry>)
  {
    function AsI64(): Option<i64> {
      if Int? then Just(number) else Nothing
    }

    /** The text of a `Str`, or of `Bytes` that happen to be valid UTF-8. */
    function AsStr(): Option<text> {
      if Str? then Just(text)
      else if Bytes? && IsUtf8(raw) then Just(raw)
      else Nothing
    }
  }

  datatype Entry = Entry(key: Value, value: Value)

  /** How a string is decoded: left raw, or read as UTF-8 wherever it is UTF-8. */
  datatype StringMode = Raw | Utf8Lossy

  function StringValue(raw: bytes, mode: StringMode): Value {
    if mode.Utf8Lossy? && IsUtf8(raw) then Str(raw) else Value.Bytes(raw)
  }

  /** The decimal form the decoder takes: no sign but a minus, no leading zero, no `-0`. */
  predicate IsCanonicalInt(s: bytes) {
    && s != []
    && s != [MINUS]
    && !(|s| >= 2 && s[0] == MINUS && s[1] == ZERO)
    && !(s[0] == ZERO && |s| > 1)
    && AllDigits(if s[0] == MINUS then s[1..] else s)
  }

  function IntOf(s: bytes): int
    requires IsCanonicalInt(s)
  {
    if s[0] == MINUS then 0 - Number(s[1..]) else Number(s)
  }

  predicate FitsI64(n: int) {
    -0x8000_0000_0000_0000 <= n < 0x8000_0000_0000_0000
  }

  // ------------------------------------------------------ what can be carried

  /**
   The values the wire can carry `depth` levels below the top of a message: bounded nesting
   and strings, big integers only where 64 bits do not do, and strings in the one variant the
   mode would read them back as.
   */
  ghost predicate Carried(v: Value, mode: StringMode, depth: nat)
    decreases v
  {
    && depth <= MAX_DEPTH
    && match v {
         case BigInt(digits) => |digits| < MAX_INT_LENGTH && IsCanonicalInt(digits) && !FitsI64(IntOf(digits))
         case Bytes(raw) => |raw| <= MAX_LENGTH && (mode.Utf8Lossy? ==> !IsUtf8(raw))
         case Str(text) => |text| <= MAX_LENGTH && mode.Utf8Lossy?
         case List(items) => forall i | 0 <= i < |items| :: Carried(items[i], mode, depth + 1)
         case Dict(entries) =>
           forall i | 0 <= i < |entries| ::
             Carried(entries[i].key, mode, depth + 1) && Carried(entries[i].value, mode, depth + 1)
         case _ => true
       }
  }

  /** How many values a value is made of, itself included. */
  function Nodes(v: Value): (n: nat)
    ensures n >= 1
    decreases v, 0
  {
    match v
    case List(items) => 1 + NodesOfList(items)
    case Dict(entries) => 1 + NodesOfDict(entries)
    case _ => 1
  }

  function NodesOfList(items: seq<Value>): nat
    decreases items, 1
  {
    if items == [] then 0 else Nodes(items[0]) + NodesOfList(items[1..])
  }

  function NodesOfDict(entries: seq<Entry>): nat
    decreases entries, 1
  {
    if entries == [] then 0
    else
      assert entries decreases to entries[0];
      Nodes(entries[0].key) + Nodes(entries[0].value) + NodesOfDict(entries[1..])
  }
}
