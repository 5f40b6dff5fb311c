/**
 The wire in literal bytes: the forms a message may take, what each of them stands for, and that
 the decoder reads exactly these.
 */
module RencodeWire {
  import opened Bytes
  import opened RencodeValue
  import opened RencodeDecode

  /**
   A message as it lies on the wire. The parts of a dictionary are its keys and values in turn.
   */
  datatype Form =
    | Plain(code: byte)
    | Fixed(code: byte, raw: bytes)
    | Decimal(numeral: bytes)
    | Prefixed(length: bytes, raw: bytes)
    | Counted(code: byte, parts: seq<Form>)
    | Open(code: byte, parts: seq<Form>)

  function Wire(f: Form): (s: bytes)
    ensures s != []
    decreases f, 1
  {
    match f
    case Plain(code) => [code]
    case Fixed(code, raw) => [code] + raw
    case Decimal(numeral) => [61] + (numeral + [127])
    case Prefixed(length, raw) => length + ([58] + raw)
    case Counted(code, parts) => [code] + WireAll(parts)
    case Open(code, parts) => [code] + (WireAll(parts) + [127])
  }

  function WireAll(parts: seq<Form>): bytes
    decreases parts, 0
  {
    if parts == [] then [] else Wire(parts[0]) + WireAll(parts[1..])
  }

  /** A minus or none, no leading zero, no `-0`. */
  predicate IsNumeral(s: bytes) {
    var digits := if s != [] && s[0] == 45 then s[1..] else s;
    && digits != [] && AllDigits(digits)
    && (digits[0] == 48 ==> s == [48])
  }

  /** Which forms the wire knows, so many containers down. */
  ghost predicate Proper(f: Form, depth: nat)
    decreases f
  {
    && depth <= 64
    && match f {
         case Plain(code) => code < 44 || 67 <= code <= 101
         case Fixed(code, raw) =>
           || (code == 62 && |raw| == 1) || (code == 63 && |raw| == 2)
           || (code == 64 && |raw| == 4) || (code == 65 && |raw| == 8)
           || (code == 66 && |raw| == 4) || (code == 44 && |raw| == 8)
           || (128 <= code < 192 && |raw| == code - 128)
         case Decimal(numeral) => |numeral| < 64 && IsNumeral(numeral)
         case Prefixed(length, raw) =>
           1 <= |length| <= 20 && AllDigits(length) && Number(length) == |raw| <= 67_108_864
         case Counted(code, parts) =>
           && ((192 <= code && |parts| == code - 192) || (102 <= code <= 126 && |parts| == 2 * (code - 102)))
           && forall i | 0 <= i < |parts| :: Proper(parts[i], depth + 1)
         case Open(code, parts) =>
           && (code == 59 || (code == 60 && |parts| % 2 == 0))
           && forall i | 0 <= i < |parts| :: Proper(parts[i], depth + 1)
       }
  }

  // ---------------------------------------------------------- what it means

  function Nth(raw: bytes, i: nat): int
    requires i < |raw|
  {
    raw[i]
  }

  /** Two's complement, most significant byte first. */
  function Whole(raw: bytes): i64 {
    var below := |raw| > 0 && raw[0] >= 128;
    if |raw| == 1 then Nth(raw, 0) - (if below then 256 else 0)
    else if |raw| == 2 then 256 * Nth(raw, 0) + Nth(raw, 1) - (if below then 65_536 else 0)
    else if |raw| == 4 then FourBytes(raw) - (if below then 4_294_967_296 else 0)
    else if |raw| == 8 then
      4_294_967_296 * FourBytes(raw[..4]) + FourBytes(raw[4..]) - (if below then 18_446_744_073_709_551_616 else 0)
    else 0
  }

  function FourBytes(raw: bytes): (n: int)
    requires |raw| == 4
    ensures 0 <= n < 4_294_967_296 && (n >= 2_147_483_648 <==> raw[0] >= 128)
  {
    16_777_216 * Nth(raw, 0) + 65_536 * Nth(raw, 1) + 256 * Nth(raw, 2) + Nth(raw, 3)
  }

  function Spelled(numeral: bytes): Value
    requires IsNumeral(numeral)
  {
    var number := if numeral[0] == 45 then 0 - Number(numeral[1..]) else Number(numeral);
    if -9_223_372_036_854_775_808 <= number <= 9_223_372_036_854_775_807 then Int(number) else BigInt(numeral)
  }

  /** A string reads as text in the lossy mode if it is UTF-8, as bytes if it is not or the mode is raw. */
  function Text(raw: bytes, mode: StringMode): Value {
    if mode == Utf8Lossy && IsUtf8(raw) then Str(raw) else Value.Bytes(raw)
  }

  function Meaning(f: Form, mode: StringMode): Value
    decreases f, 1
  {
    match f
    case Plain(code) =>
      if code < 44 then Int(code)
      else if 70 <= code <= 101 then Int(69 - code)
      else if code == 67 then Bool(true)
      else if code == 68 then Bool(false)
      else Value.None
    case Fixed(code, raw) =>
      if code == 66 && |raw| == 4 then Float32(raw)
      else if code == 44 && |raw| == 8 then Float64(raw)
      else if code >= 128 then Text(raw, mode)
      else Int(Whole(raw))
    case Decimal(numeral) => if IsNumeral(numeral) then Spelled(numeral) else Value.None
    case Prefixed(_, raw) => Text(raw, mode)
    case Counted(code, parts) => if code >= 192 then List(Meanings(parts, mode)) else Dict(Paired(Meanings(parts, mode)))
    case Open(code, parts) => if code == 59 then List(Meanings(parts, mode)) else Dict(Paired(Meanings(parts, mode)))
  }

  function Meanings(parts: seq<Form>, mode: StringMode): (values: seq<Value>)
    ensures |values| == |parts|
    decreases parts, 0
  {
    if parts == [] then [] else [Meaning(parts[0], mode)] + Meanings(parts[1..], mode)
  }

  function Paired(values: seq<Value>): seq<Entry> {
    if |values| < 2 then [] else [Entry(values[0], values[1])] + Paired(values[2..])
  }

  // ------------------------------------------------------------- type codes

  /** What the decoder does on each type code. */
  lemma CodeMeans(s: bytes, at: nat, depth: nat, mode: StringMode)
    requires at < |s| && depth <= 64
    ensures var code, r := s[at], DecodedAt(s, at, depth, mode);
            && (code < 44 || 67 <= code <= 101 ==> r == Ok((Meaning(Plain(code), mode), at + 1)))
            && (code == 62 ==> r == SignedAt(s, at, 1)) && (code == 63 ==> r == SignedAt(s, at, 2))
            && (code == 64 ==> r == SignedAt(s, at, 4)) && (code == 65 ==> r == SignedAt(s, at, 8))
            && (code == 61 ==> r == DecimalIntAt(s, at))
            && (48 <= code <= 57 ==> r == PrefixedStringAt(s, at, mode))
            && (192 <= code ==> r == ItemsAt(s, at + 1, depth + 1, mode, code - 192, []))
            && (102 <= code <= 126 ==> r == EntriesAt(s, at + 1, depth + 1, mode, code - 102, []))
            && (code == 59 ==> r == OpenItemsAt(s, at + 1, depth + 1, mode, at, []))
            && (code == 60 ==> r == OpenEntriesAt(s, at + 1, depth + 1, mode, at, []))
            && (code in {45, 46, 47, 58, 127} ==> r == Err(UnknownTypeCode(code, at)))
  {
    hide ItemsAt, EntriesAt, OpenItemsAt, OpenEntriesAt, DecimalIntAt, PrefixedStringAt, SignedAt, StringValue;
  }

  /** The same for what follows a code at once and in one piece. */
  lemma RawMeans(s: bytes, at: nat, depth: nat, mode: StringMode)
    requires at < |s| && depth <= 64
    ensures var code, r, left := s[at], DecodedAt(s, at, depth, mode), |s| - at - 1;
            && (code == 66 ==> if left < 4 then r.Err? else r == Ok((Float32(s[at + 1..at + 5]), at + 5)))
            && (code == 44 ==> if left < 8 then r.Err? else r == Ok((Float64(s[at + 1..at + 9]), at + 9)))
            && (128 <= code < 192 ==>
                  if left < code - 128 then r.Err?
                  else r == Ok((Text(s[at + 1..at + 1 + code - 128], mode), at + 1 + code - 128)))
  {
    hide ItemsAt, EntriesAt, OpenItemsAt, OpenEntriesAt, DecimalIntAt, PrefixedStringAt, SignedAt;
  }

  lemma TooDeepIsRefused(s: bytes, at: nat, depth: nat, mode: StringMode)
    requires at <= |s| && DecodedAt(s, at, depth, mode).Ok?
    ensures depth <= 64 && at < |s|
  {
    hide ItemsAt, EntriesAt, OpenItemsAt, OpenEntriesAt, DecimalIntAt, PrefixedStringAt, SignedAt, StringValue;
  }

  // ------------------------------------------------------------------ leaves

  lemma WholeIsSigned(raw: bytes)
    requires |raw| == 1 || |raw| == 2 || |raw| == 4 || |raw| == 8
    ensures FromSigned(raw) == Whole(raw)
  {
    Pow256Values();
    if |raw| == 1 {
      BigEndianOne(raw);
    } else if |raw| == 2 {
      BigEndianTwo(raw);
    } else if |raw| == 4 {
      BigEndianFour(raw);
    } else {
      BigEndianFour(raw[..4]);
      BigEndianFour(raw[4..]);
      BigEndianJoins(raw[..4], raw[4..]);
      assert raw == raw[..4] + raw[4..];
      assert Pow256(4) == 4_294_967_296;
    }
    hide FromBigEndian, Pow256;
  }

  lemma BigEndianOne(raw: bytes)
    requires |raw| == 1
    ensures FromBigEndian(raw) == raw[0]
  {
    assert FromBigEndian(raw[..0]) == 0;
  }

  lemma BigEndianTwo(raw: bytes)
    requires |raw| == 2
    ensures FromBigEndian(raw) == 256 * Nth(raw, 0) + Nth(raw, 1)
  {
    BigEndianOne(raw[..1]);
  }

  lemma BigEndianFour(raw: bytes)
    requires |raw| == 4
    ensures FromBigEndian(raw) == FourBytes(raw)
  {
    BigEndianTwo(raw[..3][..2]);
    assert FromBigEndian(raw[..3]) == 256 * FromBigEndian(raw[..3][..2]) + raw[2];
  }

  lemma {:induction false} BigEndianJoins(a: bytes, b: bytes)
    ensures FromBigEndian(a + b) == FromBigEndian(a) * Pow256(|b|) + FromBigEndian(b)
  {
    if b == [] {
      assert a + b == a;
    } else {
      var front, last := b[..|b| - 1], b[|b| - 1];
      assert (a + b)[..|a + b| - 1] == a + front && (a + b)[|a + b| - 1] == last;
      BigEndianJoins(a, front);
      Scaled(FromBigEndian(a), Pow256(|front|), FromBigEndian(front), last);
    }
  }

  lemma Scaled(a: nat, p: nat, f: nat, last: nat)
    ensures (a * p + f) * 256 + last == a * (256 * p) + (f * 256 + last)
  {
  }

  lemma NumeralIsCanonical(s: bytes)
    ensures IsNumeral(s) <==> IsCanonicalInt(s)
    ensures IsNumeral(s) ==> Spelled(s) == (if FitsI64(IntOf(s)) then Int(IntOf(s)) else BigInt(s))
  {
    hide Number;
    if IsCanonicalInt(s) {
      var digits := if s[0] == 45 then s[1..] else s;
      assert forall i | 0 <= i < |digits| :: IsDigit(digits[i]);
    }
    if IsNumeral(s) {
      assert AllDigits(if s[0] == 45 then s[1..] else s);
      assert s[0] == 45 ==> s[1..][0] == s[1];
    }
  }

  // ---------------------------------------------------- every form is read

  lemma PrefixedApart(s: bytes, at: nat, digits: bytes, raw: bytes)
    requires AllDigits(digits) && Stands(s, at, digits + ([58] + raw))
    ensures var colon := at + |digits|;
            && colon + 1 + |raw| <= |s| && s[at..colon] == digits && s[colon + 1..colon + 1 + |raw|] == raw
            && Find(58, s, at) == Just(colon)
  {
    var colon := at + |digits|;
    StandsApart(s, at, digits, [58] + raw);
    StandsApart(s, colon, [58], raw);
    assert s[colon] == s[colon..colon + 1][0];
    forall i | at <= i < colon
      ensures IsDigit(s[i])
    {
      assert s[i] == s[at..at + |digits|][i - at];
    }
  }

  lemma OpenItemsStep(
    s: bytes, at: nat, depth: nat, mode: StringMode, start: nat, read: seq<Value>, item: Value, next: nat)
    requires at < |s| && s[at] != 127 && DecodedAt(s, at, depth, mode) == Ok((item, next))
    ensures OpenItemsAt(s, at, depth, mode, start, read) == OpenItemsAt(s, next, depth, mode, start, read + [item])
  {
    hide DecodedAt;
  }

  lemma OpenEntriesStep(
    s: bytes, at: nat, depth: nat, mode: StringMode, start: nat, read: seq<Entry>, entry: Entry, middle: nat, next: nat)
    requires at < |s| && s[at] != 127 && DecodedAt(s, at, depth, mode) == Ok((entry.key, middle))
    requires middle < |s| && s[middle] != 127 && DecodedAt(s, middle, depth, mode) == Ok((entry.value, next))
    ensures OpenEntriesAt(s, at, depth, mode, start, read) == OpenEntriesAt(s, next, depth, mode, start, read + [entry])
  {
    hide DecodedAt;
  }

  lemma OpenEntriesDone(s: bytes, at: nat, depth: nat, mode: StringMode, start: nat, read: seq<Entry>)
    requires Stands(s, at, [127])
    ensures OpenEntriesAt(s, at, depth, mode, start, read) == Ok((Dict(read), at + 1))
  {
    assert s[at] == s[at..at + |[127]|][0];
  }

  lemma SignedReads(s: bytes, at: nat, raw: bytes)
    requires |raw| == 1 || |raw| == 2 || |raw| == 4 || |raw| == 8
    requires at + 1 + |raw| <= |s| && s[at + 1..at + 1 + |raw|] == raw
    ensures SignedAt(s, at, |raw|) == Ok((Int(Whole(raw)), at + 1 + |raw|))
  {
    WholeIsSigned(raw);
    hide Whole, FromSigned;
  }

  lemma CodeThenRaw(s: bytes, at: nat, code: byte, raw: bytes)
    requires Stands(s, at, [code] + raw)
    ensures at + 1 + |raw| <= |s| && s[at] == code && s[at + 1..at + 1 + |raw|] == raw
  {
    StartsWith(s, at, [code] + raw);
    StandsApart(s, at, [code], raw);
  }

  lemma FixedReads(s: bytes, at: nat, code: byte, raw: bytes, depth: nat, mode: StringMode)
    requires Proper(Fixed(code, raw), depth) && Stands(s, at, [code] + raw)
    ensures DecodedAt(s, at, depth, mode) == Ok((Meaning(Fixed(code, raw), mode), at + 1 + |raw|))
  {
    hide DecodedAt, SignedAt, Whole, Text, Stands;
    CodeThenRaw(s, at, code, raw);
    if 62 <= code <= 65 {
      SignedReads(s, at, raw);
      CodeMeans(s, at, depth, mode);
    } else {
      RawMeans(s, at, depth, mode);
    }
  }

  lemma NumeralIsFound(s: bytes, at: nat, numeral: bytes)
    requires IsNumeral(numeral) && Stands(s, at, numeral + [127])
    ensures var end := at + |numeral|; end < |s| && s[at..end] == numeral && Find(127, s, at) == Just(end)
  {
    StandsApart(s, at, numeral, [127]);
    var end := at + |numeral|;
    StartsWith(s, end, [127]);
    forall i | at <= i < end
      ensures s[i] != 127
    {
      assert s[i] == s[at..end][i - at];
      assert numeral[0] == 45 && i > at ==> s[i] == numeral[1..][i - at - 1];
    }
  }

  lemma DecimalAt(s: bytes, at: nat, numeral: bytes)
    requires at < |s| && |numeral| < 64 && IsNumeral(numeral)
    requires var end := at + 1 + |numeral|; end < |s| && s[at + 1..end] == numeral && Find(127, s, at + 1) == Just(end)
    ensures DecimalIntAt(s, at) == Ok((Spelled(numeral), at + |numeral| + 2))
  {
    NumeralIsCanonical(numeral);
    hide IsNumeral, IsCanonicalInt, IntOf, Spelled, Find;
  }

  lemma DecimalReads(s: bytes, at: nat, numeral: bytes, depth: nat, mode: StringMode)
    requires Proper(Decimal(numeral), depth) && Stands(s, at, [61] + (numeral + [127]))
    ensures DecodedAt(s, at, depth, mode) == Ok((Spelled(numeral), at + |numeral| + 2))
  {
    hide DecodedAt, IsNumeral, DecimalIntAt, Spelled, Stands, Find;
    StartsWith(s, at, [61] + (numeral + [127]));
    StandsApart(s, at, [61], numeral + [127]);
    CodeMeans(s, at, depth, mode);
    NumeralIsFound(s, at + 1, numeral);
    DecimalAt(s, at, numeral);
  }

  lemma PrefixedAt(s: bytes, at: nat, length: bytes, raw: bytes, mode: StringMode)
    requires 1 <= |length| <= 20 && AllDigits(length) && Number(length) == |raw| <= 67_108_864
    requires Stands(s, at, length + ([58] + raw))
    ensures at < |s| && IsDigit(s[at])
    ensures PrefixedStringAt(s, at, mode) == Ok((Text(raw, mode), at + |length| + 1 + |raw|))
  {
    hide Number, Find, Stands, PrefixedStringAt, Text;
    PrefixedApart(s, at, length, raw);
    assert s[at] == s[at..at + |length|][0] == length[0];
    hide AllDigits;
    LengthThenRaw(s, at, at + |length|, mode);
  }

  lemma LengthThenRaw(s: bytes, at: nat, colon: nat, mode: StringMode)
    requires at <= colon < |s| && colon - at <= 20 && Find(58, s, at) == Just(colon)
    requires s[at..colon] != [] && AllDigits(s[at..colon]) && Number(s[at..colon]) <= 67_108_864
    requires colon + 1 + Number(s[at..colon]) <= |s|
    ensures var next := colon + 1 + Number(s[at..colon]);
            PrefixedStringAt(s, at, mode) == Ok((Text(s[colon + 1..next], mode), next))
  {
    hide Number, AllDigits, Find, IsUtf8;
  }

  lemma PrefixedReads(s: bytes, at: nat, length: bytes, raw: bytes, depth: nat, mode: StringMode)
    requires Proper(Prefixed(length, raw), depth) && Stands(s, at, length + ([58] + raw))
    ensures DecodedAt(s, at, depth, mode) == Ok((Text(raw, mode), at + |length| + 1 + |raw|))
  {
    hide DecodedAt, Number, PrefixedStringAt, Stands, Text;
    PrefixedAt(s, at, length, raw, mode);
    CodeMeans(s, at, depth, mode);
  }

  /** Every proper form, wherever it lies, is read as what it means, to its last byte. */
  lemma {:induction false} FormIsRead(s: bytes, at: nat, f: Form, depth: nat, mode: StringMode)
    requires Proper(f, depth) && Stands(s, at, Wire(f))
    ensures DecodedAt(s, at, depth, mode) == Ok((Meaning(f, mode), at + |Wire(f)|))
    decreases f, 1
  {
    hide DecodedAt, WireAll, Meanings, Paired, Text, Stands, Find, Number, Spelled;
    match f
    case Plain(code) =>
      StartsWith(s, at, [code]);
      CodeMeans(s, at, depth, mode);
    case Fixed(code, raw) => FixedReads(s, at, code, raw, depth, mode);
    case Decimal(numeral) => DecimalReads(s, at, numeral, depth, mode);
    case Prefixed(length, raw) => PrefixedReads(s, at, length, raw, depth, mode);
    case Counted(code, parts) => CountedIsRead(s, at, code, parts, depth, mode);
    case Open(code, parts) => OpenIsRead(s, at, code, parts, depth, mode);
  }

  lemma {:induction false} CountedIsRead(s: bytes, at: nat, code: byte, parts: seq<Form>, depth: nat, mode: StringMode)
    requires Proper(Counted(code, parts), depth) && Stands(s, at, [code] + WireAll(parts))
    ensures (DecodedAt(s, at, depth, mode)
             == Ok((Meaning(Counted(code, parts), mode), at + 1 + |WireAll(parts)|)))
    decreases parts, 1
  {
    hide DecodedAt, ItemsAt, EntriesAt, WireAll, Meanings, Paired, Stands;
    StartsWith(s, at, [code] + WireAll(parts));
    StandsApart(s, at, [code], WireAll(parts));
    CodeMeans(s, at, depth, mode);
    if code >= 192 {
      ItemsAreRead(s, at + 1, parts, depth + 1, mode, []);
      assert [] + Meanings(parts, mode) == Meanings(parts, mode);
    } else {
      EntriesAreRead(s, at + 1, parts, depth + 1, mode, []);
      assert [] + Paired(Meanings(parts, mode)) == Paired(Meanings(parts, mode));
    }
  }

  lemma {:induction false} OpenIsRead(s: bytes, at: nat, code: byte, parts: seq<Form>, depth: nat, mode: StringMode)
    requires Proper(Open(code, parts), depth) && Stands(s, at, [code] + (WireAll(parts) + [127]))
    ensures (DecodedAt(s, at, depth, mode)
             == Ok((Meaning(Open(code, parts), mode), at + 2 + |WireAll(parts)|)))
    decreases parts, 1
  {
    hide DecodedAt, OpenItemsAt, OpenEntriesAt, WireAll, Meanings, Paired, Stands;
    StartsWith(s, at, [code] + (WireAll(parts) + [127]));
    StandsApart(s, at, [code], WireAll(parts) + [127]);
    CodeMeans(s, at, depth, mode);
    if code == 59 {
      OpenItemsAreRead(s, at + 1, parts, depth + 1, mode, at, []);
      assert [] + Meanings(parts, mode) == Meanings(parts, mode);
    } else {
      OpenEntriesAreRead(s, at + 1, parts, depth + 1, mode, at, []);
      assert [] + Paired(Meanings(parts, mode)) == Paired(Meanings(parts, mode));
    }
  }

  lemma {:induction false} ItemsAreRead(
    s: bytes, at: nat, parts: seq<Form>, depth: nat, mode: StringMode, read: seq<Value>)
    requires Stands(s, at, WireAll(parts)) && forall i | 0 <= i < |parts| :: Proper(parts[i], depth)
    ensures (ItemsAt(s, at, depth, mode, |parts|, read)
             == Ok((List(read + Meanings(parts, mode)), at + |WireAll(parts)|)))
    decreases parts, 0
  {
    hide DecodedAt, Proper, Wire, Meaning;
    if parts == [] {
      assert read + [] == read;
    } else {
      var first := Wire(parts[0]);
      StandsApart(s, at, first, WireAll(parts[1..]));
      FormIsRead(s, at, parts[0], depth, mode);
      ItemsAreRead(s, at + |first|, parts[1..], depth, mode, read + [Meaning(parts[0], mode)]);
      Regrouped(read, [Meaning(parts[0], mode)], Meanings(parts[1..], mode));
    }
  }

  lemma {:induction false} OpenItemsAreRead(
    s: bytes, at: nat, parts: seq<Form>, depth: nat, mode: StringMode, start: nat, read: seq<Value>)
    requires Stands(s, at, WireAll(parts) + [127]) && forall i | 0 <= i < |parts| :: Proper(parts[i], depth)
    ensures (OpenItemsAt(s, at, depth, mode, start, read)
             == Ok((List(read + Meanings(parts, mode)), at + |WireAll(parts)| + 1)))
    decreases parts, 0
  {
    hide DecodedAt, Proper, Wire, Meaning, WireAll, Meanings, Stands, OpenItemsAt;
    if parts == [] {
      NoOpenItems(s, at, depth, mode, start, read);
    } else {
      var first, rest := Wire(parts[0]), WireAll(parts[1..]);
      PartFirst(parts, mode);
      Regrouped(first, rest, [127]);
      StandsApart(s, at, first, rest + [127]);
      StartsWith(s, at, first);
      NeverATerminator(parts[0], depth);
      FormIsRead(s, at, parts[0], depth, mode);
      OpenItemsStep(s, at, depth, mode, start, read, Meaning(parts[0], mode), at + |first|);
      OpenItemsAreRead(s, at + |first|, parts[1..], depth, mode, start, read + [Meaning(parts[0], mode)]);
      Regrouped(read, [Meaning(parts[0], mode)], Meanings(parts[1..], mode));
    }
  }

  lemma PartFirst(parts: seq<Form>, mode: StringMode)
    requires parts != []
    ensures WireAll(parts) == Wire(parts[0]) + WireAll(parts[1..])
    ensures Meanings(parts, mode) == [Meaning(parts[0], mode)] + Meanings(parts[1..], mode)
  {
    hide Wire, Meaning;
  }

  lemma NoOpenItems(s: bytes, at: nat, depth: nat, mode: StringMode, start: nat, read: seq<Value>)
    requires Stands(s, at, WireAll([]) + [127])
    ensures at <= |s|
    ensures (OpenItemsAt(s, at, depth, mode, start, read)
             == Ok((List(read + Meanings([], mode)), at + |WireAll([])| + 1)))
  {
    assert read + [] == read && [] + [127] == [127];
    StartsWith(s, at, [127]);
  }

  lemma NeverATerminator(f: Form, depth: nat)
    requires Proper(f, depth)
    ensures Wire(f)[0] != 127
  {
    assert f.Prefixed? ==> IsDigit(f.length[0]);
  }

  /** A key and a value in front of the rest of a dictionary. */
  lemma PairFirst(parts: seq<Form>, mode: StringMode)
    requires |parts| >= 2
    ensures WireAll(parts) == Wire(parts[0]) + (Wire(parts[1]) + WireAll(parts[2..]))
    ensures (Paired(Meanings(parts, mode))
             == [Entry(Meaning(parts[0], mode), Meaning(parts[1], mode))] + Paired(Meanings(parts[2..], mode)))
  {
    hide Wire, Meaning;
    assert parts[1..][1..] == parts[2..];
    var values := Meanings(parts, mode);
    assert values[2..] == Meanings(parts[2..], mode);
  }

  lemma PairIsRead(s: bytes, at: nat, parts: seq<Form>, behind: bytes, depth: nat)
    requires |parts| >= 2 && Stands(s, at, WireAll(parts) + behind)
    requires Proper(parts[0], depth) && Proper(parts[1], depth)
    ensures var middle := at + |Wire(parts[0])|;
            var next := middle + |Wire(parts[1])|;
            && at < |s| && s[at] != 127 && middle < |s| && s[middle] != 127
            && Stands(s, at, Wire(parts[0])) && Stands(s, middle, Wire(parts[1]))
            && Stands(s, next, WireAll(parts[2..]) + behind)
            && |WireAll(parts)| == |Wire(parts[0])| + |Wire(parts[1])| + |WireAll(parts[2..])|
  {
    hide Proper, Wire, WireAll, Stands;
    var first, second, rest := Wire(parts[0]), Wire(parts[1]), WireAll(parts[2..]);
    PairFirst(parts, Raw);
    Regrouped(first, second + rest, behind);
    Regrouped(second, rest, behind);
    StandsApart(s, at, first, second + (rest + behind));
    StandsApart(s, at + |first|, second, rest + behind);
    StartsWith(s, at, first);
    StartsWith(s, at + |first|, second);
    NeverATerminator(parts[0], depth);
    NeverATerminator(parts[1], depth);
  }

  lemma EntriesStep(
    s: bytes, at: nat, depth: nat, mode: StringMode, count: nat, read: seq<Entry>, entry: Entry, middle: nat, next: nat)
    requires at <= |s| && count > 0 && DecodedAt(s, at, depth, mode) == Ok((entry.key, middle))
    requires middle <= |s| && DecodedAt(s, middle, depth, mode) == Ok((entry.value, next))
    ensures EntriesAt(s, at, depth, mode, count, read) == EntriesAt(s, next, depth, mode, count - 1, read + [entry])
  {
    hide DecodedAt;
  }

  lemma {:induction false} EntriesAreRead(
    s: bytes, at: nat, parts: seq<Form>, depth: nat, mode: StringMode, read: seq<Entry>)
    requires Stands(s, at, WireAll(parts)) && |parts| % 2 == 0
    requires forall i | 0 <= i < |parts| :: Proper(parts[i], depth)
    ensures (EntriesAt(s, at, depth, mode, |parts| / 2, read)
             == Ok((Dict(read + Paired(Meanings(parts, mode))), at + |WireAll(parts)|)))
    decreases parts, 0
  {
    hide *;
    assert WireAll(parts) + [] == WireAll(parts);
    if parts == [] {
      NoEntries(s, at, depth, mode, read);
    } else {
      PairIsRead(s, at, parts, [], depth);
      PairFirst(parts, mode);
      var entry := Entry(Meaning(parts[0], mode), Meaning(parts[1], mode));
      var middle := at + |Wire(parts[0])|;
      var next := middle + |Wire(parts[1])|;
      FormIsRead(s, at, parts[0], depth, mode);
      FormIsRead(s, middle, parts[1], depth, mode);
      EntriesStep(s, at, depth, mode, |parts| / 2, read, entry, middle, next);
      assert WireAll(parts[2..]) + [] == WireAll(parts[2..]);
      EntriesAreRead(s, next, parts[2..], depth, mode, read + [entry]);
      Regrouped(read, [entry], Paired(Meanings(parts[2..], mode)));
    }
  }

  lemma NoEntries(s: bytes, at: nat, depth: nat, mode: StringMode, read: seq<Entry>)
    requires Stands(s, at, WireAll([]))
    ensures at <= |s| && EntriesAt(s, at, depth, mode, 0, read) == Ok((Dict(read + Paired(Meanings([], mode))), at + |WireAll([])|))
  {
    assert read + [] == read;
  }

  lemma NoOpenEntries(s: bytes, at: nat, depth: nat, mode: StringMode, start: nat, read: seq<Entry>)
    requires Stands(s, at, WireAll([]) + [127])
    ensures at <= |s|
    ensures (OpenEntriesAt(s, at, depth, mode, start, read)
             == Ok((Dict(read + Paired(Meanings([], mode))), at + |WireAll([])| + 1)))
  {
    assert read + [] == read && [] + [127] == [127];
    OpenEntriesDone(s, at, depth, mode, start, read);
  }

  lemma {:induction false} OpenEntriesAreRead(
    s: bytes, at: nat, parts: seq<Form>, depth: nat, mode: StringMode, start: nat, read: seq<Entry>)
    requires Stands(s, at, WireAll(parts) + [127]) && |parts| % 2 == 0
    requires forall i | 0 <= i < |parts| :: Proper(parts[i], depth)
    ensures (OpenEntriesAt(s, at, depth, mode, start, read)
             == Ok((Dict(read + Paired(Meanings(parts, mode))), at + |WireAll(parts)| + 1)))
    decreases parts, 0
  {
    hide DecodedAt, Proper, Wire, WireAll, Meaning, Meanings, Paired, Stands, OpenEntriesAt;
    if parts == [] {
      NoOpenEntries(s, at, depth, mode, start, read);
    } else {
      PairIsRead(s, at, parts, [127], depth);
      PairFirst(parts, mode);
      var entry := Entry(Meaning(parts[0], mode), Meaning(parts[1], mode));
      var middle := at + |Wire(parts[0])|;
      var next := middle + |Wire(parts[1])|;
      FormIsRead(s, at, parts[0], depth, mode);
      FormIsRead(s, middle, parts[1], depth, mode);
      OpenEntriesStep(s, at, depth, mode, start, read, entry, middle, next);
      OpenEntriesAreRead(s, next, parts[2..], depth, mode, start, read + [entry]);
      Regrouped(read, [entry], Paired(Meanings(parts[2..], mode)));
    }
  }

  // ------------------------------------------------ nothing else is read

  /** A form of what was read between two offsets. */
  ghost predicate IsForm(f: Form, s: bytes, at: nat, next: nat, depth: nat) {
    at <= next <= |s| && Proper(f, depth) && Wire(f) == s[at..next]
  }

  ghost predicate AreForms(parts: seq<Form>, s: bytes, at: nat, next: nat, depth: nat) {
    at <= next <= |s| && (forall i | 0 <= i < |parts| :: Proper(parts[i], depth)) && WireAll(parts) == s[at..next]
  }

  lemma FixedForm(s: bytes, at: nat, depth: nat, mode: StringMode, width: nat) returns (f: Form)
    requires at < |s| && depth <= 64 && DecodedAt(s, at, depth, mode).Ok?
    requires (s[at] == 62 && width == 1) || (s[at] == 63 && width == 2) || (s[at] == 64 && width == 4)
          || (s[at] == 65 && width == 8) || (s[at] == 66 && width == 4) || (s[at] == 44 && width == 8)
          || (128 <= s[at] < 192 && width == s[at] - 128)
    ensures var (v, next) := DecodedAt(s, at, depth, mode).value; Meaning(f, mode) == v && IsForm(f, s, at, next, depth)
  {
    hide DecodedAt, SignedAt, Whole, Text, IsForm;
    if 62 <= s[at] <= 65 {
      CodeMeans(s, at, depth, mode);
      SignedHasRoom(s, at, width);
      SignedReads(s, at, s[at + 1..at + 1 + width]);
    } else {
      RawMeans(s, at, depth, mode);
    }
    f := Fixed(s[at], s[at + 1..at + 1 + width]);
    FixedIsForm(s, at, depth, width);
  }

  lemma FixedIsForm(s: bytes, at: nat, depth: nat, width: nat)
    requires at + 1 + width <= |s| && Proper(Fixed(s[at], s[at + 1..at + 1 + width]), depth)
    ensures IsForm(Fixed(s[at], s[at + 1..at + 1 + width]), s, at, at + 1 + width, depth)
  {
    assert s[at..at + 1 + width] == [s[at]] + s[at + 1..at + 1 + width];
    hide Proper;
  }

  lemma SignedHasRoom(s: bytes, at: nat, width: nat)
    requires at < |s| && (width == 1 || width == 2 || width == 4 || width == 8) && SignedAt(s, at, width).Ok?
    ensures at + 1 + width <= |s|
  {
  }

  lemma DecimalForm(s: bytes, at: nat, depth: nat, mode: StringMode) returns (f: Form)
    requires at < |s| && depth <= 64 && s[at] == 61 && DecimalIntAt(s, at).Ok?
    ensures var (v, next) := DecimalIntAt(s, at).value; Meaning(f, mode) == v && IsForm(f, s, at, next, depth)
  {
    hide IsNumeral, IsCanonicalInt, IntOf, Spelled;
    var end := Find(127, s, at + 1).value;
    var numeral := s[at + 1..end];
    NumeralIsCanonical(numeral);
    assert s[at..end + 1] == [61] + (numeral + [127]);
    f := Decimal(numeral);
  }

  lemma PrefixedForm(s: bytes, at: nat, depth: nat, mode: StringMode) returns (f: Form)
    requires at < |s| && depth <= 64 && PrefixedStringAt(s, at, mode).Ok?
    ensures var (v, next) := PrefixedStringAt(s, at, mode).value; Meaning(f, mode) == v && IsForm(f, s, at, next, depth)
  {
    hide Number, AllDigits, IsUtf8;
    var colon := Find(58, s, at).value;
    var length := s[at..colon];
    var next := colon + 1 + Number(length);
    var raw := s[colon + 1..next];
    f := Prefixed(length, raw);
    hide PrefixedStringAt, Proper;
    assert s[at..next] == length + ([58] + raw) by {
      CutAtColon(s, at, colon, next);
    }
  }

  lemma CutAtColon(s: bytes, at: nat, colon: nat, next: nat)
    requires at <= colon < next <= |s| && s[colon] == 58
    ensures s[at..next] == s[at..colon] + ([58] + s[colon + 1..next])
  {
  }

  lemma CodeThenParts(f: Form, s: bytes, at: nat, next: nat, depth: nat)
    requires f.Counted? && at < next && AreForms(f.parts, s, at + 1, next, depth + 1) && s[at] == f.code
    requires depth <= 64
    requires (192 <= f.code && |f.parts| == f.code - 192) || (102 <= f.code <= 126 && |f.parts| == 2 * (f.code - 102))
    ensures IsForm(f, s, at, next, depth)
  {
    assert s[at..next] == [s[at]] + s[at + 1..next];
    hide WireAll;
  }

  lemma CodePartsTerminator(f: Form, s: bytes, at: nat, next: nat, depth: nat)
    requires f.Open? && at < next && AreForms(f.parts, s, at + 1, next, depth + 1) && s[at] == f.code
    requires depth <= 64 && next < |s| && s[next] == 127 && (f.code == 59 || (f.code == 60 && |f.parts| % 2 == 0))
    ensures IsForm(f, s, at, next + 1, depth)
  {
    assert s[at..next + 1] == [s[at]] + (s[at + 1..next] + [127]);
    hide WireAll;
  }

  /** Whatever is read, anywhere in a message, is a proper form, and read as what that means. */
  lemma {:induction false} ReadIsForm(s: bytes, at: nat, depth: nat, mode: StringMode) returns (f: Form)
    requires at <= |s| && DecodedAt(s, at, depth, mode).Ok?
    ensures var (v, next) := DecodedAt(s, at, depth, mode).value; Meaning(f, mode) == v && IsForm(f, s, at, next, depth)
    decreases |s| - at, 0
  {
    TooDeepIsRefused(s, at, depth, mode);
    hide *;
    var code := s[at];
    CodeMeans(s, at, depth, mode);
    if code < 44 || 67 <= code <= 101 {
      f := PlainForm(s, at, depth);
    } else if code >= 192 {
      f := ListForm(s, at, depth, mode);
    } else if 102 <= code <= 126 {
      f := DictForm(s, at, depth, mode);
    } else if code == 59 {
      f := OpenListForm(s, at, depth, mode);
    } else if code == 60 {
      f := OpenDictForm(s, at, depth, mode);
    } else if code == 61 {
      f := DecimalForm(s, at, depth, mode);
    } else if 48 <= code <= 57 {
      f := PrefixedForm(s, at, depth, mode);
    } else if code == 62 {
      f := FixedForm(s, at, depth, mode, 1);
    } else if code == 63 {
      f := FixedForm(s, at, depth, mode, 2);
    } else if code == 64 || code == 66 {
      f := FixedForm(s, at, depth, mode, 4);
    } else if code == 65 || code == 44 {
      f := FixedForm(s, at, depth, mode, 8);
    } else {
      f := FixedForm(s, at, depth, mode, code - 128);
    }
  }

  lemma PlainForm(s: bytes, at: nat, depth: nat) returns (f: Form)
    requires at < |s| && depth <= 64 && (s[at] < 44 || 67 <= s[at] <= 101)
    ensures f == Plain(s[at]) && IsForm(f, s, at, at + 1, depth)
  {
    f := Plain(s[at]);
    assert s[at..at + 1] == [s[at]];
  }

  lemma {:induction false} ListForm(s: bytes, at: nat, depth: nat, mode: StringMode) returns (f: Form)
    requires at < |s| && depth <= 64 && s[at] >= 192 && ItemsAt(s, at + 1, depth + 1, mode, s[at] - 192, []).Ok?
    ensures var (v, next) := ItemsAt(s, at + 1, depth + 1, mode, s[at] - 192, []).value;
            Meaning(f, mode) == v && IsForm(f, s, at, next, depth)
    decreases |s| - at - 1, 2
  {
    hide ItemsAt, WireAll, Meanings, IsForm, AreForms;
    var parts := ItemsAreForms(s, at + 1, depth + 1, mode, s[at] - 192, []);
    f := Counted(s[at], parts);
    assert [] + Meanings(parts, mode) == Meanings(parts, mode);
    CodeThenParts(f, s, at, ItemsAt(s, at + 1, depth + 1, mode, s[at] - 192, []).value.1, depth);
  }

  lemma {:induction false} DictForm(s: bytes, at: nat, depth: nat, mode: StringMode) returns (f: Form)
    requires at < |s| && depth <= 64 && 102 <= s[at] <= 126 && EntriesAt(s, at + 1, depth + 1, mode, s[at] - 102, []).Ok?
    ensures var (v, next) := EntriesAt(s, at + 1, depth + 1, mode, s[at] - 102, []).value;
            Meaning(f, mode) == v && IsForm(f, s, at, next, depth)
    decreases |s| - at - 1, 2
  {
    hide EntriesAt, WireAll, Meanings, Paired, IsForm, AreForms;
    var parts := EntriesAreForms(s, at + 1, depth + 1, mode, s[at] - 102, []);
    f := Counted(s[at], parts);
    assert [] + Paired(Meanings(parts, mode)) == Paired(Meanings(parts, mode));
    CodeThenParts(f, s, at, EntriesAt(s, at + 1, depth + 1, mode, s[at] - 102, []).value.1, depth);
  }

  lemma {:induction false} OpenListForm(s: bytes, at: nat, depth: nat, mode: StringMode) returns (f: Form)
    requires at < |s| && depth <= 64 && s[at] == 59 && OpenItemsAt(s, at + 1, depth + 1, mode, at, []).Ok?
    ensures var (v, next) := OpenItemsAt(s, at + 1, depth + 1, mode, at, []).value;
            Meaning(f, mode) == v && IsForm(f, s, at, next, depth)
    decreases |s| - at - 1, 2
  {
    hide OpenItemsAt, WireAll, Meanings, IsForm, AreForms;
    var parts := OpenItemsAreForms(s, at + 1, depth + 1, mode, at, []);
    f := Open(59, parts);
    assert [] + Meanings(parts, mode) == Meanings(parts, mode);
    CodePartsTerminator(f, s, at, OpenItemsAt(s, at + 1, depth + 1, mode, at, []).value.1 - 1, depth);
  }

  lemma {:induction false} OpenDictForm(s: bytes, at: nat, depth: nat, mode: StringMode) returns (f: Form)
    requires at < |s| && depth <= 64 && s[at] == 60 && OpenEntriesAt(s, at + 1, depth + 1, mode, at, []).Ok?
    ensures var (v, next) := OpenEntriesAt(s, at + 1, depth + 1, mode, at, []).value;
            Meaning(f, mode) == v && IsForm(f, s, at, next, depth)
    decreases |s| - at - 1, 2
  {
    hide OpenEntriesAt, WireAll, Meanings, Paired, IsForm, AreForms;
    var parts := OpenEntriesAreForms(s, at + 1, depth + 1, mode, at, []);
    f := Open(60, parts);
    assert [] + Paired(Meanings(parts, mode)) == Paired(Meanings(parts, mode));
    CodePartsTerminator(f, s, at, OpenEntriesAt(s, at + 1, depth + 1, mode, at, []).value.1 - 1, depth);
  }

  lemma OneMoreForm(first: Form, parts: seq<Form>, s: bytes, at: nat, middle: nat, next: nat, depth: nat)
    requires IsForm(first, s, at, middle, depth) && AreForms(parts, s, middle, next, depth)
    ensures AreForms([first] + parts, s, at, next, depth)
  {
    hide Wire, Proper;
    assert ([first] + parts)[1..] == parts;
    assert s[at..next] == s[at..middle] + s[middle..next];
  }

  lemma NoForms(s: bytes, at: nat, depth: nat)
    requires at <= |s|
    ensures AreForms([], s, at, at, depth)
  {
  }

  lemma MeaningsFirst(first: Form, parts: seq<Form>, mode: StringMode)
    ensures Meanings([first] + parts, mode) == [Meaning(first, mode)] + Meanings(parts, mode)
  {
    assert ([first] + parts)[1..] == parts;
    hide Meaning;
  }

  lemma {:induction false} ItemsAreForms(s: bytes, at: nat, depth: nat, mode: StringMode, count: nat, read: seq<Value>)
    returns (parts: seq<Form>)
    requires at <= |s| && ItemsAt(s, at, depth, mode, count, read).Ok?
    ensures var (v, next) := ItemsAt(s, at, depth, mode, count, read).value;
            v == List(read + Meanings(parts, mode)) && |parts| == count && AreForms(parts, s, at, next, depth)
    decreases |s| - at, 1
  {
    hide DecodedAt, IsForm, AreForms, Meaning;
    if count == 0 {
      parts := [];
      assert read + [] == read;
      NoForms(s, at, depth);
    } else {
      var (item, middle) := DecodedAt(s, at, depth, mode).value;
      var first := ReadIsForm(s, at, depth, mode);
      var rest := ItemsAreForms(s, middle, depth, mode, count - 1, read + [item]);
      parts := [first] + rest;
      MeaningsFirst(first, rest, mode);
      hide Meanings;
      Regrouped(read, [item], Meanings(rest, mode));
      OneMoreForm(first, rest, s, at, middle, ItemsAt(s, at, depth, mode, count, read).value.1, depth);
    }
  }

  lemma {:induction false} OpenItemsAreForms(s: bytes, at: nat, depth: nat, mode: StringMode, start: nat, read: seq<Value>)
    returns (parts: seq<Form>)
    requires at <= |s| && OpenItemsAt(s, at, depth, mode, start, read).Ok?
    ensures var (v, next) := OpenItemsAt(s, at, depth, mode, start, read).value;
            v == List(read + Meanings(parts, mode)) && s[next - 1] == 127 && AreForms(parts, s, at, next - 1, depth)
    decreases |s| - at, 1
  {
    hide DecodedAt, IsForm, AreForms, Meaning;
    if s[at] == 127 {
      parts := [];
      assert read + [] == read;
      NoForms(s, at, depth);
    } else {
      var (item, middle) := DecodedAt(s, at, depth, mode).value;
      var first := ReadIsForm(s, at, depth, mode);
      var rest := OpenItemsAreForms(s, middle, depth, mode, start, read + [item]);
      parts := [first] + rest;
      MeaningsFirst(first, rest, mode);
      hide Meanings;
      Regrouped(read, [item], Meanings(rest, mode));
      OneMoreForm(first, rest, s, at, middle, OpenItemsAt(s, at, depth, mode, start, read).value.1 - 1, depth);
    }
  }

  lemma OneMorePair(
    key: Form, value: Form, parts: seq<Form>, s: bytes, at: nat, middle: nat, behind: nat, next: nat, depth: nat, mode: StringMode)
    requires IsForm(key, s, at, middle, depth) && IsForm(value, s, middle, behind, depth)
    requires AreForms(parts, s, behind, next, depth)
    ensures AreForms([key, value] + parts, s, at, next, depth)
    ensures (Paired(Meanings([key, value] + parts, mode))
             == [Entry(Meaning(key, mode), Meaning(value, mode))] + Paired(Meanings(parts, mode)))
  {
    hide IsForm, AreForms, Meaning;
    assert [key] + ([value] + parts) == [key, value] + parts;
    OneMoreForm(value, parts, s, middle, behind, next, depth);
    OneMoreForm(key, [value] + parts, s, at, middle, next, depth);
    assert ([key, value] + parts)[2..] == parts;
    PairFirst([key, value] + parts, mode);
  }

  lemma {:induction false} EntriesAreForms(s: bytes, at: nat, depth: nat, mode: StringMode, count: nat, read: seq<Entry>)
    returns (parts: seq<Form>)
    requires at <= |s| && EntriesAt(s, at, depth, mode, count, read).Ok?
    ensures var (v, next) := EntriesAt(s, at, depth, mode, count, read).value;
            v == Dict(read + Paired(Meanings(parts, mode))) && |parts| == 2 * count && AreForms(parts, s, at, next, depth)
    decreases |s| - at, 1
  {
    hide DecodedAt, IsForm, AreForms, Meaning;
    if count == 0 {
      parts := [];
      assert read + [] == read;
      NoForms(s, at, depth);
    } else {
      hide Meanings, Paired;
      var (key, middle) := DecodedAt(s, at, depth, mode).value;
      var (value, behind) := DecodedAt(s, middle, depth, mode).value;
      var first := ReadIsForm(s, at, depth, mode);
      var second := ReadIsForm(s, middle, depth, mode);
      var rest := EntriesAreForms(s, behind, depth, mode, count - 1, read + [Entry(key, value)]);
      parts := [first, second] + rest;
      Regrouped(read, [Entry(key, value)], Paired(Meanings(rest, mode)));
      OneMorePair(first, second, rest, s, at, middle, behind, EntriesAt(s, at, depth, mode, count, read).value.1, depth, mode);
    }
  }

  lemma {:induction false} OpenEntriesAreForms(
    s: bytes, at: nat, depth: nat, mode: StringMode, start: nat, read: seq<Entry>) returns (parts: seq<Form>)
    requires at <= |s| && OpenEntriesAt(s, at, depth, mode, start, read).Ok?
    ensures var (v, next) := OpenEntriesAt(s, at, depth, mode, start, read).value;
            && v == Dict(read + Paired(Meanings(parts, mode))) && |parts| % 2 == 0
            && s[next - 1] == 127 && AreForms(parts, s, at, next - 1, depth)
    decreases |s| - at, 1
  {
    hide DecodedAt, IsForm, AreForms, Meaning;
    if s[at] == 127 {
      parts := [];
      assert read + [] == read;
      NoForms(s, at, depth);
    } else {
      hide Meanings, Paired;
      var (key, middle) := DecodedAt(s, at, depth, mode).value;
      var (value, behind) := DecodedAt(s, middle, depth, mode).value;
      var first := ReadIsForm(s, at, depth, mode);
      var second := ReadIsForm(s, middle, depth, mode);
      var rest := OpenEntriesAreForms(s, behind, depth, mode, start, read + [Entry(key, value)]);
      parts := [first, second] + rest;
      Regrouped(read, [Entry(key, value)], Paired(Meanings(rest, mode)));
      OneMorePair(first, second, rest, s, at, middle, behind, OpenEntriesAt(s, at, depth, mode, start, read).value.1 - 1, depth, mode);
    }
  }

  // ------------------------------------------------------------ main result

  /** The decoder's language and what it means: the proper forms, and nothing else. */
  lemma DecodedIff(s: bytes, mode: StringMode, v: Value)
    ensures Decoded(s, mode) == Ok(v) <==> exists f :: Proper(f, 0) && Wire(f) == s && Meaning(f, mode) == v
  {
    hide DecodedAt, Proper, Wire, Meaning;
    if Decoded(s, mode) == Ok(v) {
      var f := ReadIsForm(s, 0, 0, mode);
      assert s[0..|s|] == s;
    }
    forall f | Proper(f, 0) && Wire(f) == s && Meaning(f, mode) == v
      ensures Decoded(s, mode) == Ok(v)
    {
      FormIsRead(s, 0, f, 0, mode);
    }
  }
}
