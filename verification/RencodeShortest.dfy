/**
 What the decoder accepts, and how it compares with what the encoder writes: every accepted
 value is a carried one, and the encoder's form of it is strictly shorter than any other
 bytes the decoder takes for it.
 */
module RencodeShortest {
  import opened Bytes
  import opened RencodeValue
  import opened RencodeEncode
  import opened RencodeDecode
  import opened RencodeWire
  import opened RencodeLaws

  /** `e` is at most as long as `s`, and as long only when it is the same bytes. */
  predicate Shortest(e: bytes, s: bytes) {
    |e| <= |s| && (|e| == |s| ==> e == s)
  }

  lemma ShortestJoins(a: bytes, b: bytes, s: bytes, t: bytes)
    requires Shortest(a, s) && Shortest(b, t)
    ensures Shortest(a + b, s + t)
  {
  }

  /** What a form on the wire promises about the value it means. */
  ghost predicate Faithful(v: Value, s: bytes, depth: nat, mode: StringMode) {
    && Carried(v, mode, depth)
    && Shortest(Encoded(v), s)
    && Nodes(v) <= |s|
  }

  // ------------------------------------------------------------------ leaves

  lemma Pow10Grows(low: nat, high: nat)
    requires low <= high
    ensures Pow10(low) <= Pow10(high)
  {
    if low < high {
      Pow10Grows(low, high - 1);
    }
  }

  function CodeOf(width: nat): byte {
    if width == 1 then CHR_INT1 else if width == 2 then CHR_INT2 else if width == 4 then CHR_INT4 else CHR_INT8
  }

  lemma CodesOfWidths()
    ensures CodeOf(1) == 62 && CodeOf(2) == 63 && CodeOf(4) == 64 && CodeOf(8) == 65
  {
  }

  /** Bytes read as an integer are the bytes that integer is written in, at their width. */
  lemma SignedIsWrittenBack(raw: bytes)
    requires |raw| == 1 || |raw| == 2 || |raw| == 4 || |raw| == 8
    ensures var number := FromSigned(raw);
            0 - Pow256(|raw|) <= 2 * number < Pow256(|raw|) && Signed(number, |raw|) == raw
  {
    FromBigEndianInverts(raw);
    hide FromBigEndian, BigEndian;
  }

  /** An integer is written in fewer bytes than a width that holds it, or in just that width. */
  lemma NoWiderThanItsWidth(number: i64, width: nat)
    requires width == 1 || width == 2 || width == 4 || width == 8
    requires 0 - Pow256(width) <= 2 * number < Pow256(width)
    ensures |EncodedInt(number)| < 1 + width || EncodedInt(number) == [CodeOf(width)] + Signed(number, width)
  {
    Pow256Values();
    hide Pow256, Signed;
  }

  /** A fixed-width integer is written back in its own bytes or in fewer. */
  lemma WideShortest(code: byte, raw: bytes, depth: nat, mode: StringMode)
    requires Proper(Fixed(code, raw), depth) && 62 <= code <= 65
    ensures Faithful(Int(Whole(raw)), [code] + raw, depth, mode)
  {
    hide FromSigned, Signed, EncodedInt, Pow256, Whole, CodeOf;
    WholeIsSigned(raw);
    SignedIsWrittenBack(raw);
    CodesOfWidths();
    NoWiderThanItsWidth(Whole(raw), |raw|);
  }

  /** A number that needs a wider form has more digits than the form has bytes to spare. */
  lemma BinaryIsShorter(number: i64, digits: bytes)
    requires IsCanonicalInt(digits) && IntOf(digits) == number
    ensures |EncodedInt(number)| < |digits| + 2
  {
    hide Number, BigEndian;
    var body := if digits[0] == MINUS then digits[1..] else digits;
    NumberBound(body);
    assert Pow10(1) == 10 && Pow10(3) == 1000;
    assert Pow10(7) == 1000 * Pow10(4);
    if |body| <= 1 {
      Pow10Grows(|body|, 1);
    } else if |body| <= 3 {
      Pow10Grows(|body|, 3);
    } else if |body| <= 7 {
      Pow10Grows(|body|, 7);
    }
  }

  /** A decimal integer of 64 bits or fewer always has a shorter binary form. */
  lemma DecimalShortest(numeral: bytes, depth: nat, mode: StringMode)
    requires Proper(Decimal(numeral), depth)
    ensures Faithful(Spelled(numeral), [61] + (numeral + [127]), depth, mode)
  {
    NumeralIsCanonical(numeral);
    hide EncodedInt, IsCanonicalInt, IntOf, IsNumeral, Spelled;
    Regrouped([61], numeral, [127]);
    if FitsI64(IntOf(numeral)) {
      BinaryIsShorter(IntOf(numeral), numeral);
    }
  }

  lemma StringShortest(s: bytes, raw: bytes, depth: nat, mode: StringMode)
    requires depth <= MAX_DEPTH && |raw| <= MAX_LENGTH && Shortest(EncodedString(raw), s)
    ensures Faithful(Text(raw, mode), s, depth, mode)
  {
    hide EncodedString;
    assert |s| >= |EncodedString(raw)| > 0;
  }

  lemma PrefixedShortest(length: bytes, raw: bytes, depth: nat, mode: StringMode)
    requires Proper(Prefixed(length, raw), depth)
    ensures Faithful(Text(raw, mode), length + ([58] + raw), depth, mode)
  {
    hide Text, Number, Digits;
    DigitsAreShortest(length);
    Regrouped(length, [58], raw);
    StringShortest(length + ([58] + raw), raw, depth, mode);
  }

  // -------------------------------------------------------------- containers

  /** Keys and values in turn, or pairs of them: the same bytes and as many values. */
  lemma {:induction false} PairedAlike(values: seq<Value>)
    requires |values| % 2 == 0
    ensures EncodedEntries(Paired(values)) == EncodedItems(values) && NodesOfDict(Paired(values)) == NodesOfList(values)
    ensures |Paired(values)| == |values| / 2
    ensures forall i | 0 <= i < |values| / 2 :: Paired(values)[i] == Entry(values[2 * i], values[2 * i + 1])
  {
    hide Encoded, Nodes;
    if values != [] {
      PairedAlike(values[2..]);
      var entries := Paired(values);
      assert values[1..][1..] == values[2..] && entries[1..] == Paired(values[2..]);
      EncodedItemsFront(values);
      EncodedItemsFront(values[1..]);
      EncodedEntriesFront(entries);
      assert NodesOfList(values) == Nodes(values[0]) + NodesOfList(values[1..]);
      assert NodesOfList(values[1..]) == Nodes(values[1]) + NodesOfList(values[2..]);
      assert NodesOfDict(entries) == Nodes(values[0]) + Nodes(values[1]) + NodesOfDict(entries[1..]);
      hide EncodedItems, EncodedEntries, NodesOfList, NodesOfDict, Paired;
      Regrouped(Encoded(values[0]), Encoded(values[1]), EncodedItems(values[2..]));
    }
  }

  /** A list, counted or terminated. */
  lemma ListShortest(items: seq<Value>, code: byte, wire: bytes, depth: nat, mode: StringMode)
    requires depth <= MAX_DEPTH && Shortest(EncodedItems(items), wire) && NodesOfList(items) <= |wire|
    requires forall i | 0 <= i < |items| :: Carried(items[i], mode, depth + 1)
    ensures 192 <= code && |items| == code - 192 ==> Faithful(List(items), [code] + wire, depth, mode)
    ensures Faithful(List(items), [59] + (wire + [127]), depth, mode)
  {
    hide EncodedItems, NodesOfList;
    Regrouped([59], EncodedItems(items), [127]);
  }

  lemma DictShortest(entries: seq<Entry>, code: byte, wire: bytes, depth: nat, mode: StringMode)
    requires depth <= MAX_DEPTH && Shortest(EncodedEntries(entries), wire) && NodesOfDict(entries) <= |wire|
    requires forall i | 0 <= i < |entries| ::
      Carried(entries[i].key, mode, depth + 1) && Carried(entries[i].value, mode, depth + 1)
    ensures 102 <= code <= 126 && |entries| == code - 102 ==> Faithful(Dict(entries), [code] + wire, depth, mode)
    ensures Faithful(Dict(entries), [60] + (wire + [127]), depth, mode)
  {
    hide EncodedEntries, NodesOfDict;
    Regrouped([60], EncodedEntries(entries), [127]);
  }

  /** What every proper form means is carried, written back shortest, and no bigger than its bytes. */
  lemma {:induction false} FormIsFaithful(f: Form, depth: nat, mode: StringMode)
    requires Proper(f, depth)
    ensures Faithful(Meaning(f, mode), Wire(f), depth, mode)
    decreases f, 1
  {
    hide Faithful, WireAll, Meanings, Paired, Text, Whole, Spelled, IsNumeral, Number;
    match f
    case Plain(code) => PlainShortest(code, depth, mode);
    case Fixed(code, raw) => FixedShortest(code, raw, depth, mode);
    case Decimal(numeral) => DecimalShortest(numeral, depth, mode);
    case Prefixed(length, raw) => PrefixedShortest(length, raw, depth, mode);
    case Counted(code, parts) => PartsShortest(code, parts, depth, mode);
    case Open(code, parts) => PartsShortest(code, parts, depth, mode);
  }

  lemma PlainShortest(code: byte, depth: nat, mode: StringMode)
    requires Proper(Plain(code), depth)
    ensures Faithful(Meaning(Plain(code), mode), [code], depth, mode)
  {
  }

  lemma FixedShortest(code: byte, raw: bytes, depth: nat, mode: StringMode)
    requires Proper(Fixed(code, raw), depth)
    ensures Faithful(Meaning(Fixed(code, raw), mode), [code] + raw, depth, mode)
  {
    hide Text, Whole;
    if 62 <= code <= 65 {
      WideShortest(code, raw, depth, mode);
    } else if code >= 128 {
      StringShortest([code] + raw, raw, depth, mode);
    }
  }

  lemma {:induction false} PartsShortest(code: byte, parts: seq<Form>, depth: nat, mode: StringMode)
    requires depth <= 64 && forall i | 0 <= i < |parts| :: Proper(parts[i], depth + 1)
    ensures var values, wire := Meanings(parts, mode), WireAll(parts);
            && (192 <= code && |parts| == code - 192 ==> Faithful(List(values), [code] + wire, depth, mode))
            && Faithful(List(values), [59] + (wire + [127]), depth, mode)
            && (102 <= code <= 126 && |parts| == 2 * (code - 102) ==> Faithful(Dict(Paired(values)), [code] + wire, depth, mode))
            && (|parts| % 2 == 0 ==> Faithful(Dict(Paired(values)), [60] + (wire + [127]), depth, mode))
    decreases parts, 1
  {
    hide Proper, Carried, Faithful, WireAll, Meanings, Paired, Shortest, EncodedItems, EncodedEntries, NodesOfList, NodesOfDict;
    var values := Meanings(parts, mode);
    PartsAreFaithful(parts, depth + 1, mode);
    ListShortest(values, code, WireAll(parts), depth, mode);
    if |parts| % 2 == 0 {
      PairedAlike(values);
      DictShortest(Paired(values), code, WireAll(parts), depth, mode);
    }
  }

  lemma {:induction false} PartsAreFaithful(parts: seq<Form>, depth: nat, mode: StringMode)
    requires forall i | 0 <= i < |parts| :: Proper(parts[i], depth)
    ensures var values, wire := Meanings(parts, mode), WireAll(parts);
            && (forall i | 0 <= i < |values| :: Carried(values[i], mode, depth))
            && Shortest(EncodedItems(values), wire) && NodesOfList(values) <= |wire|
    decreases parts, 0
  {
    hide Proper, Carried, Meaning, Wire, Encoded, Nodes;
    if parts != [] {
      FormIsFaithful(parts[0], depth, mode);
      PartsAreFaithful(parts[1..], depth, mode);
      var values := Meanings(parts, mode);
      assert values[1..] == Meanings(parts[1..], mode);
      ShortestJoins(Encoded(values[0]), EncodedItems(values[1..]), Wire(parts[0]), WireAll(parts[1..]));
      hide Shortest;
    }
  }

  /** Everything the decoder accepts, anywhere in a message, is carried, written back shortest, and no bigger than its bytes. */
  lemma Accepted(s: bytes, at: nat, depth: nat, mode: StringMode)
    requires at <= |s| && DecodedAt(s, at, depth, mode).Ok?
    ensures var (v, next) := DecodedAt(s, at, depth, mode).value; Faithful(v, s[at..next], depth, mode)
  {
    hide DecodedAt, Proper, Wire, Meaning, Faithful;
    var f := ReadIsForm(s, at, depth, mode);
    FormIsFaithful(f, depth, mode);
  }

  // ------------------------------------------------------------ main results

  /** Whatever bytes are accepted for a value, the encoder's are strictly fewer or the same ones. */
  lemma EncoderIsShortest(s: bytes, mode: StringMode)
    requires Decoded(s, mode).Ok?
    ensures var e := Encoded(Decoded(s, mode).value); e == s || |e| < |s|
  {
    Accepted(s, 0, 0, mode);
    assert s[0..|s|] == s;
  }

  /** The values some message decodes to are exactly the carried ones. */
  lemma AcceptedIffCarried(v: Value, mode: StringMode)
    ensures (exists s :: Decoded(s, mode) == Ok(v)) <==> Carried(v, mode, 0)
  {
    hide Decoded, Carried;
    if Carried(v, mode, 0) {
      RoundTrip(v, mode);
    }
    forall s | Decoded(s, mode) == Ok(v)
      ensures Carried(v, mode, 0)
    {
      DecodedIsCarried(s, mode);
    }
  }

  lemma DecodedIsCarried(s: bytes, mode: StringMode)
    requires Decoded(s, mode).Ok?
    ensures Carried(Decoded(s, mode).value, mode, 0)
  {
    Accepted(s, 0, 0, mode);
  }

  /** Reading a message and writing it again settles after one pass. */
  lemma ReencodingIsStable(s: bytes, mode: StringMode)
    requires Decoded(s, mode).Ok?
    ensures Decoded(Encoded(Decoded(s, mode).value), mode) == Decoded(s, mode)
  {
    DecodedIsCarried(s, mode);
    RoundTrip(Decoded(s, mode).value, mode);
  }

  /** A message never holds more values than it has bytes. */
  lemma NoMoreNodesThanBytes(s: bytes, mode: StringMode)
    requires Decoded(s, mode).Ok?
    ensures Nodes(Decoded(s, mode).value) <= |s|
  {
    Accepted(s, 0, 0, mode);
  }

  /** No value has two encodings the encoder would choose between: distinct values, distinct bytes. */
  lemma EncodingIsInjective(v: Value, w: Value, mode: StringMode)
    requires Carried(v, mode, 0) && Carried(w, mode, 0) && Encoded(v) == Encoded(w)
    ensures v == w
  {
    RoundTrip(v, mode);
    RoundTrip(w, mode);
  }
}
