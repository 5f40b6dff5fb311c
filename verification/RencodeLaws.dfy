/**
 What the two halves of rencode promise each other: encodings are self-delimiting, and every
 carried value comes back.
 */
module RencodeLaws {
  import opened Bytes
  import opened RencodeValue
  import opened RencodeEncode
  import opened RencodeDecode
  import opened RencodeWire
  import opened RencodeWritten

  // -------------------------------------------------------- self-delimiting

  /** What was decoded from the front of a buffer does not depend on what follows it. */
  lemma DecodedAtExtends(s: bytes, more: bytes, at: nat, depth: nat, mode: StringMode)
    requires at <= |s| && DecodedAt(s, at, depth, mode).Ok?
    ensures DecodedAt(s + more, at, depth, mode) == DecodedAt(s, at, depth, mode)
  {
    hide DecodedAt, Proper, Wire, Meaning;
    var f := ReadIsForm(s, at, depth, mode);
    var next := DecodedAt(s, at, depth, mode).value.1;
    assert (s + more)[at..next] == s[at..next];
    FormIsRead(s + more, at, f, depth, mode);
  }

  /** An accepted message followed by anything decodes, as a prefix, to the same value and length. */
  lemma SelfDelimiting(s: bytes, more: bytes, mode: StringMode)
    requires DecodedAt(s, 0, 0, mode).Ok?
    ensures DecodedAt(s + more, 0, 0, mode) == DecodedAt(s, 0, 0, mode)
  {
    DecodedAtExtends(s, more, 0, 0, mode);
  }

  /** No proper prefix of a complete encoding is itself complete. */
  lemma PrefixFree(s: bytes, cut: nat, mode: StringMode)
    requires Decoded(s, mode).Ok? && cut < |s|
    ensures Decoded(s[..cut], mode).Err?
  {
    assert s[..cut] + s[cut..] == s;
    if Decoded(s[..cut], mode).Ok? {
      DecodedAtExtends(s[..cut], s[cut..], 0, 0, mode);
    }
  }

  // ------------------------------------------------------------- round trip

  lemma FirstByte(v: Value)
    ensures Encoded(v)[0] != CHR_TERM
  {
  }

  lemma SignedComesBack(number: i64, width: nat)
    requires width in {1, 2, 4, 8}
    requires 0 - Pow256(width) <= 2 * number < Pow256(width)
    ensures FromSigned(Signed(number, width)) == number
  {
    Pow256Values();
    BigEndianInverts(if number < 0 then number + Pow256(width) else number, width);
  }

  lemma WideFormOfInt(n: i64)
    requires !(-32 <= n < 44)
    ensures FormOfInt(n).Fixed? && 62 <= FormOfInt(n).code <= 65 && Whole(FormOfInt(n).raw) == n
  {
    Pow256Values();
    hide Pow256, Signed, Whole, FromSigned;
    if -32_768 <= n < 32_768 {
      NarrowIsWritten(n);
    } else if -2_147_483_648 <= n < 2_147_483_648 {
      FourAreWritten(n);
    } else {
      EightAreWritten(n);
    }
    var raw := FormOfInt(n).raw;
    WholeIsSigned(raw);
    SignedComesBack(n, |raw|);
  }

  lemma LengthIsShort(n: nat)
    requires n <= MAX_LENGTH
    ensures |Digits(n)| <= 8
  {
    assert Pow10(8) == 10000 * Pow10(4);
    DigitsBound(n, 8);
  }

  lemma StringForm(raw: bytes, depth: nat, mode: StringMode)
    requires depth <= 64 && |raw| <= MAX_LENGTH
    ensures Proper(FormOfString(raw), depth) && Meaning(FormOfString(raw), mode) == Text(raw, mode)
  {
    hide Number, Digits, Text;
    NumberOfDigits(|raw|);
    LengthIsShort(|raw|);
  }

  /** The form a carried value is given is a proper one and means that value. */
  lemma {:induction false} CarriedForm(v: Value, depth: nat, mode: StringMode)
    requires Carried(v, mode, depth)
    ensures Proper(FormOf(v), depth) && Meaning(FormOf(v), mode) == v
    decreases v, 0
  {
    hide FormOfInt, FormOfString, FormsOf, FormsOfEntries, Meanings, Paired, Whole;
    match v
    case Int(number) =>
      if -32 <= number < 44 {
        SmallForm(number, depth, mode);
      } else {
        WideFormOfInt(number);
        WideIsProper(number, depth);
      }
    case BigInt(digits) => NumeralIsCanonical(digits);
    case Bytes(raw) => StringForm(raw, depth, mode);
    case Str(text) => StringForm(text, depth, mode);
    case List(items) => ItemForms(items, depth + 1, mode);
    case Dict(entries) => EntryForms(entries, depth + 1, mode);
    case _ =>
  }

  lemma SmallForm(n: i64, depth: nat, mode: StringMode)
    requires -32 <= n < 44 && depth <= 64
    ensures Proper(FormOfInt(n), depth) && Meaning(FormOfInt(n), mode) == Int(n)
  {
  }

  lemma WideIsProper(n: i64, depth: nat)
    requires !(-32 <= n < 44) && depth <= 64
    ensures Proper(FormOfInt(n), depth)
  {
  }

  lemma {:induction false} ItemForms(items: seq<Value>, depth: nat, mode: StringMode)
    requires forall i | 0 <= i < |items| :: Carried(items[i], mode, depth)
    ensures |FormsOf(items)| == |items| && forall i | 0 <= i < |items| :: Proper(FormsOf(items)[i], depth)
    ensures Meanings(FormsOf(items), mode) == items
    decreases items, 1
  {
    hide Carried, Proper, Meaning, FormOf;
    if items != [] {
      CarriedForm(items[0], depth, mode);
      ItemForms(items[1..], depth, mode);
      assert FormsOf(items)[1..] == FormsOf(items[1..]);
    }
  }

  lemma {:induction false} EntryForms(entries: seq<Entry>, depth: nat, mode: StringMode)
    requires forall i | 0 <= i < |entries| :: Carried(entries[i].key, mode, depth) && Carried(entries[i].value, mode, depth)
    ensures var parts := FormsOfEntries(entries);
            |parts| == 2 * |entries| && (forall i | 0 <= i < |parts| :: Proper(parts[i], depth))
            && Paired(Meanings(parts, mode)) == entries
    decreases entries, 1
  {
    hide Carried, Proper, Meaning, FormOf;
    if entries != [] {
      assert entries decreases to entries[0];
      CarriedForm(entries[0].key, depth, mode);
      CarriedForm(entries[0].value, depth, mode);
      EntryForms(entries[1..], depth, mode);
      var parts := FormsOfEntries(entries);
      assert parts[2..] == FormsOfEntries(entries[1..]);
      PairFirst(parts, mode);
      hide Meanings, Paired;
    }
  }

  /** The encoding of a carried value, wherever it stands, decodes to that value and stops there. */
  lemma ComesBack(s: bytes, at: nat, v: Value, depth: nat, mode: StringMode)
    requires Carried(v, mode, depth) && Stands(s, at, Encoded(v))
    ensures DecodedAt(s, at, depth, mode) == Ok((v, at + |Encoded(v)|))
  {
    hide *;
    CarriedForm(v, depth, mode);
    EncodedIsForm(v);
    FormIsRead(s, at, FormOf(v), depth, mode);
  }

  /** Encoding and decoding a carried value answers it unchanged, with nothing left over. */
  lemma RoundTrip(v: Value, mode: StringMode)
    requires Carried(v, mode, 0)
    ensures Decoded(Encoded(v), mode) == Ok(v)
  {
    ComesBack(Encoded(v), 0, v, 0, mode);
  }
}
