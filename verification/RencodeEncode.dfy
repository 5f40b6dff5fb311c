/** The rencode encoder: every value in the shortest form that fits. */
module RencodeEncode {
  import opened Bytes
  import opened RencodeValue

  // --------------------------------------------------------- specification

  /** Two's complement, big end first. */
  function Signed(number: int, width: nat): (s: bytes)
    requires 0 - Pow256(width) <= number
    ensures |s| == width
  {
    BigEndian(if number < 0 then number + Pow256(width) else number, width)
  }

  function EncodedInt(number: i64): (s: bytes)
    ensures s != []
  {
    if 0 <= number < INT_POS_FIXED_COUNT then [INT_POS_FIXED_START + number]
    else if -INT_NEG_FIXED_COUNT <= number < 0 then [INT_NEG_FIXED_START + (-1 - number)]
    else if -0x80 <= number < 0x80 then [CHR_INT1] + Signed(number, 1)
    else if -0x8000 <= number < 0x8000 then [CHR_INT2] + Signed(number, 2)
    else if -0x8000_0000 <= number < 0x8000_0000 then [CHR_INT4] + Signed(number, 4)
    else [CHR_INT8] + Signed(number, 8)
  }

  function EncodedString(raw: bytes): (s: bytes)
    ensures s != []
  {
    if |raw| < STR_FIXED_COUNT then [STR_FIXED_START + |raw|] + raw
    else Digits(|raw|) + [COLON] + raw
  }

  function Encoded(v: Value): (s: bytes)
    ensures s != []
    decreases v, 0
  {
    match v
    case None => [CHR_NONE]
    case Bool(flag) => [if flag then CHR_TRUE else CHR_FALSE]
    case Int(number) => EncodedInt(number)
    case BigInt(digits) => [CHR_INT] + digits + [CHR_TERM]
    case Float32(single) => [CHR_FLOAT32] + single
    case Float64(double) => [CHR_FLOAT64] + double
    case Bytes(raw) => EncodedString(raw)
    case Str(text) => EncodedString(text)
    case List(items) =>
      if |items| < LIST_FIXED_COUNT then [LIST_FIXED_START + |items|] + EncodedItems(items)
      else [CHR_LIST] + EncodedItems(items) + [CHR_TERM]
    case Dict(entries) =>
      if |entries| < DICT_FIXED_COUNT then [DICT_FIXED_START + |entries|] + EncodedEntries(entries)
      else [CHR_DICT] + EncodedEntries(entries) + [CHR_TERM]
  }

  function EncodedItems(items: seq<Value>): bytes
    decreases items, 1
  {
    if items == [] then [] else Encoded(items[0]) + EncodedItems(items[1..])
  }

  function EncodedEntries(entries: seq<Entry>): bytes
    decreases entries, 1
  {
    if entries == [] then []
    else
      assert entries decreases to entries[0];
      Encoded(entries[0].key) + Encoded(entries[0].value) + EncodedEntries(entries[1..])
  }

  lemma EncodedItemsFront(items: seq<Value>)
    requires items != []
    ensures EncodedItems(items) == Encoded(items[0]) + EncodedItems(items[1..])
  {
    hide Encoded;
  }

  lemma {:induction false} EncodedItemsSnoc(items: seq<Value>, last: Value)
    ensures EncodedItems(items + [last]) == EncodedItems(items) + Encoded(last)
  {
    hide Encoded, EncodedItems;
    EncodedItemsFront(items + [last]);
    if items == [] {
      NothingEncoded();
      assert items + [last] == [last] && [last][1..] == [];
    } else {
      assert (items + [last])[1..] == items[1..] + [last];
      EncodedItemsFront(items);
      EncodedItemsSnoc(items[1..], last);
      Regrouped(Encoded(items[0]), EncodedItems(items[1..]), Encoded(last));
    }
  }

  lemma NothingEncoded()
    ensures EncodedItems([]) == [] && EncodedEntries([]) == []
  {
  }

  function EncodedEntry(entry: Entry): bytes {
    Encoded(entry.key) + Encoded(entry.value)
  }

  lemma EncodedEntriesFront(entries: seq<Entry>)
    requires entries != []
    ensures EncodedEntries(entries) == EncodedEntry(entries[0]) + EncodedEntries(entries[1..])
  {
    hide Encoded;
  }

  lemma {:induction false} EncodedEntriesSnoc(entries: seq<Entry>, last: Entry)
    ensures EncodedEntries(entries + [last]) == EncodedEntries(entries) + EncodedEntry(last)
  {
    hide Encoded, EncodedEntries, EncodedEntry;
    EncodedEntriesFront(entries + [last]);
    if entries == [] {
      NothingEncoded();
      assert entries + [last] == [last] && [last][1..] == [];
    } else {
      assert (entries + [last])[1..] == entries[1..] + [last];
      EncodedEntriesFront(entries);
      EncodedEntriesSnoc(entries[1..], last);
      Regrouped(EncodedEntry(entries[0]), EncodedEntries(entries[1..]), EncodedEntry(last));
    }
  }

  // -------------------------------------------------------- implementation

  /** The buffer a message is written into. */
  class Encoder {
    var out: bytes

    constructor ()
      ensures out == []
    {
      out := [];
    }

    method Write(v: Value)
      modifies this
      ensures out == old(out) + Encoded(v)
      decreases v, 0
    {
      hide EncodedItems, EncodedEntries, EncodedInt, EncodedString;
      match v
      case None => out := out + [CHR_NONE];
      case Bool(flag) => out := out + [if flag then CHR_TRUE else CHR_FALSE];
      case Int(number) => WriteInt(number);
      case BigInt(digits) =>
        RegroupedThree(out, [CHR_INT], digits, [CHR_TERM]);
        out := out + [CHR_INT];
        out := out + digits;
        out := out + [CHR_TERM];
      case Float32(single) =>
        Regrouped(out, [CHR_FLOAT32], single);
        out := out + [CHR_FLOAT32];
        out := out + single;
      case Float64(double) =>
        Regrouped(out, [CHR_FLOAT64], double);
        out := out + [CHR_FLOAT64];
        out := out + double;
      case Bytes(raw) => WriteString(raw);
      case Str(text) => WriteString(text);
      case List(items) =>
        if |items| < LIST_FIXED_COUNT {
          Regrouped(out, [LIST_FIXED_START + |items|], EncodedItems(items));
          out := out + [LIST_FIXED_START + |items|];
          WriteItems(items);
        } else {
          RegroupedThree(out, [CHR_LIST], EncodedItems(items), [CHR_TERM]);
          out := out + [CHR_LIST];
          WriteItems(items);
          out := out + [CHR_TERM];
        }
      case Dict(entries) =>
        if |entries| < DICT_FIXED_COUNT {
          Regrouped(out, [DICT_FIXED_START + |entries|], EncodedEntries(entries));
          out := out + [DICT_FIXED_START + |entries|];
          WriteEntries(entries);
        } else {
          RegroupedThree(out, [CHR_DICT], EncodedEntries(entries), [CHR_TERM]);
          out := out + [CHR_DICT];
          WriteEntries(entries);
          out := out + [CHR_TERM];
        }
    }

    method WriteItems(items: seq<Value>)
      modifies this
      ensures out == old(out) + EncodedItems(items)
      decreases items, 1
    {
      hide Encoded, EncodedItems;
      NothingEncoded();
      for i := 0 to |items|
        invariant out == old(out) + EncodedItems(items[..i])
      {
        Write(items[i]);
        EncodedItemsSnoc(items[..i], items[i]);
        Regrouped(old(out), EncodedItems(items[..i]), Encoded(items[i]));
        assert items[..i] + [items[i]] == items[..i + 1];
      }
      assert items[..|items|] == items;
    }

    method WriteEntries(entries: seq<Entry>)
      modifies this
      ensures out == old(out) + EncodedEntries(entries)
      decreases entries, 1
    {
      hide Encoded, EncodedEntries;
      NothingEncoded();
      for i := 0 to |entries|
        invariant out == old(out) + EncodedEntries(entries[..i])
      {
        assert entries decreases to entries[i];
        ghost var sofar := out;
        Write(entries[i].key);
        Write(entries[i].value);
        Regrouped(sofar, Encoded(entries[i].key), Encoded(entries[i].value));
        EncodedEntriesSnoc(entries[..i], entries[i]);
        Regrouped(old(out), EncodedEntries(entries[..i]), EncodedEntry(entries[i]));
        assert entries[..i] + [entries[i]] == entries[..i + 1];
      }
      assert entries[..|entries|] == entries;
    }

    method WriteInt(number: i64)
      modifies this
      ensures out == old(out) + EncodedInt(number)
    {
      if 0 <= number < INT_POS_FIXED_COUNT {
        out := out + [INT_POS_FIXED_START + number];
      } else if -INT_NEG_FIXED_COUNT <= number < 0 {
        out := out + [INT_NEG_FIXED_START + (-1 - number)];
      } else if -0x80 <= number < 0x80 {
        out := out + [CHR_INT1];
        out := out + Signed(number, 1);
      } else if -0x8000 <= number < 0x8000 {
        out := out + [CHR_INT2];
        out := out + Signed(number, 2);
      } else if -0x8000_0000 <= number < 0x8000_0000 {
        out := out + [CHR_INT4];
        out := out + Signed(number, 4);
      } else {
        out := out + [CHR_INT8];
        out := out + Signed(number, 8);
      }
    }

    method WriteString(raw: bytes)
      modifies this
      ensures out == old(out) + EncodedString(raw)
    {
      if |raw| < STR_FIXED_COUNT {
        out := out + [STR_FIXED_START + |raw|];
        out := out + raw;
      } else {
        out := out + Digits(|raw|);
        out := out + [COLON];
        out := out + raw;
      }
    }
  }

  method ToVec(v: Value) returns (out: bytes)
    ensures out == Encoded(v)
  {
    var encoder := new Encoder();
    encoder.Write(v);
    out := encoder.out;
  }
}
