/**
 The bencoding the parser takes, in literal bytes: documents as they may be written, what each of
 them means, and that the parser reads exactly these.
 */
module BencodeGrammar {
  import opened Bytes
  import opened Bencode

  datatype Member = Member(length: bytes, key: bytes, doc: Doc)

  /**
   A document as it is written: numerals and lengths by their digits, members in any order, keys
   repeated or not. BEP 3 has no sign but a minus and no leading zero; the parser does not insist.
   */
  datatype Doc =
    | Whole(numeral: bytes)
    | Raw(length: bytes, raw: bytes)
    | Items(items: seq<Doc>)
    | Table(members: seq<Member>)

  // ------------------------------------------------------- how it is written

  function WrittenRaw(length: bytes, raw: bytes): bytes {
    length + ([58] + raw)
  }

  function Written(d: Doc): (r: bytes)
    ensures r != []
    decreases d, 1
  {
    match d
    case Whole(numeral) => [105] + (numeral + [101])
    case Raw(length, raw) => WrittenRaw(length, raw)
    case Items(items) => [108] + (WrittenItems(items) + [101])
    case Table(members) => [100] + (WrittenMembers(members) + [101])
  }

  function WrittenItems(items: seq<Doc>): bytes
    decreases items, 0
  {
    if items == [] then [] else Written(items[0]) + WrittenItems(items[1..])
  }

  function WrittenMembers(members: seq<Member>): bytes
    decreases members, 0
  {
    if members == [] then []
    else
      assert members[0] in members;
      WrittenRaw(members[0].length, members[0].key) + (Written(members[0].doc) + WrittenMembers(members[1..]))
  }

  /** The digits of a numeral, behind either sign or none. */
  function Unsigned(numeral: bytes): bytes {
    if numeral != [] && (numeral[0] == 43 || numeral[0] == 45) then numeral[1..] else numeral
  }

  predicate IsWhole(numeral: bytes) {
    && Unsigned(numeral) != [] && AllDigits(Unsigned(numeral))
    && -9_223_372_036_854_775_808 <= NumberOf(numeral) <= 9_223_372_036_854_775_807
  }

  function NumberOf(numeral: bytes): int {
    var digits := Unsigned(numeral);
    if !AllDigits(digits) then 0
    else if numeral != [] && numeral[0] == 45 then 0 - Number(digits)
    else Number(digits)
  }

  predicate IsLength(length: bytes, raw: bytes) {
    length != [] && AllDigits(length) && Number(length) == |raw|
  }

  /** The documents the parser takes, written so many containers down. */
  ghost predicate Fits(d: Doc, depth: nat)
    decreases d
  {
    && depth < 32
    && match d {
         case Whole(numeral) => IsWhole(numeral)
         case Raw(length, raw) => IsLength(length, raw)
         case Items(items) => forall i | 0 <= i < |items| :: Fits(items[i], depth + 1)
         case Table(members) =>
           && (members != [] ==> depth + 1 < 32)
           && forall i | 0 <= i < |members| ::
                IsLength(members[i].length, members[i].key) && Fits(members[i].doc, depth + 1)
       }
  }

  // ---------------------------------------------------------- what it means

  function Meaning(d: Doc): Value
    decreases d, 1
  {
    match d
    case Whole(numeral) => Int(if IsWhole(numeral) then NumberOf(numeral) else 0)
    case Raw(_, raw) => Value.Bytes(raw)
    case Items(items) => List(Meanings(items))
    case Table(members) => Dict(Entered(map[], members))
  }

  function Meanings(items: seq<Doc>): (r: seq<Value>)
    ensures |r| == |items|
    decreases items, 0
  {
    if items == [] then [] else [Meaning(items[0])] + Meanings(items[1..])
  }

  /** Members entered one after another: the last one under a key stays. */
  function Entered(read: map<bytes, Value>, members: seq<Member>): map<bytes, Value>
    decreases members, 0
  {
    if members == [] then read
    else
      assert members[0] in members;
      Entered(read[members[0].key := Meaning(members[0].doc)], members[1..])
  }

  // ------------------------------------------------ every document is read

  lemma FoundBehind(s: bytes, at: nat, part: bytes, after: byte)
    requires Stands(s, at, part + [after]) && after !in part
    ensures Find(after, s, at) == Just(at + |part|)
  {
    StandsApart(s, at, part, [after]);
    assert s[at + |part|] == s[at + |part|..at + |part| + 1][0];
    forall i | at <= i < at + |part|
      ensures s[i] != after
    {
      assert s[i] == s[at..at + |part|][i - at];
    }
  }

  lemma DigitsAreAscii(digits: bytes)
    requires AllDigits(digits)
    ensures IsUtf8(digits) && 58 !in digits && 101 !in digits
  {
    AsciiIsUtf8(digits);
  }

  lemma NumeralIff(numeral: bytes)
    ensures ParseI64(numeral) == if IsWhole(numeral) then Just(NumberOf(numeral)) else Nothing
    ensures IsWhole(numeral) ==> 101 !in numeral
  {
    if IsWhole(numeral) {
      DigitsAreAscii(Unsigned(numeral));
    }
    hide Number;
  }

  lemma IntegerReadsBack(s: bytes, at: nat, numeral: bytes)
    requires Stands(s, at, [105] + (numeral + [101])) && IsWhole(numeral)
    ensures at < |s| && IntegerAt(s, at) == Ok(Parsed(Int(NumberOf(numeral)), at + |numeral| + 2, Nothing))
  {
    hide ParseI64, IsWhole, NumberOf;
    StandsApart(s, at, [105], numeral + [101]);
    StandsApart(s, at + 1, numeral, [101]);
    NumeralIff(numeral);
    FoundBehind(s, at + 1, numeral, 101);
    assert s[at + 1..at + 1 + |numeral|] == numeral;
    hide Stands;
  }

  lemma RawApart(s: bytes, at: nat, length: bytes, raw: bytes)
    requires Stands(s, at, WrittenRaw(length, raw)) && IsLength(length, raw)
    ensures var colon := at + |length|;
            && at < |s| && IsDigit(s[at]) && |WrittenRaw(length, raw)| == |length| + 1 + |raw| && colon + 1 + |raw| <= |s|
            && s[at..colon] == length && s[colon + 1..colon + 1 + |raw|] == raw
            && Stands(s, at, length + [58])
  {
    StartsWith(s, at, WrittenRaw(length, raw));
    Regrouped(length, [58], raw);
    StandsApart(s, at, length + [58], raw);
    StandsApart(s, at, length, [58]);
  }

  lemma RawReadsBack(s: bytes, at: nat, length: bytes, raw: bytes)
    requires Stands(s, at, WrittenRaw(length, raw)) && IsLength(length, raw) && |s| < 0x1_0000_0000_0000_0000
    ensures at < |s| && IsDigit(s[at])
    ensures BytesAt(s, at) == Ok(Parsed(Value.Bytes(raw), at + |WrittenRaw(length, raw)|, Nothing))
  {
    hide IsUtf8, Number, WrittenRaw, Stands, IsDigit;
    RawApart(s, at, length, raw);
    DigitsAreAscii(length);
    FoundBehind(s, at, length, 58);
  }

  /** What the parser does on each first byte. */
  lemma ByteMeans(s: bytes, at: nat, depth: nat, wanted: bytes)
    requires at <= |s|
    ensures var r := ValueAt(s, at, depth, wanted);
            && (depth >= 32 ==> r == Err(TooDeep(32)))
            && (depth < 32 && at == |s| ==> r == Err(Truncated(at)))
            && (depth < 32 && at < |s| ==>
                  && (s[at] == 105 ==> r == IntegerAt(s, at))
                  && (48 <= s[at] <= 57 ==> r == BytesAt(s, at))
                  && (!(48 <= s[at] <= 57) && s[at] !in {100, 105, 108} ==> r == Err(Malformed(at))))
  {
    hide ItemsAt, MembersAt, IntegerAt, BytesAt;
  }

  lemma ListAt(s: bytes, at: nat, depth: nat, wanted: bytes)
    requires at < |s| && s[at] == 108 && depth < 32
    ensures var items, r := ItemsAt(s, at + 1, depth + 1, []), ValueAt(s, at, depth, wanted);
            if items.Ok? then r == Ok(Parsed(List(items.value.0), items.value.1, Nothing)) else r == Err(items.error)
  {
  }

  lemma DictAt(s: bytes, at: nat, depth: nat, wanted: bytes)
    requires at < |s| && s[at] == 100 && depth < 32
    ensures var members, r := MembersAt(s, at + 1, depth + 1, wanted, map[], Nothing), ValueAt(s, at, depth, wanted);
            if members.Ok? then r == Ok(Parsed(Dict(members.value.entries), members.value.next, members.value.span))
            else r == Err(members.error)
  {
  }

  lemma NeverAnEnd(d: Doc, depth: nat)
    requires Fits(d, depth)
    ensures Written(d)[0] != 101
  {
    assert d.Raw? ==> IsDigit(d.length[0]);
  }

  /** A written document, wherever it stands and whatever is wanted of it, parses to what it means and ends where it ends. */
  lemma {:induction false} ReadsBack(s: bytes, at: nat, d: Doc, depth: nat, wanted: bytes)
    requires Stands(s, at, Written(d)) && Fits(d, depth) && |s| < 0x1_0000_0000_0000_0000
    ensures var r := ValueAt(s, at, depth, wanted);
            r.Ok? && r.value.value == Meaning(d) && r.value.next == at + |Written(d)|
    ensures var r := ValueAt(s, at, depth, wanted).value;
            r.span == if d.Table? then SpanOf(d.members, at + 1, depth + 1, wanted, Nothing) else Nothing
    decreases d, 1
  {
    hide ItemsAt, MembersAt, IntegerAt, BytesAt, ValueAt, WrittenItems, WrittenMembers, WrittenRaw, Meanings, Entered;
    hide IsWhole, NumberOf, IsLength, SpanOf;
    StartsWith(s, at, Written(d));
    hide Stands;
    match d
    case Whole(numeral) =>
      IntegerReadsBack(s, at, numeral);
      ByteMeans(s, at, depth, wanted);
    case Raw(length, raw) =>
      RawReadsBack(s, at, length, raw);
      ByteMeans(s, at, depth, wanted);
    case Items(items) =>
      StandsApart(s, at, [108], WrittenItems(items) + [101]);
      ItemsReadBack(s, at + 1, items, depth + 1, []);
      ListAt(s, at, depth, wanted);
      assert [] + Meanings(items) == Meanings(items);
    case Table(members) =>
      StandsApart(s, at, [100], WrittenMembers(members) + [101]);
      MembersReadBack(s, at + 1, members, depth + 1, wanted, map[], Nothing);
      DictAt(s, at, depth, wanted);
  }

  lemma {:induction false} ItemsReadBack(s: bytes, at: nat, items: seq<Doc>, depth: nat, read: seq<Value>)
    requires Stands(s, at, WrittenItems(items) + [101]) && |s| < 0x1_0000_0000_0000_0000
    requires forall i | 0 <= i < |items| :: Fits(items[i], depth)
    ensures ItemsAt(s, at, depth, read) == Ok((read + Meanings(items), at + |WrittenItems(items)| + 1))
    decreases items, 0
  {
    hide ValueAt, Fits, Written, Meaning, SpanOf;
    if items == [] {
      StartsWith(s, at, [101]);
      assert [] + [101] == [101] && read + [] == read;
    } else {
      var first, rest := Written(items[0]), WrittenItems(items[1..]);
      Regrouped(first, rest, [101]);
      StandsApart(s, at, first, rest + [101]);
      StartsWith(s, at, first);
      NeverAnEnd(items[0], depth);
      ReadsBack(s, at, items[0], depth, NOWHERE);
      ItemsReadBack(s, at + |first|, items[1..], depth, read + [Meaning(items[0])]);
      Regrouped(read, [Meaning(items[0])], Meanings(items[1..]));
    }
  }

  lemma KeyReadsBack(s: bytes, at: nat, length: bytes, key: bytes, behind: bytes, depth: nat)
    requires Stands(s, at, WrittenRaw(length, key) + behind) && IsLength(length, key)
    requires depth < 32 && |s| < 0x1_0000_0000_0000_0000
    ensures at < |s| && s[at] != 101 && Stands(s, at + |WrittenRaw(length, key)|, behind)
    ensures ValueAt(s, at, depth, NOWHERE) == Ok(Parsed(Value.Bytes(key), at + |WrittenRaw(length, key)|, Nothing))
  {
    StandsApart(s, at, WrittenRaw(length, key), behind);
    RawReadsBack(s, at, length, key);
    hide BytesAt, WrittenRaw, Stands, ValueAt, IsLength;
    ByteMeans(s, at, depth, NOWHERE);
  }

  lemma MemberOf(s: bytes, at: nat, depth: nat, key: bytes, middle: nat, item: Value, next: nat)
    requires at < |s| && at <= middle <= |s|
    requires ValueAt(s, at, depth, NOWHERE).Ok? && ValueAt(s, middle, depth, NOWHERE).Ok?
    requires ValueAt(s, at, depth, NOWHERE).value.value == Value.Bytes(key) && ValueAt(s, at, depth, NOWHERE).value.next == middle
    requires ValueAt(s, middle, depth, NOWHERE).value.value == item && ValueAt(s, middle, depth, NOWHERE).value.next == next
    ensures MemberAt(s, at, depth) == Ok((key, middle, item, next))
  {
    hide ValueAt;
  }

  lemma {:induction false} MemberReadsBack(s: bytes, at: nat, length: bytes, key: bytes, d: Doc, depth: nat)
    requires Stands(s, at, WrittenRaw(length, key) + Written(d)) && IsLength(length, key) && Fits(d, depth)
    requires |s| < 0x1_0000_0000_0000_0000
    ensures at < |s| && s[at] != 101
    ensures (MemberAt(s, at, depth)
             == Ok((key, at + |WrittenRaw(length, key)|, Meaning(d), at + |WrittenRaw(length, key)| + |Written(d)|)))
    decreases d, 2
  {
    hide *;
    FitsHere(d, depth);
    KeyReadsBack(s, at, length, key, Written(d), depth);
    var middle := at + |WrittenRaw(length, key)|;
    ReadsBack(s, middle, d, depth, NOWHERE);
    assert middle <= |s| by {
      StandsWithin(s, middle, Written(d));
    }
    MemberOf(s, at, depth, key, middle, Meaning(d), middle + |Written(d)|);
  }

  lemma FitsHere(d: Doc, depth: nat)
    requires Fits(d, depth)
    ensures depth < 32
  {
  }

  lemma StandsWithin(s: bytes, at: nat, part: bytes)
    requires Stands(s, at, part)
    ensures at + |part| <= |s|
  {
  }

  lemma MembersApart(s: bytes, at: nat, members: seq<Member>)
    requires members != [] && Stands(s, at, WrittenMembers(members) + [101])
    ensures var rest := WrittenMembers(members[1..]);
            var first, second := WrittenRaw(members[0].length, members[0].key), Written(members[0].doc);
            && |WrittenMembers(members)| == |first| + |second| + |rest|
            && Stands(s, at, first + second) && Stands(s, at + |first| + |second|, rest + [101])
  {
    hide Written, WrittenRaw;
    var rest := WrittenMembers(members[1..]);
    var first, second := WrittenRaw(members[0].length, members[0].key), Written(members[0].doc);
    Regrouped(first, second, rest);
    Regrouped(first + second, rest, [101]);
    hide Stands, WrittenMembers;
    StandsApart(s, at, first + second, rest + [101]);
  }

  lemma EnteredFirst(read: map<bytes, Value>, members: seq<Member>)
    requires members != []
    ensures members[0] in members
    ensures Entered(read, members) == Entered(read[members[0].key := Meaning(members[0].doc)], members[1..])
  {
  }

  function Noted(span: Option<Range>, depth: nat, wanted: bytes, key: bytes, start: nat, next: nat): Option<Range> {
    if depth == 1 && key == wanted then Just(Range(start, next)) else span
  }

  /** The span noted of a member, for members written one behind another from an offset on. */
  function SpanOf(members: seq<Member>, at: nat, depth: nat, wanted: bytes, span: Option<Range>): Option<Range> {
    if members == [] then span
    else
      var middle := at + |WrittenRaw(members[0].length, members[0].key)|;
      var next := middle + |Written(members[0].doc)|;
      SpanOf(members[1..], next, depth, wanted, Noted(span, depth, wanted, members[0].key, middle, next))
  }

  lemma SpanGoesOn(members: seq<Member>, at: nat, depth: nat, wanted: bytes, span: Option<Range>)
    requires members != []
    ensures var middle := at + |WrittenRaw(members[0].length, members[0].key)|;
            var next := middle + |Written(members[0].doc)|;
            SpanOf(members, at, depth, wanted, span)
            == SpanOf(members[1..], next, depth, wanted, Noted(span, depth, wanted, members[0].key, middle, next))
  {
  }

  lemma NoMembers(s: bytes, at: nat, depth: nat, wanted: bytes, read: map<bytes, Value>, span: Option<Range>)
    requires Stands(s, at, WrittenMembers([]) + [101])
    ensures MembersAt(s, at, depth, wanted, read, span) == Ok(Bencode.Members(read, at + 1, span))
    ensures |WrittenMembers([])| == 0 && Entered(read, []) == read && SpanOf([], at, depth, wanted, span) == span
  {
    assert [] + [101] == [101];
    StartsWith(s, at, [101]);
  }

  lemma {:induction false} MembersReadBack(
    s: bytes, at: nat, members: seq<Member>, depth: nat, wanted: bytes, read: map<bytes, Value>, span: Option<Range>)
    requires Stands(s, at, WrittenMembers(members) + [101]) && |s| < 0x1_0000_0000_0000_0000
    requires forall i | 0 <= i < |members| :: IsLength(members[i].length, members[i].key) && Fits(members[i].doc, depth)
    ensures var r := MembersAt(s, at, depth, wanted, read, span);
            && r.Ok? && r.value.entries == Entered(read, members) && r.value.next == at + |WrittenMembers(members)| + 1
            && r.value.span == SpanOf(members, at, depth, wanted, span)
    decreases members, 0
  {
    hide *;
    if members == [] {
      NoMembers(s, at, depth, wanted, read, span);
    } else {
      EnteredFirst(read, members);
      MembersApart(s, at, members);
      var length, key, doc := members[0].length, members[0].key, members[0].doc;
      MemberReadsBack(s, at, length, key, doc, depth);
      var middle := at + |WrittenRaw(length, key)|;
      var next := middle + |Written(doc)|;
      StandsWithin(s, next, WrittenMembers(members[1..]) + [101]);
      SpanGoesOn(members, at, depth, wanted, span);
      MembersGoOn(s, at, depth, wanted, read, span, key, middle, Meaning(doc), next);
      MembersReadBack(s, next, members[1..], depth, wanted, read[key := Meaning(doc)], Noted(span, depth, wanted, key, middle, next));
    }
  }

  lemma MembersGoOn(
    s: bytes, at: nat, depth: nat, wanted: bytes, read: map<bytes, Value>, span: Option<Range>,
    key: bytes, middle: nat, item: Value, next: nat)
    requires at < |s| && s[at] != 101 && next <= |s| && MemberAt(s, at, depth) == Ok((key, middle, item, next))
    ensures (MembersAt(s, at, depth, wanted, read, span)
             == MembersAt(s, next, depth, wanted, read[key := item], Noted(span, depth, wanted, key, middle, next)))
  {
    hide MemberAt;
  }

  // ------------------------------------------------ nothing else is read

  /** A document written between two offsets. */
  ghost predicate IsDoc(d: Doc, s: bytes, at: nat, next: nat, depth: nat) {
    at <= next <= |s| && Fits(d, depth) && Written(d) == s[at..next]
  }

  lemma IntegerIsDoc(s: bytes, at: nat, depth: nat) returns (d: Doc)
    requires at < |s| && s[at] == 105 && depth < 32 && IntegerAt(s, at).Ok?
    ensures var r := IntegerAt(s, at).value; Meaning(d) == r.value && IsDoc(d, s, at, r.next, depth)
  {
    hide ParseI64, IsWhole, NumberOf;
    var end := Find(101, s, at + 1).value;
    var numeral := s[at + 1..end];
    NumeralIff(numeral);
    assert s[at..end + 1] == [105] + (numeral + [101]);
    d := Whole(numeral);
  }

  lemma BytesAreRaw(s: bytes, at: nat) returns (length: bytes, raw: bytes)
    requires at < |s| && BytesAt(s, at).Ok?
    ensures var r := BytesAt(s, at).value;
            r.value == Value.Bytes(raw) && IsLength(length, raw) && WrittenRaw(length, raw) == s[at..r.next]
  {
    hide Number, IsUtf8;
    var colon := Find(58, s, at).value;
    length := s[at..colon];
    var next := BytesAt(s, at).value.next;
    raw := s[colon + 1..next];
    assert s[at..next] == length + ([58] + raw);
  }

  lemma Bracketed(s: bytes, at: nat, next: nat)
    requires at + 1 < next <= |s| && s[next - 1] == 101
    ensures s[at..next] == [s[at]] + (s[at + 1..next - 1] + [101])
  {
  }

  /** Whatever the parser takes is a document, and taken for what that means. */
  lemma {:induction false} ValueIsDoc(s: bytes, at: nat, depth: nat, wanted: bytes) returns (d: Doc)
    requires at <= |s| && ValueAt(s, at, depth, wanted).Ok?
    ensures var r := ValueAt(s, at, depth, wanted).value; Meaning(d) == r.value && IsDoc(d, s, at, r.next, depth)
    decreases |s| - at, 0
  {
    hide ItemsAt, MembersAt, IntegerAt, BytesAt, ValueAt, WrittenItems, WrittenMembers, WrittenRaw, Meanings, Entered;
    hide IsWhole, NumberOf, IsLength;
    ByteMeans(s, at, depth, wanted);
    if s[at] == 105 {
      d := IntegerIsDoc(s, at, depth);
    } else if s[at] == 108 {
      ListAt(s, at, depth, wanted);
      var next := ItemsAt(s, at + 1, depth + 1, []).value.1;
      var items := ItemsAreDocs(s, at + 1, depth + 1, []);
      d := Items(items);
      assert [] + Meanings(items) == Meanings(items);
      Bracketed(s, at, next);
    } else if s[at] == 100 {
      DictAt(s, at, depth, wanted);
      var next := MembersAt(s, at + 1, depth + 1, wanted, map[], Nothing).value.next;
      var members := MembersAreDocs(s, at + 1, depth + 1, wanted, map[], Nothing);
      d := Table(members);
      Bracketed(s, at, next);
    } else {
      var length, raw := BytesAreRaw(s, at);
      d := Raw(length, raw);
    }
  }

  lemma {:induction false} ItemsAreDocs(s: bytes, at: nat, depth: nat, read: seq<Value>) returns (items: seq<Doc>)
    requires at <= |s| && ItemsAt(s, at, depth, read).Ok?
    ensures var (values, next) := ItemsAt(s, at, depth, read).value;
            && values == read + Meanings(items) && at < next <= |s| && s[next - 1] == 101
            && WrittenItems(items) == s[at..next - 1]
    ensures forall i | 0 <= i < |items| :: Fits(items[i], depth)
    decreases |s| - at, 1
  {
    hide ValueAt, Fits, Written, Meaning;
    if s[at] == 101 {
      items := [];
      assert read + [] == read;
    } else {
      var item := ValueAt(s, at, depth, NOWHERE).value;
      var first := ValueIsDoc(s, at, depth, NOWHERE);
      var rest := ItemsAreDocs(s, item.next, depth, read + [item.value]);
      items := [first] + rest;
      assert items[1..] == rest;
      var next := ItemsAt(s, at, depth, read).value.1;
      Regrouped(read, [item.value], Meanings(rest));
      assert s[at..next - 1] == s[at..item.next] + s[item.next..next - 1];
    }
  }

  lemma {:induction false} MemberIsDoc(s: bytes, at: nat, depth: nat) returns (member: Member)
    requires at < |s| && MemberAt(s, at, depth).Ok?
    ensures var (key, middle, item, next) := MemberAt(s, at, depth).value;
            && member.key == key && Meaning(member.doc) == item && IsLength(member.length, key) && depth < 32
            && WrittenRaw(member.length, key) == s[at..middle] && IsDoc(member.doc, s, middle, next, depth)
    decreases |s| - at, 1
  {
    hide ValueAt, IsDoc, Meaning, WrittenRaw, IsLength;
    var (key, middle, item, next) := MemberAt(s, at, depth).value;
    var length := KeyIsRaw(s, at, depth);
    var d := ValueIsDoc(s, middle, depth, NOWHERE);
    member := Member(length, key, d);
  }

  lemma KeyIsRaw(s: bytes, at: nat, depth: nat) returns (length: bytes)
    requires at < |s| && ValueAt(s, at, depth, NOWHERE).Ok? && ValueAt(s, at, depth, NOWHERE).value.value.Bytes?
    ensures var r := ValueAt(s, at, depth, NOWHERE).value;
            IsLength(length, r.value.raw) && WrittenRaw(length, r.value.raw) == s[at..r.next] && depth < 32
  {
    hide ItemsAt, MembersAt, BytesAt, ParseI64, IsLength, WrittenRaw, IsUtf8;
    var raw;
    length, raw := BytesAreRaw(s, at);
  }

  lemma MemberInFront(s: bytes, member: Member, members: seq<Member>, at: nat, middle: nat, next: nat, end: nat)
    requires at <= middle <= next <= end <= |s|
    requires WrittenRaw(member.length, member.key) == s[at..middle] && Written(member.doc) == s[middle..next]
    requires WrittenMembers(members) == s[next..end]
    ensures WrittenMembers([member] + members) == s[at..end]
  {
    hide WrittenRaw, Written;
    assert ([member] + members)[1..] == members;
    assert s[at..end] == s[at..middle] + (s[middle..next] + s[next..end]);
  }

  lemma EnteredInFront(read: map<bytes, Value>, member: Member, members: seq<Member>)
    ensures Entered(read, [member] + members) == Entered(read[member.key := Meaning(member.doc)], members)
  {
    EnteredFirst(read, [member] + members);
    assert ([member] + members)[1..] == members;
    hide Entered, Meaning;
  }

  lemma {:induction false} MembersAreDocs(
    s: bytes, at: nat, depth: nat, wanted: bytes, read: map<bytes, Value>, span: Option<Range>) returns (members: seq<Member>)
    requires at <= |s| && MembersAt(s, at, depth, wanted, read, span).Ok?
    ensures var r := MembersAt(s, at, depth, wanted, read, span).value;
            && r.entries == Entered(read, members) && at < r.next <= |s| && s[r.next - 1] == 101
            && WrittenMembers(members) == s[at..r.next - 1] && (members != [] ==> depth < 32)
    ensures forall i | 0 <= i < |members| :: IsLength(members[i].length, members[i].key) && Fits(members[i].doc, depth)
    decreases |s| - at, 2
  {
    hide MemberAt, Fits, Written, WrittenRaw, Meaning, IsLength, MembersAt, Entered;
    if s[at] == 101 {
      members := [];
      MembersEnd(s, at, depth, wanted, read, span);
    } else {
      MembersBegin(s, at, depth, wanted, read, span);
      var (key, middle, item, next) := MemberAt(s, at, depth).value;
      var member := MemberIsDoc(s, at, depth);
      MembersGoOn(s, at, depth, wanted, read, span, key, middle, item, next);
      var rest := MembersAreDocs(s, next, depth, wanted, read[key := item], Noted(span, depth, wanted, key, middle, next));
      members := [member] + rest;
      EnteredInFront(read, member, rest);
      MemberInFront(s, member, rest, at, middle, next, MembersAt(s, at, depth, wanted, read, span).value.next - 1);
    }
  }

  lemma MembersEnd(s: bytes, at: nat, depth: nat, wanted: bytes, read: map<bytes, Value>, span: Option<Range>)
    requires at < |s| && s[at] == 101
    ensures MembersAt(s, at, depth, wanted, read, span) == Ok(Bencode.Members(read, at + 1, span))
    ensures WrittenMembers([]) == [] && Entered(read, []) == read
  {
  }

  lemma MembersBegin(s: bytes, at: nat, depth: nat, wanted: bytes, read: map<bytes, Value>, span: Option<Range>)
    requires at <= |s| && MembersAt(s, at, depth, wanted, read, span).Ok?
    ensures at < |s| && (s[at] != 101 ==> MemberAt(s, at, depth).Ok?)
  {
    hide MemberAt;
  }

  // ----------------------------------------------------------------- BEP 3

  /** An integer as BEP 3 writes it. */
  function Plain(n: i64): bytes {
    if n < 0 then [45] + Digits(-(n as int)) else Digits(n)
  }

  /** What BEP 3 writes is among what the parser takes: every integer and every string. */
  lemma PlainIsTaken(n: i64, raw: bytes)
    ensures IsWhole(Plain(n)) && NumberOf(Plain(n)) == n
    ensures IsLength(Digits(|raw|), raw)
  {
    var size := if n < 0 then -(n as int) else n;
    NumberOfDigits(size);
    NumberOfDigits(|raw|);
    var digits := Digits(size);
    assert IsDigit(digits[0]);
    hide Digits, Number, IsDigit;
    assert ([45] + digits)[1..] == digits;
  }

  // ------------------------------------------------------------ main result

  /**
   The parser takes a file, and for this value, exactly when it starts with a document of this
   grammar, nested no deeper than thirty-two, that means this value.
   */
  lemma DecodedIff(s: bytes, v: Value)
    requires |s| < 0x1_0000_0000_0000_0000
    ensures Decoded(s) == Ok(v) <==> exists d :: Fits(d, 0) && Written(d) <= s && Meaning(d) == v
  {
    hide ValueAt, Fits, Written, Meaning;
    if Decoded(s) == Ok(v) {
      var d := ValueIsDoc(s, 0, 0, NOWHERE);
      assert Written(d) <= s;
    }
    forall d | Fits(d, 0) && Written(d) <= s && Meaning(d) == v
      ensures Decoded(s) == Ok(v)
    {
      ReadsBack(s, 0, d, 0, NOWHERE);
    }
  }
}
