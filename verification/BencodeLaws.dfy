/** What the span is good for: the bytes it names are the member, whole and alone, and as it was written. */
module BencodeLaws {
  import opened Bytes
  import opened Bencode
  import opened BencodeGrammar

  lemma {:induction false} FitsHigher(d: Doc, depth: nat, shallower: nat)
    requires Fits(d, depth) && shallower <= depth
    ensures Fits(d, shallower)
    decreases d
  {
    match d
    case Items(items) =>
      forall i | 0 <= i < |items|
        ensures Fits(items[i], shallower + 1)
      {
        FitsHigher(items[i], depth + 1, shallower + 1);
      }
    case Table(members) =>
      forall i | 0 <= i < |members|
        ensures Fits(members[i].doc, shallower + 1)
      {
        FitsHigher(members[i].doc, depth + 1, shallower + 1);
      }
    case _ =>
  }

  /**
   A value that parsed somewhere parses wherever its bytes are copied to, and at any smaller
   depth, to the same value of the same length. What was wanted of it makes no difference.
   */
  lemma Moves(s: bytes, at: nat, depth: nat, wanted: bytes, t: bytes, to: nat, shallower: nat, other: bytes)
    requires at <= |s| && ValueAt(s, at, depth, wanted).Ok? && shallower <= depth
    requires |t| < 0x1_0000_0000_0000_0000
    requires Stands(t, to, s[at..ValueAt(s, at, depth, wanted).value.next])
    ensures var was, now := ValueAt(s, at, depth, wanted).value, ValueAt(t, to, shallower, other);
            now.Ok? && now.value.value == was.value && now.value.next == to + (was.next - at)
  {
    hide ValueAt, Fits, Written, Meaning, SpanOf, Stands;
    var d := ValueIsDoc(s, at, depth, wanted);
    FitsHigher(d, depth, shallower);
    StandsWithin(t, to, Written(d));
    ReadsBack(t, to, d, shallower, other);
  }

  /** Asking where a member lay does not change what is decoded. */
  lemma NotingChangesNothing(s: bytes, wanted: bytes)
    requires |s| < 0x1_0000_0000_0000_0000
    ensures Decoded(s).Ok? <==> DecodedWithSpan(s, wanted).Ok?
    ensures Decoded(s).Ok? ==> Decoded(s).value == DecodedWithSpan(s, wanted).value.0
  {
    hide ValueAt;
    if Decoded(s).Ok? {
      Moves(s, 0, 0, NOWHERE, s, 0, 0, wanted);
    }
    if DecodedWithSpan(s, wanted).Ok? {
      Moves(s, 0, 0, wanted, s, 0, 0, NOWHERE);
    }
  }

  /** What follows a value is ignored. */
  lemma PaddingIsIgnored(s: bytes, padding: bytes)
    requires |s + padding| < 0x1_0000_0000_0000_0000 && Decoded(s).Ok?
    ensures Decoded(s + padding) == Decoded(s)
  {
    hide ValueAt;
    var next := ValueAt(s, 0, 0, NOWHERE).value.next;
    assert (s + padding)[0..0 + next] == s[0..next];
    Moves(s, 0, 0, NOWHERE, s + padding, 0, 0, NOWHERE);
  }

  // ------------------------------------------------------------ the infohash

  /** The document written last under a key. */
  function LastUnder(members: seq<Member>, key: bytes): Option<Doc> {
    if members == [] then Nothing
    else
      var later := LastUnder(members[1..], key);
      if later == Nothing && members[0].key == key then Just(members[0].doc) else later
  }

  /** The span covers this document as it was written. */
  predicate Covers(s: bytes, span: Option<Range>, d: Doc) {
    span.Just? && span.value.start <= span.value.end <= |s| && s[span.value.start..span.value.end] == Written(d)
  }

  lemma {:induction false} SpanCovers(s: bytes, members: seq<Member>, at: nat, wanted: bytes, span: Option<Range>)
    requires Stands(s, at, WrittenMembers(members) + [101])
    ensures var noted, last := SpanOf(members, at, 1, wanted, span), LastUnder(members, wanted);
            if last == Nothing then noted == span else Covers(s, noted, last.value)
    decreases |members|
  {
    hide *;
    if members == [] {
      NothingNoted(at, wanted, span);
    } else {
      MembersApart(s, at, members);
      var length, key, d := members[0].length, members[0].key, members[0].doc;
      var middle := at + |WrittenRaw(length, key)|;
      var next := middle + |Written(d)|;
      StandsApart(s, at, WrittenRaw(length, key), Written(d));
      StandsThere(s, middle, Written(d));
      SpanGoesOn(members, at, 1, wanted, span);
      SpanCovers(s, members[1..], next, wanted, Noted(span, 1, wanted, key, middle, next));
      OneMoreNoted(s, members, wanted, span, middle, next);
    }
  }

  lemma NothingNoted(at: nat, wanted: bytes, span: Option<Range>)
    ensures SpanOf([], at, 1, wanted, span) == span && LastUnder([], wanted) == Nothing
  {
  }

  lemma OneMoreNoted(s: bytes, members: seq<Member>, wanted: bytes, span: Option<Range>, middle: nat, next: nat)
    requires members != [] && middle <= next <= |s| && s[middle..next] == Written(members[0].doc)
    ensures var noted, last := Noted(span, 1, wanted, members[0].key, middle, next), LastUnder(members, wanted);
            var later := LastUnder(members[1..], wanted);
            && (later.Just? ==> last == later)
            && (later.Nothing? ==> if last == Nothing then noted == span else Covers(s, noted, last.value))
  {
    hide Written;
  }

  lemma StandsThere(s: bytes, at: nat, part: bytes)
    requires Stands(s, at, part)
    ensures at + |part| <= |s| && s[at..at + |part|] == part
  {
  }

  lemma {:induction false} EnteredLast(read: map<bytes, Value>, members: seq<Member>, key: bytes)
    ensures var entries, last := Entered(read, members), LastUnder(members, key);
            if last.Just? then key in entries && entries[key] == Meaning(last.value)
            else (key in entries <==> key in read) && (key in read ==> entries[key] == read[key])
    decreases |members|
  {
    hide Meaning;
    if members != [] {
      EnteredFirst(read, members);
      EnteredLast(read[members[0].key := Meaning(members[0].doc)], members[1..], key);
      hide Entered;
    }
  }

  lemma {:induction false} LastIsThere(members: seq<Member>, key: bytes) returns (i: nat)
    requires LastUnder(members, key).Just?
    ensures i < |members| && members[i].key == key && members[i].doc == LastUnder(members, key).value
    decreases |members|
  {
    if LastUnder(members[1..], key).Just? {
      var j := LastIsThere(members[1..], key);
      i := j + 1;
    } else {
      i := 0;
    }
  }

  /** The span of a dictionary's member is, to the byte, what was written last under that key. */
  lemma SpanIsAsWritten(s: bytes, members: seq<Member>, key: bytes)
    requires Fits(Table(members), 0) && Written(Table(members)) <= s && |s| < 0x1_0000_0000_0000_0000
    ensures var decoded, last := DecodedWithSpan(s, key), LastUnder(members, key);
            decoded.Ok? && decoded.value.0 == Meaning(Table(members))
            && if last == Nothing then decoded.value.1 == Nothing else Covers(s, decoded.value.1, last.value)
  {
    hide ValueAt, WrittenMembers, SpanOf, Covers, LastUnder, Meaning;
    var w := WrittenMembers(members) + [101];
    assert Stands(s, 0, [100] + w);
    ReadsBack(s, 0, Table(members), 0, key);
    StandsApart(s, 0, [100], w);
    hide Stands, Fits;
    SpanCovers(s, members, 1, key, Nothing);
  }

  /**
   For any file the parser takes: the span is there exactly when the outermost dictionary has the
   key, and the bytes it names decode, alone and completely, to the value stored, whatever else
   the file holds, however often the key is repeated, and wherever else in it the same key occurs.
   */
  lemma SpanIsTheMember(s: bytes, wanted: bytes)
    requires |s| < 0x1_0000_0000_0000_0000 && DecodedWithSpan(s, wanted).Ok?
    ensures var (value, span) := DecodedWithSpan(s, wanted).value;
            if value.Dict? then Names(s, span, value.entries, wanted) else span.Nothing?
  {
    hide ValueAt, Fits, Written, Meaning, SpanOf, Names;
    var d := ValueIsDoc(s, 0, 0, wanted);
    ReadsBack(s, 0, d, 0, wanted);
    MeaningIsDict(d);
    if d.Table? {
      TableSpan(s, d.members, wanted);
    }
  }

  /** `span` names bytes that, read on their own, are one value, the one stored under `wanted`. */
  ghost predicate Names(s: bytes, span: Option<Range>, entries: map<bytes, Value>, wanted: bytes) {
    match span
    case Nothing => wanted !in entries
    case Just(Range(start, end)) =>
      && wanted in entries
      && start < end <= |s|
      && Decoded(s[start..end]) == Ok(entries[wanted])
      && ValueAt(s[start..end], 0, 0, NOWHERE).value.next == end - start
  }

  lemma MeaningIsDict(d: Doc)
    ensures Meaning(d).Dict? <==> d.Table?
    ensures d.Table? ==> Meaning(d) == Dict(Entered(map[], d.members))
  {
    hide Entered, Meanings, NumberOf, IsWhole;
  }

  lemma TableSpan(s: bytes, members: seq<Member>, wanted: bytes)
    requires Fits(Table(members), 0) && Written(Table(members)) <= s && |s| < 0x1_0000_0000_0000_0000
    ensures DecodedWithSpan(s, wanted).Ok?
    ensures Names(s, DecodedWithSpan(s, wanted).value.1, Entered(map[], members), wanted)
  {
    hide ValueAt, Written, Meaning, LastUnder, Entered;
    SpanIsAsWritten(s, members, wanted);
    EnteredLast(map[], members, wanted);
    if LastUnder(members, wanted).Just? {
      var d := LastUnder(members, wanted).value;
      var i := LastIsThere(members, wanted);
      FitsHigher(d, 1, 0);
      ReadsBack(Written(d), 0, d, 0, NOWHERE);
    }
  }
}
