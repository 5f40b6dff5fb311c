/**
 What a filter finds, said without the code that looks: by the fields of a status, the terms of a
 search and what occurs in what; and from there what a search lists of a library.
 */
module Search {
  import opened Bytes
  import opened TrackerCache
  import opened TorrentState
  import opened Status
  import opened StatusLaws

  // ------------------------------------------------------- words for it

  ghost predicate Occurs(part: string, text: string) {
    exists before, behind :: text == before + part + behind
  }

  predicate Field(status: StatusMap, key: string, text: string) {
    key in status && status[key] == Str(text)
  }

  predicate Count(status: StatusMap, key: string, n: int) {
    key in status && status[key] == Int(n)
  }

  /** A stretch of a search between two commas, or a comma and an end of it. */
  predicate Stretch(search: string, i: nat, j: nat, term: string) {
    && i <= j <= |search| && search[i..j] == term && ',' !in term
    && (i == 0 || search[i - 1] == ',') && (j == |search| || search[j] == ',')
  }

  ghost predicate IsTerm(search: string, term: string) {
    exists i: nat, j: nat :: Stretch(search, i, j, term)
  }

  /** One of the seven fields a search looks in has the term in it. */
  ghost predicate Mentions(w: Words, status: StatusMap, term: string) {
    exists key, text ::
      && (key == "name" || key == "state" || key == "tracker_host" || key == "tracker" || key == "tracker_status"
          || key == "label" || key == "hash")
      && Field(status, key, text) && Occurs(term, w.lower(text))
  }

  ghost predicate Finds(w: Words, status: StatusMap, search: string) {
    forall term | IsTerm(search, term) && w.trim(term) != "" :: Mentions(w, status, w.lower(w.trim(term)))
  }

  ghost predicate Unregistered(w: Words, text: string) {
    || Occurs("unregistered", w.lower(text)) || Occurs("not registered", w.lower(text))
    || Occurs("torrent not found", w.lower(text)) || Occurs("unknown torrent", w.lower(text))
    || Occurs("info hash not found", w.lower(text)) || Occurs("infohash not found", w.lower(text))
  }

  /** What one key of a filter asks of a status. */
  ghost predicate Asks(w: Words, status: StatusMap, key: string, wanted: seq<string>) {
    if "All" in wanted then true
    else if key == "state" && "Active" in wanted then
      exists n :: n > 0 && (Count(status, "download_payload_rate", n) || Count(status, "upload_payload_rate", n))
    else if key == "state" && "Unregistered" in wanted then
      exists text :: Field(status, "tracker_status", text) && Unregistered(w, text)
    else if key == "state" && "Dead" in wanted then
      && !("is_finished" in status && status["is_finished"] == Bool(true))
      && Count(status, "total_seeds", 0) && Count(status, "total_peers", 0)
    else if key == "keyword" then forall search | search in wanted :: Finds(w, status, search)
    else if key == "name" then
      exists text, part :: Field(status, "name", text) && part in wanted && Occurs(w.lower(part), w.lower(text))
    else exists text :: Field(status, key, text) && text in wanted
  }

  // ------------------------------------------------- the code says the same

  lemma ContainsIff(text: string, part: string)
    ensures Contains(text, part) <==> Occurs(part, text)
  {
    if Contains(text, part) {
      var i :| 0 <= i <= |text| && part <= text[i..];
      assert text == text[..i] + part + text[i + |part|..];
    }
    if Occurs(part, text) {
      var before, behind :| text == before + part + behind;
      assert part <= text[|before|..];
    }
  }

  ghost predicate FirstTerm(search: string, term: string) {
    exists j: nat :: Stretch(search, 0, j, term)
  }

  ghost predicate LaterTerm(search: string, term: string) {
    exists i: nat, j: nat :: i > 0 && Stretch(search, i, j, term)
  }

  lemma NoComma(search: string, i: nat, j: nat, term: string)
    requires Stretch(search, i, j, term)
    ensures forall k | i <= k < j :: search[k] != ','
  {
    forall k | i <= k < j
      ensures search[k] != ','
    {
      assert search[i..j][k - i] == search[k];
    }
  }

  lemma StretchMoves(search: string, i: nat, j: nat, term: string)
    requires search != "" && i <= j && (i > 0 || search[0] == ',')
    ensures Stretch(search, i + 1, j + 1, term) <==> Stretch(search[1..], i, j, term)
  {
    if j < |search| {
      assert search[1..][i..j] == search[i + 1..j + 1];
    }
  }

  lemma FirstBehindComma(search: string, term: string)
    requires search != "" && search[0] == ','
    ensures FirstTerm(search, term) <==> term == ""
  {
    assert Stretch(search, 0, 0, "");
    forall j: nat | Stretch(search, 0, j, term)
      ensures term == ""
    {
      NoComma(search, 0, j, term);
    }
  }

  lemma FirstBehindOther(search: string, term: string)
    requires search != "" && search[0] != ','
    ensures FirstTerm(search, term) <==> term != "" && term[0] == search[0] && FirstTerm(search[1..], term[1..])
  {
    var tail := search[1..];
    forall j: nat | Stretch(search, 0, j, term)
      ensures term != "" && term[0] == search[0] && Stretch(tail, 0, j - 1, term[1..])
    {
      assert tail[0..j - 1] == term[1..];
    }
    if term != "" && term[0] == search[0] {
      forall j: nat | Stretch(tail, 0, j, term[1..])
        ensures Stretch(search, 0, j + 1, term)
      {
        assert search[0..j + 1] == [search[0]] + tail[0..j] == term;
      }
    }
  }

  lemma LaterBehindComma(search: string, term: string)
    requires search != "" && search[0] == ','
    ensures LaterTerm(search, term) <==> FirstTerm(search[1..], term) || LaterTerm(search[1..], term)
  {
    forall i: nat, j: nat | Stretch(search[1..], i, j, term)
      ensures Stretch(search, i + 1, j + 1, term)
    {
      StretchMoves(search, i, j, term);
    }
    forall i: nat, j: nat | i > 0 && Stretch(search, i, j, term)
      ensures Stretch(search[1..], i - 1, j - 1, term)
    {
      StretchMoves(search, i - 1, j - 1, term);
    }
    hide Stretch;
  }

  lemma LaterBehindOther(search: string, term: string)
    requires search != "" && search[0] != ','
    ensures LaterTerm(search, term) <==> LaterTerm(search[1..], term)
  {
    forall i: nat, j: nat | i > 0 && Stretch(search[1..], i, j, term)
      ensures Stretch(search, i + 1, j + 1, term)
    {
      StretchMoves(search, i, j, term);
    }
    forall i: nat, j: nat | i > 0 && Stretch(search, i, j, term)
      ensures i > 1 && Stretch(search[1..], i - 1, j - 1, term)
    {
      assert i > 1;
      StretchMoves(search, i - 1, j - 1, term);
    }
    hide Stretch;
  }

  lemma NothingToSplit(term: string)
    ensures FirstTerm("", term) <==> term == ""
    ensures !LaterTerm("", term)
  {
    assert Stretch("", 0, 0, "");
  }

  /** The first piece of a split is the stretch from the start, the others are those from behind a comma. */
  lemma {:induction false} SplitIff(search: string, term: string)
    ensures SplitOnComma(search)[0] == term <==> FirstTerm(search, term)
    ensures term in SplitOnComma(search)[1..] <==> LaterTerm(search, term)
  {
    hide FirstTerm, LaterTerm;
    if search == "" {
      NothingToSplit(term);
    } else {
      var tail, pieces := search[1..], SplitOnComma(search[1..]);
      assert pieces == [pieces[0]] + pieces[1..];
      SplitIff(tail, term);
      if search[0] == ',' {
        FirstBehindComma(search, term);
        LaterBehindComma(search, term);
      } else {
        FirstBehindOther(search, term);
        LaterBehindOther(search, term);
        if term != "" {
          SplitIff(tail, term[1..]);
        }
      }
    }
  }

  lemma TermsIff(search: string, term: string)
    ensures term in SplitOnComma(search) <==> IsTerm(search, term)
  {
    SplitIff(search, term);
    var pieces := SplitOnComma(search);
    assert pieces == [pieces[0]] + pieces[1..];
    hide Stretch;
  }

  lemma KeywordIff(w: Words, status: StatusMap, term: string)
    ensures MatchesKeyword(w, status, term) <==> Mentions(w, status, term)
  {
    hide Contains, Occurs;
    assert SEARCHED == ["name", "state", "tracker_host", "tracker", "tracker_status", "label", "hash"];
    if MatchesKeyword(w, status, term) {
      var i :| 0 <= i < |SEARCHED| && TextIn(status, SEARCHED[i]).Just? && Contains(w.lower(TextIn(status, SEARCHED[i]).value), term);
      var text := TextIn(status, SEARCHED[i]).value;
      ContainsIff(w.lower(text), term);
      assert Field(status, SEARCHED[i], text);
    }
    if Mentions(w, status, term) {
      var key, text :| key in SEARCHED && Field(status, key, text) && Occurs(term, w.lower(text));
      ContainsIff(w.lower(text), term);
      var i :| 0 <= i < |SEARCHED| && SEARCHED[i] == key;
    }
  }

  lemma FindsIff(w: Words, status: StatusMap, search: string)
    ensures MatchesTerms(w, status, search) <==> Finds(w, status, search)
  {
    hide MatchesKeyword, Mentions, SplitOnComma, IsTerm;
    var terms := SplitOnComma(search);
    forall term
      ensures term in terms <==> IsTerm(search, term)
      ensures MatchesKeyword(w, status, w.lower(w.trim(term))) <==> Mentions(w, status, w.lower(w.trim(term)))
    {
      TermsIff(search, term);
      KeywordIff(w, status, w.lower(w.trim(term)));
    }
  }

  lemma UnregisteredIff(w: Words, text: string)
    ensures SaysUnregistered(w, text) <==> Unregistered(w, text)
  {
    hide Contains, Occurs;
    var lower := w.lower(text);
    forall part
      ensures Contains(lower, part) <==> Occurs(part, lower)
    {
      ContainsIff(lower, part);
    }
    assert GONE == ["unregistered", "not registered", "torrent not found", "unknown torrent",
                    "info hash not found", "infohash not found"];
    if Unregistered(w, text) {
      assert Contains(lower, GONE[0]) || Contains(lower, GONE[1]) || Contains(lower, GONE[2])
             || Contains(lower, GONE[3]) || Contains(lower, GONE[4]) || Contains(lower, GONE[5]);
    }
  }

  lemma NameIff(w: Words, status: StatusMap, wanted: seq<string>)
    ensures (TextIn(status, "name").Just?
             && exists i | 0 <= i < |wanted| :: Contains(w.lower(TextIn(status, "name").value), w.lower(wanted[i])))
       <==> (exists text, part :: Field(status, "name", text) && part in wanted && Occurs(w.lower(part), w.lower(text)))
  {
    hide Contains, Occurs;
    if TextIn(status, "name").Just? {
      var text := TextIn(status, "name").value;
      forall part: string
        ensures Contains(w.lower(text), w.lower(part)) <==> Occurs(w.lower(part), w.lower(text))
      {
        ContainsIff(w.lower(text), w.lower(part));
      }
      assert Field(status, "name", text);
    }
  }

  /** One key of a filter matches exactly when what it asks is so. */
  lemma AsksIff(w: Words, status: StatusMap, key: string, wanted: seq<string>)
    ensures MatchesOne(w, status, key, wanted) <==> Asks(w, status, key, wanted)
  {
    hide MatchesTerms, Finds, SaysUnregistered, Unregistered, Contains, Occurs;
    if "All" in wanted {
    } else if key == "state" && "Active" in wanted {
      RatesIff(status);
    } else if key == "state" && "Unregistered" in wanted {
      if TextIn(status, "tracker_status").Just? {
        var text := TextIn(status, "tracker_status").value;
        UnregisteredIff(w, text);
        assert Field(status, "tracker_status", text);
      }
    } else if key == "state" && "Dead" in wanted {
    } else if key == "keyword" {
      forall search
        ensures MatchesTerms(w, status, search) <==> Finds(w, status, search)
      {
        FindsIff(w, status, search);
      }
    } else if key == "name" {
      NameIff(w, status, wanted);
    } else if TextIn(status, key).Just? {
      assert Field(status, key, TextIn(status, key).value);
    }
  }

  lemma RatesIff(status: StatusMap)
    ensures (NumberIn(status, "download_payload_rate", 0) > 0 || NumberIn(status, "upload_payload_rate", 0) > 0)
       <==> (exists n :: n > 0 && (Count(status, "download_payload_rate", n) || Count(status, "upload_payload_rate", n)))
  {
    var down, up := NumberIn(status, "download_payload_rate", 0), NumberIn(status, "upload_payload_rate", 0);
    assert down > 0 ==> Count(status, "download_payload_rate", down);
    assert up > 0 ==> Count(status, "upload_payload_rate", up);
  }

  // ------------------------------------------------------------ the answers

  /** A filter as a client writes it: a dictionary of lists of text. */
  function Written(pairs: Pairs): Value {
    Dict(seq(|pairs|, i requires 0 <= i < |pairs| => (Str(pairs[i].0), List(Texts(pairs[i].1)))))
  }

  function Texts(values: seq<string>): seq<Value> {
    seq(|values|, i requires 0 <= i < |values| => Str(values[i]))
  }

  lemma {:induction false} TextsRead(values: seq<string>)
    ensures StringsOf(Texts(values)) == values
  {
    if values != [] {
      TextsRead(values[1..]);
      assert Texts(values)[1..] == Texts(values[1..]);
    }
  }

  lemma {:induction false} WrittenIsRead(pairs: Pairs)
    ensures FilterPairs(Just(Written(pairs))) == pairs
  {
    if pairs != [] {
      WrittenIsRead(pairs[1..]);
      TextsRead(pairs[0].1);
      assert Written(pairs).entries[1..] == Written(pairs[1..]).entries;
      hide StringsOf;
    }
  }

  ghost predicate AsksAll(w: Words, status: StatusMap, pairs: Pairs) {
    forall i | 0 <= i < |pairs| :: Asks(w, status, pairs[i].0, pairs[i].1)
  }

  /** The rows that are to be listed, in order. */
  ghost function Chosen(rows: seq<Row>, wants: StatusMap -> bool, keys: Option<seq<string>>): seq<(string, Answer)> {
    if rows == [] then []
    else
      var last := rows[|rows| - 1];
      Chosen(rows[..|rows| - 1], wants, keys) + if wants(last.1) then [(last.0, Filtered(last.1, keys))] else []
  }

  /** Whatever is asked for, the rows answered are exactly those all of whose conditions hold. */
  lemma {:induction false} AnswerIs(w: Words, rows: seq<Row>, pairs: Pairs, keys: Option<seq<string>>, wants: StatusMap -> bool)
    requires forall status :: wants(status) <==> AsksAll(w, status, pairs)
    ensures OnlyWanted(w, rows, FilterPairs(Just(Written(pairs))), keys) == Chosen(rows, wants, keys)
  {
    WrittenIsRead(pairs);
    hide FilterPairs, Written, Asks, MatchesOne, Filtered;
    if rows != [] {
      var front, last := rows[..|rows| - 1], rows[|rows| - 1];
      AnswerIs(w, front, pairs, keys, wants);
      forall i | 0 <= i < |pairs|
        ensures MatchesOne(w, last.1, pairs[i].0, pairs[i].1) <==> Asks(w, last.1, pairs[i].0, pairs[i].1)
      {
        AsksIff(w, last.1, pairs[i].0, pairs[i].1);
      }
    }
  }

  ghost function Searched(w: Words, search: string): StatusMap -> bool {
    (status: StatusMap) => search == "All" || Finds(w, status, search)
  }

  ghost function Named(w: Words, wanted: seq<string>): StatusMap -> bool {
    (status: StatusMap) =>
      "All" in wanted || exists text, part :: Field(status, "name", text) && part in wanted && Occurs(w.lower(part), w.lower(text))
  }

  ghost function OneOf(key: string, wanted: seq<string>): StatusMap -> bool {
    (status: StatusMap) => "All" in wanted || exists text :: Field(status, key, text) && text in wanted
  }

  lemma OneCondition(w: Words, status: StatusMap, key: string, wanted: seq<string>)
    ensures AsksAll(w, status, [(key, wanted)]) <==> Asks(w, status, key, wanted)
  {
    hide Asks;
    var pairs := [(key, wanted)];
    assert pairs[0].0 == key && pairs[0].1 == wanted;
  }

  /** The quick search: a row is listed when every term that is not blank occurs in one of its seven fields. */
  lemma SearchAnswer(w: Words, rows: seq<Row>, search: string, keys: Option<seq<string>>)
    ensures OnlyWanted(w, rows, FilterPairs(Just(Written([("keyword", [search])]))), keys)
         == Chosen(rows, Searched(w, search), keys)
  {
    hide OnlyWanted, Chosen, Finds, FilterPairs, Written, AsksAll;
    forall status
      ensures Searched(w, search)(status) <==> AsksAll(w, status, [("keyword", [search])])
    {
      OneCondition(w, status, "keyword", [search]);
    }
    AnswerIs(w, rows, [("keyword", [search])], keys, Searched(w, search));
  }

  /** The name filter: any of the wanted parts occurs in the name. */
  lemma NameAnswer(w: Words, rows: seq<Row>, wanted: seq<string>, keys: Option<seq<string>>)
    ensures OnlyWanted(w, rows, FilterPairs(Just(Written([("name", wanted)]))), keys) == Chosen(rows, Named(w, wanted), keys)
  {
    hide OnlyWanted, Chosen, FilterPairs, Written, Occurs, AsksAll;
    forall status
      ensures Named(w, wanted)(status) <==> AsksAll(w, status, [("name", wanted)])
    {
      OneCondition(w, status, "name", wanted);
    }
    AnswerIs(w, rows, [("name", wanted)], keys, Named(w, wanted));
  }

  /** Any other key: the value is one of those wanted. */
  lemma PlainAnswer(w: Words, rows: seq<Row>, key: string, wanted: seq<string>, keys: Option<seq<string>>)
    requires key != "state" && key != "keyword" && key != "name"
    ensures OnlyWanted(w, rows, FilterPairs(Just(Written([(key, wanted)]))), keys) == Chosen(rows, OneOf(key, wanted), keys)
  {
    hide OnlyWanted, Chosen, FilterPairs, Written, AsksAll;
    forall status
      ensures OneOf(key, wanted)(status) <==> AsksAll(w, status, [(key, wanted)])
    {
      OneCondition(w, status, key, wanted);
    }
    AnswerIs(w, rows, [(key, wanted)], keys, OneOf(key, wanted));
  }

  // ----------------------------------------------------------- and, or more

  lemma TermsJoin(a: string, b: string, term: string)
    ensures IsTerm(a + "," + b, term) <==> IsTerm(a, term) || IsTerm(b, term)
  {
    var both := a + "," + b;
    assert both[|a|] == ',' && both[..|a|] == a && both[|a| + 1..] == b;
    forall i: nat, j: nat | Stretch(a, i, j, term)
      ensures IsTerm(both, term)
    {
      assert both[i..j] == a[i..j];
      assert Stretch(both, i, j, term);
    }
    forall i: nat, j: nat | Stretch(b, i, j, term)
      ensures IsTerm(both, term)
    {
      assert both[|a| + 1 + i..|a| + 1 + j] == b[i..j];
      assert Stretch(both, |a| + 1 + i, |a| + 1 + j, term);
    }
    forall i: nat, j: nat | Stretch(both, i, j, term)
      ensures IsTerm(a, term) || IsTerm(b, term)
    {
      if j <= |a| {
        assert a[i..j] == both[i..j];
        assert Stretch(a, i, j, term);
      } else {
        NoComma(both, i, j, term);
        var k, l := i - |a| - 1, j - |a| - 1;
        assert b[k..l] == both[i..j];
        assert Stretch(b, k, l, term);
      }
    }
  }

  /** Two searches with a comma between them find what both find: a term more never lists more. */
  lemma CommaIsAnd(w: Words, status: StatusMap, a: string, b: string)
    ensures Finds(w, status, a + "," + b) <==> Finds(w, status, a) && Finds(w, status, b)
  {
    hide IsTerm, Mentions;
    forall term
      ensures IsTerm(a + "," + b, term) <==> IsTerm(a, term) || IsTerm(b, term)
    {
      TermsJoin(a, b, term);
    }
  }

  /** A search with a term that is in no field finds nothing. */
  lemma NowhereIsNothing(w: Words, status: StatusMap, search: string, term: string)
    requires IsTerm(search, term) && w.trim(term) != "" && !Mentions(w, status, w.lower(w.trim(term)))
    ensures !Finds(w, status, search)
  {
    hide IsTerm, Mentions;
  }

  // -------------------------------------------------------- what is sent of it

  /** The fields sent: those asked for that there are, each once, with their values, in the order first asked for. */
  ghost predicate Sent(status: StatusMap, wanted: seq<string>, fields: seq<(string, Value)>) {
    AskedFor(status, wanted, fields) && AllThere(status, wanted, fields) && InOrder(wanted, fields)
  }

  predicate AskedFor(status: StatusMap, wanted: seq<string>, fields: seq<(string, Value)>) {
    forall i | 0 <= i < |fields| :: fields[i].0 in wanted && fields[i].0 in status && status[fields[i].0] == fields[i].1
  }

  predicate AllThere(status: StatusMap, wanted: seq<string>, fields: seq<(string, Value)>) {
    forall key | key in wanted && key in status :: exists i | 0 <= i < |fields| :: fields[i].0 == key
  }

  ghost predicate InOrder(wanted: seq<string>, fields: seq<(string, Value)>) {
    forall i, j | 0 <= i < j < |fields| :: IsBefore(wanted, fields[i].0, fields[j].0)
  }

  /** One key is asked for before another ever is. */
  ghost predicate IsBefore(wanted: seq<string>, key: string, other: string) {
    exists i | 0 <= i < |wanted| :: wanted[i] == key && forall j | 0 <= j <= i :: wanted[j] != other
  }

  lemma IsBeforeLater(first: string, rest: seq<string>, key: string, other: string)
    requires first != other && IsBefore(rest, key, other)
    ensures IsBefore([first] + rest, key, other)
  {
    var wanted := [first] + rest;
    var i :| 0 <= i < |rest| && rest[i] == key && forall j | 0 <= j <= i :: rest[j] != other;
    assert wanted[i + 1] == key;
    forall j | 0 <= j <= i + 1
      ensures wanted[j] != other
    {
      assert j > 0 ==> rest[j - 1] == wanted[j];
    }
  }

  lemma MissingIsPassedOver(status: StatusMap, key: string, rest: seq<string>, later: seq<(string, Value)>)
    requires key !in status && Sent(status, rest, later)
    ensures Sent(status, [key] + rest, later)
  {
    forall i, j | 0 <= i < j < |later|
      ensures IsBefore([key] + rest, later[i].0, later[j].0)
    {
      IsBeforeLater(key, rest, later[i].0, later[j].0);
    }
    hide IsBefore;
  }

  lemma OneMoreAsked(status: StatusMap, key: string, rest: seq<string>, later: seq<(string, Value)>)
    requires key in status && AskedFor(status - {key}, rest, later)
    ensures AskedFor(status, [key] + rest, [(key, status[key])] + later)
  {
    var fields := [(key, status[key])] + later;
    forall i | 0 <= i < |fields|
      ensures fields[i].0 in [key] + rest && fields[i].0 in status && status[fields[i].0] == fields[i].1
    {
      assert i > 0 ==> fields[i] == later[i - 1];
    }
  }

  lemma OneMoreThere(status: StatusMap, key: string, rest: seq<string>, later: seq<(string, Value)>)
    requires key in status && AllThere(status - {key}, rest, later)
    ensures AllThere(status, [key] + rest, [(key, status[key])] + later)
  {
    var fields := [(key, status[key])] + later;
    forall other | other in [key] + rest && other in status
      ensures exists i | 0 <= i < |fields| :: fields[i].0 == other
    {
      if other == key {
        assert fields[0].0 == other;
      } else {
        assert other in status - {key};
        var i :| 0 <= i < |later| && later[i].0 == other;
        assert fields[i + 1].0 == other;
      }
    }
  }

  lemma OneMoreInOrder(status: StatusMap, key: string, rest: seq<string>, later: seq<(string, Value)>)
    requires key in status && AskedFor(status - {key}, rest, later) && InOrder(rest, later)
    ensures InOrder([key] + rest, [(key, status[key])] + later)
  {
    var wanted, fields := [key] + rest, [(key, status[key])] + later;
    forall i, j | 0 <= i < j < |fields|
      ensures IsBefore(wanted, fields[i].0, fields[j].0)
    {
      assert fields[j] == later[j - 1];
      if i == 0 {
        assert wanted[0] == key;
      } else {
        assert fields[i] == later[i - 1];
        IsBeforeLater(key, rest, later[i - 1].0, later[j - 1].0);
      }
    }
  }

  lemma ThereIsSentOnce(status: StatusMap, key: string, rest: seq<string>, later: seq<(string, Value)>)
    requires key in status && Sent(status - {key}, rest, later)
    ensures Sent(status, [key] + rest, [(key, status[key])] + later)
  {
    hide AskedFor, AllThere, InOrder;
    OneMoreAsked(status, key, rest, later);
    OneMoreThere(status, key, rest, later);
    OneMoreInOrder(status, key, rest, later);
  }

  lemma {:induction false} PickedAreSent(status: StatusMap, wanted: seq<string>)
    ensures Sent(status, wanted, PickedFrom(status, wanted))
  {
    hide Sent;
    if wanted == [] {
      NothingSent(status);
    } else {
      var key, rest := wanted[0], wanted[1..];
      assert wanted == [key] + rest;
      if key in status {
        PickedAreSent(status - {key}, rest);
        ThereIsSentOnce(status, key, rest, PickedFrom(status - {key}, rest));
      } else {
        PickedAreSent(status, rest);
        MissingIsPassedOver(status, key, rest, PickedFrom(status, rest));
      }
    }
  }

  lemma NothingSent(status: StatusMap)
    ensures Sent(status, [], PickedFrom(status, []))
  {
  }

  // ------------------------------------------------------------ of a library

  /** The name a torrent goes by: its own if it was given one, else libtorrent's, else its infohash. */
  function ShownName(k: Known): string {
    match k.torrent.name
    case Just(name) => if name != "" then name else if k.status.name != "" then k.status.name else k.torrent.id
    case Nothing => if k.status.name != "" then k.status.name else k.torrent.id
  }

  /** The tracker announced to, or the first listed. */
  function ShownTracker(k: Known): string {
    if k.status.currentTracker != "" then k.status.currentTracker
    else if k.trackers != [] then k.trackers[0].url else ""
  }

  /** The seven texts a search looks in. */
  function TextsOf(w: Words, k: Known, sessionPaused: bool): map<string, string> {
    map["name" := ShownName(k),
        "state" := Derive(k.status.flags, sessionPaused, k.torrent.forcedError).Name(),
        "tracker_host" := w.hostOf(ShownTracker(k)),
        "tracker" := ShownTracker(k),
        "tracker_status" := k.torrent.trackerStatus,
        "label" := k.torrent.labelled,
        "hash" := k.torrent.id]
  }

  lemma OwnFields(w: Words, t: Torrent, s: LtStatus, sessionPaused: bool, current: string, trackers: seq<TrackerEntry>)
    ensures var status := FullStatus(w, t, s, sessionPaused, current, trackers);
            && Field(status, "name", t.DisplayName(s)) && Field(status, "label", t.labelled) && Field(status, "hash", t.id)
            && Field(status, "state", Derive(s.flags, sessionPaused, t.forcedError).Name())
  {
    hide Urls, Derive;
  }

  lemma TrackerFields(w: Words, t: Torrent, s: LtStatus, sessionPaused: bool, current: string, trackers: seq<TrackerEntry>)
    ensures var status := FullStatus(w, t, s, sessionPaused, current, trackers);
            && Field(status, "tracker", current) && Field(status, "tracker_host", w.hostOf(current))
            && Field(status, "tracker_status", t.trackerStatus)
  {
    hide Urls, Derive;
  }

  /** The fields no search looks in: where a finished torrent goes, its owner, its countdowns and its trackers. */
  lemma OtherFields(w: Words, t: Torrent, s: LtStatus, sessionPaused: bool, current: string, trackers: seq<TrackerEntry>)
    ensures var status, path := FullStatus(w, t, s, sessionPaused, current, trackers), if t.movePath.Just? then t.movePath.value else s.savePath;
            && Field(status, "move_completed_path", path) && Field(status, "move_on_completed_path", path)
            && Field(status, "owner", t.owner) && Count(status, "total_seeds", s.numComplete) && Count(status, "total_peers", s.numIncomplete)
            && "tracker_move_at" in status && status["tracker_move_at"] == w.countdowns(t, s, w.hostOf(current)).0
            && "tracker_remove_at" in status && status["tracker_remove_at"] == w.countdowns(t, s, w.hostOf(current)).1
            && "trackers" in status && status["trackers"].List? && |status["trackers"].items| == |trackers|
            && forall i | 0 <= i < |trackers| ::
                 status["trackers"].items[i] == Dict([(Str("url"), Str(trackers[i].url)), (Str("tier"), Int(trackers[i].tier))])
  {
    hide Derive;
  }

  lemma SevenFields(w: Words, k: Known, sessionPaused: bool)
    ensures var status, texts := StatusRow(w, k, sessionPaused, All).1, TextsOf(w, k, sessionPaused);
            forall key | key in texts :: key in status && status[key] == Str(texts[key])
  {
    var current := ShownTracker(k);
    OwnFields(w, k.torrent, k.status, sessionPaused, current, k.trackers);
    TrackerFields(w, k.torrent, k.status, sessionPaused, current, k.trackers);
    hide FullStatus, Derive;
    assert StatusRow(w, k, sessionPaused, All).1 == FullStatus(w, k.torrent, k.status, sessionPaused, current, k.trackers);
  }

  ghost predicate FindsTorrent(w: Words, k: Known, sessionPaused: bool, search: string) {
    forall term | IsTerm(search, term) && w.trim(term) != "" ::
      exists text | text in TextsOf(w, k, sessionPaused).Values :: Occurs(w.lower(w.trim(term)), w.lower(text))
  }

  lemma MentionsIff(w: Words, k: Known, sessionPaused: bool, term: string)
    ensures Mentions(w, StatusRow(w, k, sessionPaused, All).1, term)
       <==> exists text | text in TextsOf(w, k, sessionPaused).Values :: Occurs(term, w.lower(text))
  {
    var status, texts := StatusRow(w, k, sessionPaused, All).1, TextsOf(w, k, sessionPaused);
    SevenFields(w, k, sessionPaused);
    hide StatusRow, Occurs, Derive;
    if Mentions(w, status, term) {
      var key, text :| key in texts && Field(status, key, text) && Occurs(term, w.lower(text));
      assert texts[key] == text;
    }
    if exists text | text in texts.Values :: Occurs(term, w.lower(text)) {
      var text :| text in texts.Values && Occurs(term, w.lower(text));
      var key :| key in texts && texts[key] == text;
      assert Field(status, key, text);
    }
  }

  lemma FindsTorrentIff(w: Words, k: Known, sessionPaused: bool, search: string)
    ensures Finds(w, StatusRow(w, k, sessionPaused, All).1, search) <==> FindsTorrent(w, k, sessionPaused, search)
  {
    hide StatusRow, Occurs, IsTerm, TextsOf, Mentions;
    forall term
      ensures Mentions(w, StatusRow(w, k, sessionPaused, All).1, term)
         <==> exists text | text in TextsOf(w, k, sessionPaused).Values :: Occurs(term, w.lower(text))
    {
      MentionsIff(w, k, sessionPaused, term);
    }
  }

  /** The infohashes of an answer, and of the torrents a search finds, in order. */
  function Ids(answer: seq<(string, Answer)>): seq<string> {
    seq(|answer|, i requires 0 <= i < |answer| => answer[i].0)
  }

  ghost function Found(w: Words, library: seq<Known>, sessionPaused: bool, search: string): seq<string> {
    if library == [] then []
    else
      var last := library[|library| - 1];
      Found(w, library[..|library| - 1], sessionPaused, search)
      + if search == "All" || FindsTorrent(w, last, sessionPaused, search) then [last.torrent.id] else []
  }

  lemma {:induction false} ChosenAreFound(
    w: Words, library: seq<Known>, sessionPaused: bool, search: string, keys: Option<seq<string>>)
    ensures Ids(Chosen(StatusRows(w, library, sessionPaused, All), Searched(w, search), keys)) == Found(w, library, sessionPaused, search)
  {
    hide StatusRow, Finds, FindsTorrent, Filtered;
    if library != [] {
      var front, last := library[..|library| - 1], library[|library| - 1];
      ChosenAreFound(w, front, sessionPaused, search, keys);
      RowsSnoc(w, library, sessionPaused, All);
      RowId(w, last, sessionPaused);
      FindsTorrentIff(w, last, sessionPaused, search);
    }
  }

  lemma RowId(w: Words, k: Known, sessionPaused: bool)
    ensures StatusRow(w, k, sessionPaused, All).0 == k.torrent.id
  {
  }

  /**
   What the search box finds, from the key set to the answer: for every library, search and list of
   columns, the torrents with each term in one of their seven texts, and no others, in order, as
   long as no stale cached tracker is read.
   */
  lemma SearchFinds(w: Words, library: seq<Known>, sessionPaused: bool, search: string, keys: Option<seq<string>>)
    requires var filter := Just(Written([("keyword", [search])]));
             forall i | 0 <= i < |library| :: Harmless(library[i], KeysFor(keys, filter))
    ensures var filter := Just(Written([("keyword", [search])]));
            Ids(OnlyWanted(w, StatusRows(w, library, sessionPaused, KeysFor(keys, filter)), FilterPairs(filter), keys))
            == Found(w, library, sessionPaused, search)
  {
    hide *;
    var filter := Just(Written([("keyword", [search])]));
    PushdownKeepsAnswer(w, library, sessionPaused, filter, keys);
    SearchAnswer(w, StatusRows(w, library, sessionPaused, All), search, keys);
    ChosenAreFound(w, library, sessionPaused, search, keys);
  }
}
