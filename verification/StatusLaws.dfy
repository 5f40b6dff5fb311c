/** Building only what is wanted answers as building everything would. */
module StatusLaws {
  import opened Bytes
  import opened TrackerCache
  import opened Status

  /** Two statuses no reader of these keys can tell apart. */
  predicate AgreeOn(a: StatusMap, b: StatusMap, names: set<string>) {
    forall key | key in names :: (key in a <==> key in b) && (key in a ==> a[key] == b[key])
  }

  lemma AgreeOnFewer(a: StatusMap, b: StatusMap, names: set<string>, fewer: set<string>)
    requires AgreeOn(a, b, names) && fewer <= names
    ensures AgreeOn(a, b, fewer)
  {
  }

  lemma SameKeyword(w: Words, a: StatusMap, b: StatusMap, term: string)
    requires AgreeOn(a, b, ToSet(SEARCHED))
    ensures MatchesKeyword(w, a, term) == MatchesKeyword(w, b, term)
  {
    hide Contains;
    forall i | 0 <= i < |SEARCHED|
      ensures TextIn(a, SEARCHED[i]) == TextIn(b, SEARCHED[i])
    {
      assert SEARCHED[i] in ToSet(SEARCHED);
    }
  }

  lemma SameTerms(w: Words, a: StatusMap, b: StatusMap, value: string)
    requires AgreeOn(a, b, ToSet(SEARCHED))
    ensures MatchesTerms(w, a, value) == MatchesTerms(w, b, value)
  {
    hide MatchesKeyword, AgreeOn;
    var terms := SplitOnComma(value);
    forall i | 0 <= i < |terms|
      ensures MatchesKeyword(w, a, w.lower(w.trim(terms[i]))) == MatchesKeyword(w, b, w.lower(w.trim(terms[i])))
    {
      SameKeyword(w, a, b, w.lower(w.trim(terms[i])));
    }
  }

  lemma StateNeedsSix()
    ensures forall key | key in ["download_payload_rate", "upload_payload_rate", "tracker_status", "total_seeds", "total_peers", "is_finished"] ::
              key in Needs("state")
  {
    forall i | 0 <= i < |STATE_NEEDS|
      ensures STATE_NEEDS[i] in Needs("state")
    {
    }
    assert STATE_NEEDS[0] == "download_payload_rate" && STATE_NEEDS[1] == "upload_payload_rate";
    assert STATE_NEEDS[2] == "tracker_status" && STATE_NEEDS[3] == "total_seeds";
    assert STATE_NEEDS[4] == "total_peers" && STATE_NEEDS[5] == "is_finished";
  }

  lemma SameStates(w: Words, a: StatusMap, b: StatusMap, wanted: seq<string>)
    requires AgreeOn(a, b, Needs("state"))
    ensures MatchesOne(w, a, "state", wanted) == MatchesOne(w, b, "state", wanted)
  {
    hide MatchesTerms, SaysUnregistered, Contains;
    StateNeedsSix();
    var six := ["download_payload_rate", "upload_payload_rate", "tracker_status", "total_seeds", "total_peers", "is_finished"];
    assert six[0] in six && six[1] in six && six[2] in six && six[3] in six && six[4] in six && six[5] in six;
    assert "state" in Needs("state");
    hide Needs;
    assert IsDeadSwarm(a) == IsDeadSwarm(b);
    assert TextIn(a, "tracker_status") == TextIn(b, "tracker_status") && TextIn(a, "state") == TextIn(b, "state");
    hide IsDeadSwarm;
  }

  /** A filter on a key reads no more of a status than its needs. */
  lemma SameMatch(w: Words, a: StatusMap, b: StatusMap, key: string, wanted: seq<string>)
    requires AgreeOn(a, b, Needs(key))
    ensures MatchesOne(w, a, key, wanted) == MatchesOne(w, b, key, wanted)
  {
    hide MatchesTerms, SaysUnregistered, Contains;
    if key == "keyword" {
      forall i | 0 <= i < |wanted|
        ensures MatchesTerms(w, a, wanted[i]) == MatchesTerms(w, b, wanted[i])
      {
        SameTerms(w, a, b, wanted[i]);
      }
    } else if key == "state" {
      SameStates(w, a, b, wanted);
    }
  }

  lemma {:induction false} NeedsAreIn(pairs: Pairs, i: nat)
    requires i < |pairs|
    ensures Needs(pairs[i].0) <= AllNeeds(pairs)
  {
    if i > 0 {
      NeedsAreIn(pairs[1..], i - 1);
    }
  }

  lemma SameFilter(w: Words, a: StatusMap, b: StatusMap, pairs: Pairs)
    requires AgreeOn(a, b, AllNeeds(pairs))
    ensures MatchesFilter(w, a, pairs) == MatchesFilter(w, b, pairs)
  {
    hide MatchesOne, AgreeOn, Needs;
    forall i | 0 <= i < |pairs|
      ensures MatchesOne(w, a, pairs[i].0, pairs[i].1) == MatchesOne(w, b, pairs[i].0, pairs[i].1)
    {
      NeedsAreIn(pairs, i);
      AgreeOnFewer(a, b, AllNeeds(pairs), Needs(pairs[i].0));
      SameMatch(w, a, b, pairs[i].0, pairs[i].1);
    }
  }

  lemma {:induction false} SamePicked(a: StatusMap, b: StatusMap, wanted: seq<string>)
    requires AgreeOn(a, b, ToSet(wanted))
    ensures PickedFrom(a, wanted) == PickedFrom(b, wanted)
  {
    if wanted != [] {
      assert wanted[0] in ToSet(wanted);
      assert forall key | key in ToSet(wanted[1..]) :: key in ToSet(wanted);
      SamePicked(a, b, wanted[1..]);
      SamePicked(a - {wanted[0]}, b - {wanted[0]}, wanted[1..]);
    }
  }

  const TRACKER_KEYS: set<string> := {"tracker", "tracker_host", "tracker_move_at", "tracker_remove_at"}

  /** The list handed out is the session's, or nobody reads the fallback tracker, or what is cached of it is fresh. */
  predicate Harmless(k: Known, keys: KeySet) {
    || keys.Wants("trackers") || k.status.currentTracker != "" || Fresh(k.cached, k.trackers)
    || (forall key | key in TRACKER_KEYS :: !keys.Wants(key))
  }

  /** A row built for some keys is the full row, seen through the gate. */
  lemma RowIsRestricted(w: Words, k: Known, sessionPaused: bool, keys: KeySet)
    requires Harmless(k, keys)
    ensures StatusRow(w, k, sessionPaused, All).0 == StatusRow(w, k, sessionPaused, keys).0
    ensures StatusRow(w, k, sessionPaused, keys).1 == Restricted(StatusRow(w, k, sessionPaused, All).1, keys)
  {
    hide Urls, FullStatus;
    var announced := k.status.currentTracker;
    var list := Offered(announced, k.cached, k.trackers, keys.Wants("trackers"));
    OfferedAnswersAlike(announced, k.cached, k.trackers, keys.Wants("trackers"));
    OfferedAnswersAlike(announced, k.cached, k.trackers, true);
    var was, now := CurrentTracker(announced, k.trackers), CurrentTracker(announced, list);
    OnlyTrackersDiffer(w, k.torrent, k.status, sessionPaused, now, was, list, k.trackers, keys);
    var full := FullStatus(w, k.torrent, k.status, sessionPaused, was, k.trackers);
    assert Restricted(full, All) == full;
  }

  lemma OnlyTrackersDiffer(
    w: Words, t: Torrent, s: LtStatus, sessionPaused: bool, current: string, other: string,
    list: seq<TrackerEntry>, full: seq<TrackerEntry>, keys: KeySet)
    requires keys.Wants("trackers") ==> list == full
    requires current == other || forall key | key in TRACKER_KEYS :: !keys.Wants(key)
    ensures Restricted(FullStatus(w, t, s, sessionPaused, current, list), keys)
         == Restricted(FullStatus(w, t, s, sessionPaused, other, full), keys)
  {
    hide Urls;
    assert forall key | key in ["tracker", "tracker_host", "tracker_move_at", "tracker_remove_at"] :: key in TRACKER_KEYS;
  }

  /** Where the tracker itself is asked for, that is so in no other case: a stale URL does come through. */
  lemma RowIsRestrictedIff(w: Words, k: Known, sessionPaused: bool, keys: KeySet)
    requires keys.Wants("tracker")
    ensures StatusRow(w, k, sessionPaused, keys).1 == Restricted(StatusRow(w, k, sessionPaused, All).1, keys)
       <==> Harmless(k, keys)
  {
    if Harmless(k, keys) {
      RowIsRestricted(w, k, sessionPaused, keys);
    } else {
      hide Urls;
      var announced := k.status.currentTracker;
      OfferedAnswersAlike(announced, k.cached, k.trackers, false);
      assert "tracker" in TRACKER_KEYS;
      assert StatusRow(w, k, sessionPaused, keys).1["tracker"] == Str(CurrentTracker(announced, Offered(announced, k.cached, k.trackers, false)));
      assert Restricted(StatusRow(w, k, sessionPaused, All).1, keys)["tracker"] == Str(CurrentTracker(announced, k.trackers));
    }
  }

  /** What one row contributes to the answer, whichever way it was built. */
  lemma SameRow(w: Words, k: Known, sessionPaused: bool, filter: Option<Value>, keys: Option<seq<string>>)
    requires Harmless(k, KeysFor(keys, filter))
    ensures var a, b := StatusRow(w, k, sessionPaused, KeysFor(keys, filter)), StatusRow(w, k, sessionPaused, All);
            && a.0 == b.0
            && MatchesFilter(w, a.1, FilterPairs(filter)) == MatchesFilter(w, b.1, FilterPairs(filter))
            && Filtered(a.1, keys) == Filtered(b.1, keys)
  {
    hide StatusRow, FilterPairs, MatchesFilter, AllNeeds;
    RowIsRestricted(w, k, sessionPaused, KeysFor(keys, filter));
    if keys.Just? {
      var full := StatusRow(w, k, sessionPaused, All).1;
      var built := StatusRow(w, k, sessionPaused, KeysFor(keys, filter)).1;
      assert AgreeOn(built, full, AllNeeds(FilterPairs(filter)));
      SameFilter(w, built, full, FilterPairs(filter));
      SamePicked(built, full, keys.value);
    } else {
      assert Restricted(StatusRow(w, k, sessionPaused, All).1, All) == StatusRow(w, k, sessionPaused, All).1;
    }
  }

  /**
   Filter pushdown: for every library, filter and list of keys, building the wanted keys and
   the filter's needs, then filtering, then projecting, answers what building everything does.
   */
  lemma {:induction false} PushdownKeepsAnswer(
    w: Words, library: seq<Known>, sessionPaused: bool, filter: Option<Value>, keys: Option<seq<string>>)
    requires forall i | 0 <= i < |library| :: Harmless(library[i], KeysFor(keys, filter))
    ensures OnlyWanted(w, StatusRows(w, library, sessionPaused, KeysFor(keys, filter)), FilterPairs(filter), keys)
         == OnlyWanted(w, StatusRows(w, library, sessionPaused, All), FilterPairs(filter), keys)
  {
    hide StatusRow, FilterPairs, MatchesFilter, KeysFor, Filtered;
    if library != [] {
      var front, last := library[..|library| - 1], library[|library| - 1];
      PushdownKeepsAnswer(w, front, sessionPaused, filter, keys);
      SameRow(w, last, sessionPaused, filter, keys);
      RowsSnoc(w, library, sessionPaused, KeysFor(keys, filter));
      RowsSnoc(w, library, sessionPaused, All);
    }
  }

  lemma RowsSnoc(w: Words, library: seq<Known>, sessionPaused: bool, keys: KeySet)
    requires library != []
    ensures var rows := StatusRows(w, library, sessionPaused, keys);
            && |rows| == |library|
            && rows[..|rows| - 1] == StatusRows(w, library[..|library| - 1], sessionPaused, keys)
            && rows[|rows| - 1] == StatusRow(w, library[|library| - 1], sessionPaused, keys)
  {
  }

  /** Where no life of the walk has metadata pending, every cached tracker of it is fresh. */
  lemma {:induction false} NothingPendingIsFresh(
    torrents: map<string, Torrent>, statuses: seq<LtStatus>,
    session: map<string, seq<TrackerEntry>>, cached: map<string, string>, lives: map<string, seq<Event>>)
    requires AllLed(session, cached, lives)
    requires forall i | 0 <= i < |statuses| :: statuses[i].infoHash in session && !Pending(LifeIn(lives, statuses[i].infoHash))
    ensures AllFresh(LibraryOf(torrents, statuses, session, cached))
  {
    if statuses != [] {
      var id := statuses[|statuses| - 1].infoHash;
      NothingPendingIsFresh(torrents, statuses[..|statuses| - 1], session, cached, lives);
      assert After(LifeIn(lives, id)) == Just(HeldOf(session, cached, id));
      hide AllLed, After;
      StaleIffPending(LifeIn(lives, id));
    }
  }
}
