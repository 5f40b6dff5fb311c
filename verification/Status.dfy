/**
 The status query: which keys to build, the gate they are built through, the filter that is
 answered from them, and the projection that drops what nobody asked for.
 */
module Status {
  import opened Bytes
  import opened TrackerCache
  import opened TorrentState

  datatype Value =
    | Str(text: string)
    | Int(number: int)
    | Bool(flag: bool)
    | List(items: seq<Value>)
    | Dict(entries: seq<(Value, Value)>)
    | Other(tag: nat)
  {
    function AsStr(): Option<string> {
      if Str? then Just(text) else Nothing
    }
  }

  type StatusMap = map<string, Value>

  /** The text functions of the standard library, and the host a tracker URL is grouped under. */
  datatype Words = Words(
    lower: string -> string,
    trim: string -> string,
    hostOf: string -> string,
    countdowns: (Torrent, LtStatus, string) -> (Value, Value))

  // ----------------------------------------------------------------- keys

  datatype KeySet = All | Named(names: set<string>)
  {
    predicate Wants(key: string) {
      All? || key in names
    }
  }

  const SEARCHED: seq<string> := ["name", "state", "tracker_host", "tracker", "tracker_status", "label", "hash"]

  const STATE_NEEDS: seq<string> := [
    "download_payload_rate", "upload_payload_rate", "tracker_status", "total_seeds", "total_peers", "is_finished"]

  function ToSet(s: seq<string>): set<string> {
    set x | x in s
  }

  type Pairs = seq<(string, seq<string>)>

  function StringsOf(items: seq<Value>): seq<string> {
    if items == [] then []
    else (if items[0].Str? then [items[0].text] else []) + StringsOf(items[1..])
  }

  function PairsOf(entries: seq<(Value, Value)>): Pairs {
    if entries == [] then []
    else
      var (key, value) := entries[0];
      (if !key.Str? then []
       else if value.List? then [(key.text, StringsOf(value.items))]
       else if value.Str? then [(key.text, [value.text])]
       else []) + PairsOf(entries[1..])
  }

  function FilterPairs(filter: Option<Value>): Pairs {
    if filter.Just? && filter.value.Dict? then PairsOf(filter.value.entries) else []
  }

  /** What a filter on this key reads of a status. */
  function Needs(key: string): set<string> {
    if key == "keyword" then ToSet(SEARCHED)
    else if key == "state" then {"state"} + ToSet(STATE_NEEDS)
    else {key}
  }

  function AllNeeds(pairs: Pairs): set<string> {
    if pairs == [] then {} else Needs(pairs[0].0) + AllNeeds(pairs[1..])
  }

  function KeysFor(keys: Option<seq<string>>, filter: Option<Value>): KeySet {
    if keys.Nothing? then All else Named(ToSet(keys.value) + AllNeeds(FilterPairs(filter)))
  }

  lemma {:induction false} AllNeedsSplit(pairs: Pairs, i: nat)
    requires i < |pairs|
    ensures AllNeeds(pairs[..i + 1]) == AllNeeds(pairs[..i]) + Needs(pairs[i].0)
  {
    if i == 0 {
      assert pairs[..1] == [pairs[0]];
    } else {
      AllNeedsSplit(pairs[1..], i - 1);
      assert pairs[..i + 1][1..] == pairs[1..][..i] && pairs[..i][1..] == pairs[1..][..i - 1];
    }
  }

  method BuildKeySet(keys: Option<seq<string>>, filter: Option<Value>) returns (r: KeySet)
    ensures r == KeysFor(keys, filter)
  {
    if keys.Nothing? {
      return All;
    }
    var named := keys.value;
    var pairs := FilterPairs(filter);
    for i := 0 to |pairs|
      invariant ToSet(named) == ToSet(keys.value) + AllNeeds(pairs[..i])
    {
      var key := pairs[i].0;
      ghost var before := named;
      if key == "keyword" {
        named := named + SEARCHED;
      } else if key == "state" {
        named := named + [key];
        named := named + STATE_NEEDS;
      } else {
        named := named + [key];
      }
      assert ToSet(named) == ToSet(before) + Needs(key);
      AllNeedsSplit(pairs, i);
    }
    assert pairs[..|pairs|] == pairs;
    r := Named(ToSet(named));
  }

  // ------------------------------------------------------------ one status

  datatype LtStatus = LtStatus(
    infoHash: string,
    flags: LtFlags,
    name: string,
    savePath: string,
    isFinished: bool,
    downloadRate: int,
    uploadRate: int,
    numComplete: int,
    numIncomplete: int,
    currentTracker: string,
    addedTime: int,
    completedTime: int,
    nextAnnounce: int,
    amounts: Amounts)

  /** How much of a torrent is wanted, and what it has moved in its life. */
  datatype Amounts = Amounts(wanted: int, downloaded: int, uploaded: int)

  /** `others` are the status keys that depend neither on the tracker list nor on what is wanted. */
  datatype Torrent = Torrent(
    id: string,
    name: Option<string>,
    forcedError: bool,
    owner: string,
    labelled: string,
    trackerStatus: string,
    movePath: Option<string>,
    others: StatusMap)
  {
    function DisplayName(status: LtStatus): string {
      if name.Just? && name.value != "" then name.value
      else if status.name != "" then status.name
      else id
    }

    function MovePath(status: LtStatus): string {
      if movePath.Just? then movePath.value else status.savePath
    }
  }

  function Urls(trackers: seq<TrackerEntry>): Value {
    List(seq(|trackers|, i requires 0 <= i < |trackers| =>
      Dict([(Str("url"), Str(trackers[i].url)), (Str("tier"), Int(trackers[i].tier))])))
  }

  /** Every key there is, from a torrent, libtorrent's word on it, and the tracker it counts as being on. */
  function FullStatus(w: Words, t: Torrent, s: LtStatus, sessionPaused: bool, current: string, trackers: seq<TrackerEntry>): StatusMap {
    TrackerStatus(w, t, s, current, trackers, t.others
      ["hash" := Str(t.id)]
      ["name" := Str(t.DisplayName(s))]
      ["state" := Str(Derive(s.flags, sessionPaused, t.forcedError).Name())]
      ["download_payload_rate" := Int(s.downloadRate)]
      ["upload_payload_rate" := Int(s.uploadRate)]
      ["total_peers" := Int(s.numIncomplete)]
      ["total_seeds" := Int(s.numComplete)]
      ["is_finished" := Bool(s.isFinished)]
      ["move_completed_path" := Str(t.MovePath(s))]
      ["move_on_completed_path" := Str(t.MovePath(s))]
      ["label" := Str(t.labelled)]
      ["owner" := Str(t.owner)])
  }

  /** The keys that come off the tracker, put into a status. */
  function TrackerStatus(
    w: Words, t: Torrent, s: LtStatus, current: string, trackers: seq<TrackerEntry>, status: StatusMap): StatusMap
  {
    var host := w.hostOf(current);
    status
      ["tracker" := Str(current)]
      ["tracker_host" := Str(host)]
      ["tracker_status" := Str(t.trackerStatus)]
      ["tracker_move_at" := w.countdowns(t, s, host).0]
      ["tracker_remove_at" := w.countdowns(t, s, host).1]
      ["trackers" := Urls(trackers)]
  }

  function Restricted(status: StatusMap, keys: KeySet): StatusMap {
    map key | key in status && keys.Wants(key) :: status[key]
  }

  /** The gate: a key nobody asked for is not inserted. */
  method Put(keys: KeySet, out: StatusMap, key: string, value: Value, ghost full: StatusMap, ghost meant: Value)
    returns (r: StatusMap, ghost filled: StatusMap)
    requires out == Restricted(full, keys) && (keys.Wants(key) ==> value == meant)
    ensures filled == full[key := meant] && r == Restricted(filled, keys)
  {
    filled := full[key := meant];
    r := if keys.Wants(key) then out[key := value] else out;
  }

  method PutOthers(keys: KeySet, others: StatusMap) returns (r: StatusMap)
    ensures r == Restricted(others, keys)
  {
    r := map key | key in others && keys.Wants(key) :: others[key];
  }

  method StatusWithPeers(w: Words, t: Torrent, s: LtStatus, sessionPaused: bool, trackers: seq<TrackerEntry>, keys: KeySet)
    returns (out: StatusMap)
    ensures out == Restricted(FullStatus(w, t, s, sessionPaused, CurrentTracker(s.currentTracker, trackers), trackers), keys)
  {
    hide Restricted, TrackerStatus;
    var state := Derive(s.flags, sessionPaused, t.forcedError);
    ghost var full := t.others;
    out := PutOthers(keys, t.others);
    out, full := Put(keys, out, "hash", Str(t.id), full, Str(t.id));
    var name := Str(t.DisplayName(s));
    out, full := Put(keys, out, "name", name, full, name);
    out, full := Put(keys, out, "state", Str(state.Name()), full, Str(state.Name()));
    out, full := Put(keys, out, "download_payload_rate", Int(s.downloadRate), full, Int(s.downloadRate));
    out, full := Put(keys, out, "upload_payload_rate", Int(s.uploadRate), full, Int(s.uploadRate));
    out, full := Put(keys, out, "total_peers", Int(s.numIncomplete), full, Int(s.numIncomplete));
    out, full := Put(keys, out, "total_seeds", Int(s.numComplete), full, Int(s.numComplete));
    out, full := Put(keys, out, "is_finished", Bool(s.isFinished), full, Bool(s.isFinished));
    ghost var path := Str(t.MovePath(s));
    var movePath := Str("");
    if keys.Wants("move_completed_path") || keys.Wants("move_on_completed_path") {
      movePath := Str(t.MovePath(s));
    }
    out, full := Put(keys, out, "move_completed_path", movePath, full, path);
    out, full := Put(keys, out, "move_on_completed_path", movePath, full, path);
    out, full := Put(keys, out, "label", Str(t.labelled), full, Str(t.labelled));
    out, full := Put(keys, out, "owner", Str(t.owner), full, Str(t.owner));
    out, full := PutTracker(w, t, s, trackers, keys, out, full);
    assert full == FullStatus(w, t, s, sessionPaused, CurrentTracker(s.currentTracker, trackers), trackers);
  }

  /** Four keys come off the tracker; a client that asks for none of them does not pay for it. */
  method PutTracker(
    w: Words, t: Torrent, s: LtStatus, trackers: seq<TrackerEntry>, keys: KeySet, before: StatusMap, ghost fullBefore: StatusMap)
    returns (out: StatusMap, ghost full: StatusMap)
    requires before == Restricted(fullBefore, keys)
    ensures out == Restricted(full, keys)
    ensures full == TrackerStatus(w, t, s, CurrentTracker(s.currentTracker, trackers), trackers, fullBefore)
  {
    hide Restricted;
    full := fullBefore;
    var trackerWanted := keys.Wants("tracker") || keys.Wants("tracker_host")
                         || keys.Wants("tracker_move_at") || keys.Wants("tracker_remove_at");
    var current := if trackerWanted then CurrentTracker(s.currentTracker, trackers) else "";
    var host := if trackerWanted then w.hostOf(current) else "";
    ghost var on := CurrentTracker(s.currentTracker, trackers);
    out, full := Put(keys, before, "tracker", Str(current), full, Str(on));
    out, full := Put(keys, out, "tracker_host", Str(host), full, Str(w.hostOf(on)));
    out, full := Put(keys, out, "tracker_status", Str(t.trackerStatus), full, Str(t.trackerStatus));
    var (moveAt, removeAt) := w.countdowns(t, s, host);
    out, full := Put(keys, out, "tracker_move_at", moveAt, full, w.countdowns(t, s, w.hostOf(on)).0);
    out, full := Put(keys, out, "tracker_remove_at", removeAt, full, w.countdowns(t, s, w.hostOf(on)).1);
    out, full := Put(keys, out, "trackers", Urls(trackers), full, Urls(trackers));
  }

  // ------------------------------------------------------------- filtering

  predicate Contains(text: string, part: string) {
    exists i | 0 <= i <= |text| :: part <= text[i..]
  }

  const GONE: seq<string> := [
    "unregistered", "not registered", "torrent not found", "unknown torrent", "info hash not found", "infohash not found"]

  predicate SaysUnregistered(w: Words, trackerStatus: string) {
    exists i | 0 <= i < |GONE| :: Contains(w.lower(trackerStatus), GONE[i])
  }

  function NumberIn(status: StatusMap, key: string, otherwise: int): int {
    if key in status && status[key].Int? then status[key].number else otherwise
  }

  function TextIn(status: StatusMap, key: string): Option<string> {
    if key in status then status[key].AsStr() else Nothing
  }

  predicate IsDeadSwarm(status: StatusMap) {
    var finished := "is_finished" in status && status["is_finished"].Bool? && status["is_finished"].flag;
    !finished && NumberIn(status, "total_seeds", -1) == 0 && NumberIn(status, "total_peers", -1) == 0
  }

  function SplitOnComma(text: string): (parts: seq<string>)
    ensures parts != []
  {
    if text == "" then [""]
    else
      var rest := SplitOnComma(text[1..]);
      if text[0] == ',' then [""] + rest else [[text[0]] + rest[0]] + rest[1..]
  }

  predicate MatchesKeyword(w: Words, status: StatusMap, term: string) {
    exists i | 0 <= i < |SEARCHED| ::
      TextIn(status, SEARCHED[i]).Just? && Contains(w.lower(TextIn(status, SEARCHED[i]).value), term)
  }

  /** Every non-blank term of a comma-separated search. */
  predicate MatchesTerms(w: Words, status: StatusMap, value: string) {
    var terms := SplitOnComma(value);
    forall i | 0 <= i < |terms| && w.trim(terms[i]) != "" ::
      MatchesKeyword(w, status, w.lower(w.trim(terms[i])))
  }

  predicate MatchesOne(w: Words, status: StatusMap, key: string, wanted: seq<string>) {
    if "All" in wanted then true
    else if key == "state" && "Active" in wanted then
      NumberIn(status, "download_payload_rate", 0) > 0 || NumberIn(status, "upload_payload_rate", 0) > 0
    else if key == "state" && "Unregistered" in wanted then
      TextIn(status, "tracker_status").Just? && SaysUnregistered(w, TextIn(status, "tracker_status").value)
    else if key == "state" && "Dead" in wanted then IsDeadSwarm(status)
    else if key == "keyword" then
      forall i | 0 <= i < |wanted| :: MatchesTerms(w, status, wanted[i])
    else if key == "name" then
      && TextIn(status, "name").Just?
      && exists i | 0 <= i < |wanted| :: Contains(w.lower(TextIn(status, "name").value), w.lower(wanted[i]))
    else TextIn(status, key).Just? && TextIn(status, key).value in wanted
  }

  predicate MatchesFilter(w: Words, status: StatusMap, pairs: Pairs) {
    forall i | 0 <= i < |pairs| :: MatchesOne(w, status, pairs[i].0, pairs[i].1)
  }

  // ------------------------------------------------------------ projection

  /** A status as it is sent: all of it in key order, or the named fields in the order named. */
  datatype Answer = Whole(status: StatusMap) | Picked(fields: seq<(string, Value)>)

  function PickedFrom(status: StatusMap, wanted: seq<string>): seq<(string, Value)> {
    if wanted == [] then []
    else if wanted[0] in status then
      [(wanted[0], status[wanted[0]])] + PickedFrom(status - {wanted[0]}, wanted[1..])
    else PickedFrom(status, wanted[1..])
  }

  function Filtered(status: StatusMap, keys: Option<seq<string>>): Answer {
    match keys
    case Nothing => Whole(status)
    case Just(wanted) => Picked(PickedFrom(status, wanted))
  }

  /** Fields are taken out of the map, so a key named twice is answered once. */
  method Project(status: StatusMap, keys: Option<seq<string>>) returns (r: Answer)
    ensures r == Filtered(status, keys)
  {
    if keys.Nothing? {
      return Whole(status);
    }
    var wanted := keys.value;
    var left := status;
    var fields := [];
    for i := 0 to |wanted|
      invariant fields + PickedFrom(left, wanted[i..]) == PickedFrom(status, wanted)
    {
      assert wanted[i..][1..] == wanted[i + 1..];
      if wanted[i] in left {
        fields := fields + [(wanted[i], left[wanted[i]])];
        left := left - {wanted[i]};
      }
    }
    r := Picked(fields);
  }

  type Row = (string, StatusMap)

  function OnlyWanted(w: Words, rows: seq<Row>, pairs: Pairs, keys: Option<seq<string>>): seq<(string, Answer)> {
    if rows == [] then []
    else
      var last := rows[|rows| - 1];
      OnlyWanted(w, rows[..|rows| - 1], pairs, keys)
        + if MatchesFilter(w, last.1, pairs) then [(last.0, Filtered(last.1, keys))] else []
  }

  method SelectRows(w: Words, rows: seq<Row>, filter: Option<Value>, keys: Option<seq<string>>)
    returns (out: seq<(string, Answer)>)
    ensures out == OnlyWanted(w, rows, FilterPairs(filter), keys)
  {
    out := [];
    for i := 0 to |rows|
      invariant out == OnlyWanted(w, rows[..i], FilterPairs(filter), keys)
    {
      assert rows[..i + 1][..i] == rows[..i];
      if MatchesFilter(w, rows[i].1, FilterPairs(filter)) {
        var fields := Project(rows[i].1, keys);
        out := out + [(rows[i].0, fields)];
      }
    }
    assert rows[..|rows|] == rows;
  }

  // ----------------------------------------------------------- the library

  /** One torrent of the library, with the session's tracker list and whatever is cached of it. */
  datatype Known = Known(torrent: Torrent, status: LtStatus, trackers: seq<TrackerEntry>, cached: Option<string>)

  ghost predicate AllFresh(library: seq<Known>) {
    forall i | 0 <= i < |library| :: Fresh(library[i].cached, library[i].trackers)
  }

  function StatusRow(w: Words, k: Known, sessionPaused: bool, keys: KeySet): Row {
    var list := Offered(k.status.currentTracker, k.cached, k.trackers, keys.Wants("trackers"));
    (k.torrent.id,
     Restricted(FullStatus(w, k.torrent, k.status, sessionPaused, CurrentTracker(k.status.currentTracker, list), list), keys))
  }

  function StatusRows(w: Words, library: seq<Known>, sessionPaused: bool, keys: KeySet): seq<Row> {
    seq(|library|, i requires 0 <= i < |library| => StatusRow(w, library[i], sessionPaused, keys))
  }

  /** The torrents of a walk over libtorrent's statuses, each with its list and what was cached of it before the walk. */
  function LibraryOf(
    torrents: map<string, Torrent>, statuses: seq<LtStatus>,
    session: map<string, seq<TrackerEntry>>, cached: map<string, string>): seq<Known>
    requires forall i | 0 <= i < |statuses| :: statuses[i].infoHash in session
  {
    if statuses == [] then []
    else
      var status := statuses[|statuses| - 1];
      var id := status.infoHash;
      LibraryOf(torrents, statuses[..|statuses| - 1], session, cached)
      + if id !in torrents then []
        else [Known(torrents[id], status, session[id], if id in cached then Just(cached[id]) else Nothing)]
  }

  predicate OncePerHash(statuses: seq<LtStatus>) {
    forall i, j | 0 <= i < j < |statuses| :: statuses[i].infoHash != statuses[j].infoHash
  }

  lemma OneMoreRow(
    w: Words, torrents: map<string, Torrent>, statuses: seq<LtStatus>, i: nat, session: map<string, seq<TrackerEntry>>,
    cached: map<string, string>, sessionPaused: bool, keys: KeySet)
    requires i < |statuses| && forall j | 0 <= j < |statuses| :: statuses[j].infoHash in session
    ensures var id := statuses[i].infoHash;
            StatusRows(w, LibraryOf(torrents, statuses[..i + 1], session, cached), sessionPaused, keys)
            == StatusRows(w, LibraryOf(torrents, statuses[..i], session, cached), sessionPaused, keys)
               + if id !in torrents then []
                 else [StatusRow(w, Known(torrents[id], statuses[i], session[id], HeldOf(session, cached, id).cached), sessionPaused, keys)]
  {
    hide StatusRow;
    assert statuses[..i + 1][..i] == statuses[..i];
  }

  /** The walk: torrents the daemon does not know are passed over, and looking a list up may fill the cache. */
  method BuildRows(
    w: Words, state: SessionState, torrents: map<string, Torrent>, statuses: seq<LtStatus>, sessionPaused: bool, keys: KeySet)
    returns (rows: seq<Row>)
    requires state.Valid() && OncePerHash(statuses)
    requires forall i | 0 <= i < |statuses| :: statuses[i].infoHash in state.session
    requires forall id | id in torrents :: torrents[id].id == id
    modifies state`firstTracker, state`lives
    ensures state.Valid()
    ensures rows == StatusRows(w, LibraryOf(torrents, statuses, state.session, old(state.firstTracker)), sessionPaused, keys)
  {
    hide StatusRows, LibraryOf, Restricted, FullStatus, AllLed, Pending, Lived;
    rows := [];
    ghost var session, cached := state.session, state.firstTracker;
    NoRows(w, torrents, session, cached, sessionPaused, keys);
    for i := 0 to |statuses|
      invariant state.Valid()
      invariant rows == StatusRows(w, LibraryOf(torrents, statuses[..i], session, cached), sessionPaused, keys)
      invariant forall j | i <= j < |statuses| ::
                  HeldOf(session, state.firstTracker, statuses[j].infoHash) == HeldOf(session, cached, statuses[j].infoHash)
    {
      var status := statuses[i];
      var id := status.infoHash;
      OneMoreRow(w, torrents, statuses, i, session, cached, sessionPaused, keys);
      if id !in torrents {
        continue;
      }
      var list := state.TrackerList(id, status.currentTracker, keys.Wants("trackers"));
      var row := StatusWithPeers(w, torrents[id], status, sessionPaused, list, keys);
      rows := rows + [(id, row)];
    }
    assert statuses[..|statuses|] == statuses;
  }

  lemma NoRows(
    w: Words, torrents: map<string, Torrent>, session: map<string, seq<TrackerEntry>>, cached: map<string, string>,
    sessionPaused: bool, keys: KeySet)
    ensures StatusRows(w, LibraryOf(torrents, [], session, cached), sessionPaused, keys) == []
  {
  }
}
