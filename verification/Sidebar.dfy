/**
 The sidebar's tree of counts, which is a second computation of what the status filter
 answers and has to agree with it row by row.
 */
module Sidebar {
  import opened Bytes
  import opened TrackerCache
  import opened TorrentState
  import opened Status
  import opened StatusLaws

  datatype FilterRow = FilterRow(
    state: State,
    tracker: string,
    owner: string,
    labelled: string,
    transferring: bool,
    trackerStatus: string,
    deadSwarm: bool)

  function FilterRowOf(k: Known, sessionPaused: bool): FilterRow {
    var s := k.status;
    FilterRow(
      Derive(s.flags, sessionPaused, k.torrent.forcedError),
      CurrentTracker(s.currentTracker, Offered(s.currentTracker, k.cached, k.trackers, false)),
      k.torrent.owner,
      k.torrent.labelled,
      s.downloadRate > 0 || s.uploadRate > 0,
      k.torrent.trackerStatus,
      !s.isFinished && s.numComplete == 0 && s.numIncomplete == 0)
  }

  function FilterRows(library: seq<Known>, sessionPaused: bool): seq<FilterRow> {
    seq(|library|, i requires 0 <= i < |library| => FilterRowOf(library[i], sessionPaused))
  }

  // -------------------------------------------------------------- the tree

  /** The rows of the tree a client can click on. */
  datatype TreeRow =
    | AllRow
    | ActiveRow
    | UnregisteredRow
    | DeadRow
    | StateRow(state: State)
    | HostRow(host: string)
    | OwnerRow(owner: string)
    | LabelRow(name: string)

  /** Whether a torrent is counted in a row. */
  predicate InRow(w: Words, r: FilterRow, row: TreeRow) {
    match row
    case AllRow => true
    case ActiveRow => r.transferring
    case UnregisteredRow => SaysUnregistered(w, r.trackerStatus)
    case DeadRow => r.deadSwarm
    case StateRow(state) => r.state == state
    case HostRow(host) => w.hostOf(r.tracker) == host
    case OwnerRow(owner) => r.owner == owner
    case LabelRow(name) => r.labelled == name
  }

  function CountIn(w: Words, rows: seq<FilterRow>, row: TreeRow): nat {
    if rows == [] then 0
    else CountIn(w, rows[..|rows| - 1], row) + if InRow(w, rows[|rows| - 1], row) then 1 else 0
  }

  datatype Tree = Tree(
    total: nat,
    active: nat,
    unregistered: nat,
    dead: nat,
    byState: map<State, nat>,
    byTracker: map<string, nat>,
    byOwner: map<string, nat>,
    byLabel: map<string, nat>)

  function At<K>(counts: map<K, nat>, key: K): nat {
    if key in counts then counts[key] else 0
  }

  /** The number a row of the tree shows. */
  function Shown(tree: Tree, row: TreeRow): nat {
    match row
    case AllRow => tree.total
    case ActiveRow => tree.active
    case UnregisteredRow => tree.unregistered
    case DeadRow => tree.dead
    case StateRow(state) => At(tree.byState, state)
    case HostRow(host) => At(tree.byTracker, host)
    case OwnerRow(owner) => At(tree.byOwner, owner)
    case LabelRow(name) => At(tree.byLabel, name)
  }

  function OneMore<K>(counts: map<K, nat>, key: K): map<K, nat> {
    counts[key := At(counts, key) + 1]
  }

  /** Every row shows its count, and a host, owner or label has a row exactly when it counts something. */
  ghost predicate Shows(w: Words, tree: Tree, rows: seq<FilterRow>) {
    && (forall row :: Shown(tree, row) == CountIn(w, rows, row))
    && (forall host :: host in tree.byTracker <==> CountIn(w, rows, HostRow(host)) > 0)
    && (forall owner :: owner in tree.byOwner <==> CountIn(w, rows, OwnerRow(owner)) > 0)
    && (forall name :: name in tree.byLabel <==> CountIn(w, rows, LabelRow(name)) > 0)
  }

  /** The tree with one more torrent counted. */
  function Counted(w: Words, tree: Tree, r: FilterRow): Tree {
    Tree(tree.total + 1,
         if r.transferring then tree.active + 1 else tree.active,
         if SaysUnregistered(w, r.trackerStatus) then tree.unregistered + 1 else tree.unregistered,
         if r.deadSwarm then tree.dead + 1 else tree.dead,
         OneMore(tree.byState, r.state),
         OneMore(tree.byTracker, w.hostOf(r.tracker)),
         OneMore(tree.byOwner, r.owner),
         OneMore(tree.byLabel, r.labelled))
  }

  lemma CountInSnoc(w: Words, rows: seq<FilterRow>, r: FilterRow, row: TreeRow)
    ensures CountIn(w, rows + [r], row) == CountIn(w, rows, row) + if InRow(w, r, row) then 1 else 0
  {
    hide InRow;
    assert (rows + [r])[..|rows|] == rows;
  }

  lemma ShownOneMore(w: Words, tree: Tree, r: FilterRow, row: TreeRow)
    ensures Shown(Counted(w, tree, r), row) == Shown(tree, row) + if InRow(w, r, row) then 1 else 0
  {
    hide SaysUnregistered;
  }

  lemma CountedShows(w: Words, tree: Tree, rows: seq<FilterRow>, r: FilterRow)
    requires Shows(w, tree, rows)
    ensures Shows(w, Counted(w, tree, r), rows + [r])
  {
    hide SaysUnregistered, Shown, CountIn, InRow;
    var after := Counted(w, tree, r);
    forall row
      ensures Shown(after, row) == CountIn(w, rows + [r], row)
      ensures CountIn(w, rows + [r], row) == CountIn(w, rows, row) + if InRow(w, r, row) then 1 else 0
    {
      CountInSnoc(w, rows, r, row);
      ShownOneMore(w, tree, r, row);
    }
    NewestIn(w, r);
  }

  lemma NewestIn(w: Words, r: FilterRow)
    ensures forall host :: InRow(w, r, HostRow(host)) <==> w.hostOf(r.tracker) == host
    ensures forall owner :: InRow(w, r, OwnerRow(owner)) <==> r.owner == owner
    ensures forall name :: InRow(w, r, LabelRow(name)) <==> r.labelled == name
  {
  }

  method FilterTreeOf(w: Words, rows: seq<FilterRow>) returns (tree: Tree)
    ensures Shows(w, tree, rows)
  {
    hide SaysUnregistered, Shows;
    var byState: map<State, nat>, byTracker: map<string, nat> := map[], map[];
    var byOwner: map<string, nat>, byLabel: map<string, nat> := map[], map[];
    var active: nat, unregistered: nat, dead: nat := 0, 0, 0;
    NothingCounted(w);
    for i := 0 to |rows|
      invariant Shows(w, Tree(i, active, unregistered, dead, byState, byTracker, byOwner, byLabel), rows[..i])
    {
      var r := rows[i];
      ghost var before := Tree(i, active, unregistered, dead, byState, byTracker, byOwner, byLabel);
      byState := OneMore(byState, r.state);
      if r.transferring {
        active := active + 1;
      }
      if SaysUnregistered(w, r.trackerStatus) {
        unregistered := unregistered + 1;
      }
      if r.deadSwarm {
        dead := dead + 1;
      }
      var host := w.hostOf(r.tracker);
      byTracker := OneMore(byTracker, host);
      byOwner := OneMore(byOwner, r.owner);
      byLabel := OneMore(byLabel, r.labelled);
      CountedShows(w, before, rows[..i], r);
      assert rows[..i] + [r] == rows[..i + 1];
    }
    assert rows[..|rows|] == rows;
    tree := Tree(|rows|, active, unregistered, dead, byState, byTracker, byOwner, byLabel);
  }

  lemma NothingCounted(w: Words)
    ensures Shows(w, Tree(0, 0, 0, 0, map[], map[], map[], map[]), [])
  {
  }

  // ------------------------------------------------------------- agreement

  /** The key and the value a client filters by when the row is clicked. */
  function FilterKey(row: TreeRow): string {
    match row
    case HostRow(_) => "tracker_host"
    case OwnerRow(_) => "owner"
    case LabelRow(_) => "label"
    case _ => "state"
  }

  function FilterValue(row: TreeRow): string {
    match row
    case AllRow => "All"
    case ActiveRow => "Active"
    case UnregisteredRow => "Unregistered"
    case DeadRow => "Dead"
    case StateRow(state) => state.Name()
    case HostRow(host) => host
    case OwnerRow(owner) => owner
    case LabelRow(name) => name
  }

  function FilterFor(row: TreeRow): Option<Value> {
    Just(Dict([(Str(FilterKey(row)), List([Str(FilterValue(row))]))]))
  }

  lemma PairsFor(row: TreeRow)
    ensures FilterPairs(FilterFor(row)) == [(FilterKey(row), [FilterValue(row)])]
  {
    hide FilterKey, FilterValue;
    var value := Str(FilterValue(row));
    assert [value][1..] == [];
    assert StringsOf([value]) == [FilterValue(row)];
    var entries := [(Str(FilterKey(row)), List([value]))];
    assert entries[1..] == [];
    assert PairsOf(entries) == [(FilterKey(row), [FilterValue(row)])];
  }

  /** One torrent: the filter of a row takes it exactly when the row counts it, or when it is called "All". */
  lemma OneAgrees(w: Words, k: Known, sessionPaused: bool, row: TreeRow)
    requires Fresh(k.cached, k.trackers)
    ensures MatchesFilter(w, StatusRow(w, k, sessionPaused, All).1, [(FilterKey(row), [FilterValue(row)])])
       <==> (FilterValue(row) == "All" || InRow(w, FilterRowOf(k, sessionPaused), row))
  {
    hide SaysUnregistered, Urls, MatchesFilter, MatchesOne, FilterKey, FilterValue, InRow;
    var s := k.status;
    var status := StatusRow(w, k, sessionPaused, All).1;
    OfferedAnswersAlike(s.currentTracker, k.cached, k.trackers, false);
    OfferedAnswersAlike(s.currentTracker, k.cached, k.trackers, true);
    var current := CurrentTracker(s.currentTracker, k.trackers);
    FieldsOf(w, k.torrent, s, sessionPaused, current, k.trackers);
    assert status == FullStatus(w, k.torrent, s, sessionPaused, current, k.trackers);
    OnePair(w, status, FilterKey(row), [FilterValue(row)]);
    OneRowAgrees(w, k, sessionPaused, row, status, current);
  }

  lemma OnePair(w: Words, status: StatusMap, key: string, wanted: seq<string>)
    ensures MatchesFilter(w, status, [(key, wanted)]) <==> MatchesOne(w, status, key, wanted)
  {
    hide MatchesOne;
    var pairs := [(key, wanted)];
    assert pairs[0].0 == key && pairs[0].1 == wanted;
  }

  /** The fields the sidebar's filters read. */
  predicate Holds(w: Words, k: Known, sessionPaused: bool, status: StatusMap, current: string) {
    && "state" in status && status["state"] == Str(Derive(k.status.flags, sessionPaused, k.torrent.forcedError).Name())
    && "download_payload_rate" in status && status["download_payload_rate"] == Int(k.status.downloadRate)
    && "upload_payload_rate" in status && status["upload_payload_rate"] == Int(k.status.uploadRate)
    && "total_peers" in status && status["total_peers"] == Int(k.status.numIncomplete)
    && "total_seeds" in status && status["total_seeds"] == Int(k.status.numComplete)
    && "is_finished" in status && status["is_finished"] == Bool(k.status.isFinished)
    && "label" in status && status["label"] == Str(k.torrent.labelled)
    && "owner" in status && status["owner"] == Str(k.torrent.owner)
    && "tracker_host" in status && status["tracker_host"] == Str(w.hostOf(current))
    && "tracker_status" in status && status["tracker_status"] == Str(k.torrent.trackerStatus)
  }

  lemma FieldsOf(w: Words, t: Torrent, s: LtStatus, sessionPaused: bool, current: string, trackers: seq<TrackerEntry>)
    ensures Holds(w, Known(t, s, trackers, Nothing), sessionPaused, FullStatus(w, t, s, sessionPaused, current, trackers), current)
  {
    hide Urls;
  }

  lemma OneRowAgrees(w: Words, k: Known, sessionPaused: bool, row: TreeRow, status: StatusMap, current: string)
    requires Holds(w, k, sessionPaused, status, current)
    requires FilterRowOf(k, sessionPaused).tracker == current
    ensures MatchesOne(w, status, FilterKey(row), [FilterValue(row)])
       <==> (FilterValue(row) == "All" || InRow(w, FilterRowOf(k, sessionPaused), row))
  {
    hide SaysUnregistered;
    if row.StateRow? {
      NamesAreDistinct(row.state, Derive(k.status.flags, sessionPaused, k.torrent.forcedError));
    }
  }

  /** How many torrents a row's filter takes, counted over the rows built in full. */
  lemma {:induction false} FilterCounts(
    w: Words, library: seq<Known>, sessionPaused: bool, row: TreeRow, keys: Option<seq<string>>)
    requires AllFresh(library)
    ensures |OnlyWanted(w, StatusRows(w, library, sessionPaused, All), FilterPairs(FilterFor(row)), keys)|
         == if FilterValue(row) == "All" then |library| else CountIn(w, FilterRows(library, sessionPaused), row)
  {
    hide StatusRow, FilterPairs, MatchesFilter, Filtered, InRow, FilterRowOf, FilterValue, FilterFor, FilterKey;
    if library != [] {
      var front, last := library[..|library| - 1], library[|library| - 1];
      FilterCounts(w, front, sessionPaused, row, keys);
      PairsFor(row);
      OneAgrees(w, last, sessionPaused, row);
      RowsSnoc(w, library, sessionPaused, All);
      var rows := FilterRows(library, sessionPaused);
      assert rows[..|rows| - 1] == FilterRows(front, sessionPaused);
    }
  }

  /** What a walk for some keys sees of a torrent, as if libtorrent's list were that and nothing cached. */
  function AsSeen(k: Known, keys: KeySet): Known {
    var announced := k.status.currentTracker;
    if !keys.Wants("trackers") then k.(trackers := Offered(announced, k.cached, k.trackers, false), cached := Nothing)
    else if announced != "" then k.(cached := Nothing)
    else k
  }

  function AllAsSeen(library: seq<Known>, keys: KeySet): seq<Known> {
    seq(|library|, i requires 0 <= i < |library| => AsSeen(library[i], keys))
  }

  /** The walk for the rows reads the tracker the sidebar does, or what is cached of it is fresh. */
  predicate Alike(k: Known, keys: KeySet) {
    !keys.Wants("trackers") || k.status.currentTracker != "" || Fresh(k.cached, k.trackers)
  }

  lemma SeenAlike(w: Words, k: Known, sessionPaused: bool, keys: KeySet)
    ensures StatusRow(w, AsSeen(k, keys), sessionPaused, keys) == StatusRow(w, k, sessionPaused, keys)
    ensures FilterRowOf(AsSeen(k, keys), sessionPaused) == FilterRowOf(k, sessionPaused)
    ensures Alike(k, keys) ==> Fresh(AsSeen(k, keys).cached, AsSeen(k, keys).trackers)
  {
    hide FullStatus, Restricted;
  }

  lemma AllSeenAlike(w: Words, library: seq<Known>, sessionPaused: bool, keys: KeySet)
    ensures StatusRows(w, AllAsSeen(library, keys), sessionPaused, keys) == StatusRows(w, library, sessionPaused, keys)
    ensures FilterRows(AllAsSeen(library, keys), sessionPaused) == FilterRows(library, sessionPaused)
    ensures (forall i | 0 <= i < |library| :: Alike(library[i], keys)) ==> AllFresh(AllAsSeen(library, keys))
  {
    hide StatusRow, FilterRowOf, AsSeen, Alike, Fresh;
    forall i | 0 <= i < |library|
      ensures StatusRow(w, AsSeen(library[i], keys), sessionPaused, keys) == StatusRow(w, library[i], sessionPaused, keys)
      ensures FilterRowOf(AsSeen(library[i], keys), sessionPaused) == FilterRowOf(library[i], sessionPaused)
      ensures Alike(library[i], keys) ==> Fresh(AsSeen(library[i], keys).cached, AsSeen(library[i], keys).trackers)
    {
      SeenAlike(w, library[i], sessionPaused, keys);
    }
  }

  /**
   The number beside a row is the number of torrents a click on it lists, for every library,
   every row and whatever keys the client asks for, unless the row is a host, owner or label
   that is literally called "All": such a row lists the whole library. However stale a cached
   tracker, both read it alike, unless the client asks for the tracker lists too.
   */
  lemma CountsAgree(
    w: Words, library: seq<Known>, sessionPaused: bool, row: TreeRow, keys: Option<seq<string>>, tree: Tree)
    requires forall i | 0 <= i < |library| :: Alike(library[i], KeysFor(keys, FilterFor(row)))
    requires Shows(w, tree, FilterRows(library, sessionPaused))
    ensures var listed := OnlyWanted(w, StatusRows(w, library, sessionPaused, KeysFor(keys, FilterFor(row))),
                                     FilterPairs(FilterFor(row)), keys);
            && (|listed| == Shown(tree, row) <==> (FilterValue(row) != "All" || Shown(tree, row) == |library|))
            && (FilterValue(row) == "All" ==> |listed| == |library|)
  {
    var built := KeysFor(keys, FilterFor(row));
    var seen := AllAsSeen(library, built);
    AllSeenAlike(w, library, sessionPaused, built);
    hide StatusRows, OnlyWanted, FilterPairs, FilterFor, KeysFor, FilterValue, FilterRows, Shown;
    PushdownKeepsAnswer(w, seen, sessionPaused, FilterFor(row), keys);
    FilterCounts(w, seen, sessionPaused, row, keys);
  }
}
